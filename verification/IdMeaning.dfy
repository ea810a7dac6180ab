/**
 What the id assignment of src/config_readers/bmv2_json_reader.c comes to for annotations of any
 length: which id is reserved for an object, which one it is given, and what is tried before.
 */
module IdMeaning {
  import opened Basics
  import opened BubbleSpec
  import opened IdSpec

  // ------------------------------------------------------------------- bits

  predicate Bit(a: nat, k: nat)
    decreases k
  {
    if k == 0 then a % 2 == 1 else Bit(a / 2, k - 1)
  }

  lemma {:induction false} ZeroHasNoBits(k: nat)
    ensures !Bit(0, k)
  {
    if k > 0 { ZeroHasNoBits(k - 1); }
  }

  /** Each bit of a bitwise or is set exactly if it is in one of the two. */
  lemma {:induction false} OrBits(a: nat, b: nat, k: nat)
    ensures Bit(Or(a, b), k) <==> Bit(a, k) || Bit(b, k)
    decreases k
  {
    ZeroHasNoBits(k);
    if a != 0 && b != 0 && k > 0 {
      OrBits(a / 2, b / 2, k - 1);
      assert Or(a, b) / 2 == Or(a / 2, b / 2);
    }
  }

  // -------------------------------------------------------------- reserving

  /** The j-th listed id is the first that is too big or still free. */
  ghost predicate Decides(ids: seq<u32>, t: TypeId, reserved: set<nat>, j: nat) {
    && j < |ids| && (ids[j] <= 0xffff ==> FullId(t, ids[j]) !in reserved)
    && forall i :: 0 <= i < j ==> ids[i] <= 0xffff && FullId(t, ids[i]) in reserved
  }

  /** The scan over an object's ids stops there: with an error if it is too big, with the id if it is free. */
  lemma {:induction false} ScanStopsAt(ids: seq<u32>, t: TypeId, reserved: set<nat>, j: nat)
    requires Decides(ids, t, reserved, j)
    ensures ScanIds(ids, t, reserved) == if ids[j] > 0xffff then TooBig else Free(FullId(t, ids[j]))
    decreases j
  {
    if j > 0 {
      assert ids[0] <= 0xffff && FullId(t, ids[0]) in reserved;
      ScanStopsAt(ids[1..], t, reserved, j - 1);
    }
  }

  /** Without such an id all are taken. */
  lemma {:induction false} ScanFindsNone(ids: seq<u32>, t: TypeId, reserved: set<nat>)
    ensures ScanIds(ids, t, reserved).NoneFree? <==>
            forall i :: 0 <= i < |ids| ==> ids[i] <= 0xffff && FullId(t, ids[i]) in reserved
  {
    if ids != [] { ScanFindsNone(ids[1..], t, reserved); }
  }

  lemma {:induction false} ReservingGrows(objs: seq<Obj>, t: TypeId, reserved: set<nat>, found: bool)
    requires PreReserve(objs, t, reserved, found).Done?
    ensures reserved <= PreReserve(objs, t, reserved, found).value
    decreases |objs|
  {
    if objs != [] {
      var scan := ScanIds(objs[0].ids, t, reserved);
      if objs[0].ids != [] && scan.Free? {
        ReservingGrows(objs[1..], t, reserved + {scan.id}, true);
      } else {
        ReservingGrows(objs[1..], t, reserved, found);
      }
    }
  }

  /** What one more object does after some others have been gone through, `any` telling whether they reserved anything. */
  function OneMore(o: Obj, t: TypeId, reserved: set<nat>, any: bool): Outcome<set<nat>> {
    if o.ids == [] then Done(reserved)
    else
      match ScanIds(o.ids, t, reserved)
      case TooBig => Exit
      case Free(id) => Done(reserved + {id})
      case NoneFree => if any then Done(reserved) else Exit
  }

  /**
   Reserving goes object by object, and a call ends the reader exactly at an object that lists an
   id above 0xffff before any free one, or only taken ones while nothing has been reserved yet.
   */
  lemma {:induction false} ReserveOneMore(objs: seq<Obj>, o: Obj, t: TypeId, reserved: set<nat>, found: bool)
    ensures match PreReserve(objs, t, reserved, found)
      case Done(r) => PreReserve(objs + [o], t, reserved, found) == OneMore(o, t, r, found || r != reserved)
      case _ => PreReserve(objs + [o], t, reserved, found) == Exit
    decreases |objs|
  {
    var all := objs + [o];
    if objs == [] {
      assert all[1..] == [];
    } else {
      assert all[0] == objs[0] && all[1..] == objs[1..] + [o];
      if objs[0].ids == [] {
        ReserveOneMore(objs[1..], o, t, reserved, found);
      } else {
        match ScanIds(objs[0].ids, t, reserved)
        case TooBig =>
        case NoneFree => ReserveOneMore(objs[1..], o, t, reserved, found);
        case Free(id) =>
          ReserveOneMore(objs[1..], o, t, reserved + {id}, true);
          if PreReserve(objs[1..], t, reserved + {id}, true).Done? { ReservingGrows(objs[1..], t, reserved + {id}, true); }
      }
    }
  }

  // -------------------------------------------------------------- requesting

  /** The j-th listed id is the first not given out yet; those before it are reserved. */
  ghost predicate Next(ids: seq<u32>, t: TypeId, s: Ids, j: nat) {
    && j < |ids| && ListedId(t, ids[j]) !in s.issued
    && forall i :: 0 <= i < j ==> ListedId(t, ids[i]) in s.issued && ListedId(t, ids[i]) in s.reserved
  }

  /** An object gets the first listed id that is not given out yet; that it is reserved is asserted. */
  lemma {:induction false} RequestGives(s: Ids, ids: seq<u32>, t: TypeId, h: nat, j: nat)
    requires Next(ids, t, s, j)
    ensures var id := ListedId(t, ids[j]);
      Request(s, ids, t, h) == if id in s.reserved then Done((id, Ids(s.reserved, s.issued + {id}))) else AssertFailed
    decreases j
  {
    if j > 0 {
      assert ListedId(t, ids[0]) in s.issued && ListedId(t, ids[0]) in s.reserved;
      RequestGives(s, ids[1..], t, h, j - 1);
    }
  }

  /** The e-th slot from a hash on, cyclically. */
  function Slot(t: TypeId, h: nat, e: nat): nat {
    FullId(t, (h + e) % 0x1_0000)
  }

  /** The d-th slot tried from a hash is free, and those before it are not. */
  ghost predicate FreeAfter(reserved: set<nat>, t: TypeId, h: nat, d: nat) {
    d < 0x1_0000 && Slot(t, h, d) !in reserved && forall e: nat :: e < d ==> Slot(t, h, e) in reserved
  }

  lemma {:induction false} FirstFreeFrom(reserved: set<nat>, t: TypeId, h: nat, d: nat, k: nat)
    requires k <= d && FreeAfter(reserved, t, h, d)
    ensures FirstFree(reserved, t, h, k) == Some(Slot(t, h, d))
    decreases d - k
  {
    if k < d {
      assert Slot(t, h, k) in reserved;
      FirstFreeFrom(reserved, t, h, d, k + 1);
    }
  }

  /** If there are none, or all listed ones are given out, it gets the first free slot from the hash of its name on. */
  lemma {:induction false} RequestGenerates(s: Ids, ids: seq<u32>, t: TypeId, h: nat, d: nat)
    requires forall i :: 0 <= i < |ids| ==> ListedId(t, ids[i]) in s.issued && ListedId(t, ids[i]) in s.reserved
    requires FreeAfter(s.reserved, t, h, d) && s.issued <= s.reserved
    ensures var id := Slot(t, h, d);
      Request(s, ids, t, h) == Done((id, Ids(s.reserved + {id}, s.issued + {id})))
    decreases |ids|
  {
    if ids == [] {
      FirstFreeFrom(s.reserved, t, h, d, 0);
    } else {
      assert ListedId(t, ids[0]) in s.issued;
      RequestGenerates(s, ids[1..], t, h, d);
    }
  }

  /** The state after the objects before, going by the ids they were given. */
  ghost function StateAfter(s: Ids, given: seq<nat>): Ids {
    Ids(s.reserved + (set x | x in given), s.issued + (set x | x in given))
  }

  lemma GivenOneMore(s: Ids, given: seq<nat>, id: nat)
    ensures var s' := StateAfter(s, given);
      StateAfter(s, given + [id]) == Ids(s'.reserved + {id}, s'.issued + {id})
  {
    assert (set x | x in given + [id]) == (set x | x in given) + {id};
  }

  /** What an object may be given: a listed id, or a free slot near the hash of its name. */
  ghost predicate Deserves(o: Obj, id: nat, s: Ids, t: TypeId, h: nat) {
    || (exists j: nat :: Next(o.ids, t, s, j) && id == ListedId(t, o.ids[j]) && id in s.reserved)
    || ((forall i :: 0 <= i < |o.ids| ==> ListedId(t, o.ids[i]) in s.issued && ListedId(t, o.ids[i]) in s.reserved)
        && exists d: nat :: FreeAfter(s.reserved, t, h, d) && id == Slot(t, h, d))
  }

  /** Probing ends at the first free slot. */
  lemma {:induction false} FreeSlotFound(reserved: set<nat>, t: TypeId, h: nat, k: nat) returns (d: nat)
    requires k <= SLOTS && FirstFree(reserved, t, h, k).Some? && forall e: nat :: e < k ==> Slot(t, h, e) in reserved
    ensures FreeAfter(reserved, t, h, d) && FirstFree(reserved, t, h, k) == Some(Slot(t, h, d))
    decreases SLOTS - k
  {
    if Slot(t, h, k) !in reserved {
      d := k;
    } else {
      d := FreeSlotFound(reserved, t, h, k + 1);
    }
  }

  lemma {:induction false} RequestDeserved(s: Ids, o: Obj, t: TypeId, h: nat)
    requires Request(s, o.ids, t, h).Done?
    ensures var (id, s') := Request(s, o.ids, t, h).value;
      Deserves(o, id, s, t, h) && s' == Ids(s.reserved + {id}, s.issued + {id})
    decreases |o.ids|
  {
    if o.ids == [] {
      var d := FreeSlotFound(s.reserved, t, h, 0);
    } else {
      var id := ListedId(t, o.ids[0]);
      if id !in s.issued {
        assert Next(o.ids, t, s, 0);
        assert s.reserved + {id} == s.reserved;
      } else {
        var rest := o.(ids := o.ids[1..]);
        RequestDeserved(s, rest, t, h);
        DeservesMore(o, Request(s, o.ids, t, h).value.0, s, t, h);
      }
    }
  }

  lemma DeservesMore(o: Obj, id: nat, s: Ids, t: TypeId, h: nat)
    requires o.ids != [] && ListedId(t, o.ids[0]) in s.issued && ListedId(t, o.ids[0]) in s.reserved
    requires Deserves(o.(ids := o.ids[1..]), id, s, t, h)
    ensures Deserves(o, id, s, t, h)
  {
    var rest := o.ids[1..];
    if j: nat :| Next(rest, t, s, j) && id == ListedId(t, rest[j]) && id in s.reserved {
      assert forall i :: 0 < i < |o.ids| ==> o.ids[i] == rest[i - 1];
      assert Next(o.ids, t, s, j + 1);
    } else {
      assert forall i :: 0 < i < |o.ids| ==> o.ids[i] == rest[i - 1];
    }
  }

  /**
   Over a whole assignment, annotations of any length: every object is given what it deserves of
   what the objects before it have left.
   */
  lemma {:induction false} EveryoneGetsTheirs(objs: seq<Obj>, s: Ids, t: TypeId, hash: Name -> u32, i: nat)
    requires Assign(objs, s, t, hash).Done? && i < |objs|
    ensures |Assign(objs, s, t, hash).value| == |objs|
    ensures var ids := Assign(objs, s, t, hash).value;
      Deserves(objs[i], ids[i], StateAfter(s, ids[..i]), t, hash(objs[i].name))
    decreases |objs|
  {
    AssignLength(objs, s, t, hash);
    RequestDeserved(s, objs[0], t, hash(objs[0].name));
    var ids := Assign(objs, s, t, hash).value;
    var (id, s') := Request(s, objs[0].ids, t, hash(objs[0].name)).value;
    if i == 0 {
      assert StateAfter(s, ids[..0]) == s;
    } else {
      EveryoneGetsTheirs(objs[1..], s', t, hash, i - 1);
      assert ids[1..] == Assign(objs[1..], s', t, hash).value;
      OneGiven(s, id, ids, i);
    }
  }

  lemma OneGiven(s: Ids, id: nat, ids: seq<nat>, i: nat)
    requires 0 < i <= |ids| && ids[0] == id
    ensures StateAfter(Ids(s.reserved + {id}, s.issued + {id}), ids[1..][..i - 1]) == StateAfter(s, ids[..i])
  {
    var a, b := ids[1..][..i - 1], ids[..i];
    assert b == [id] + a;
    assert (set x | x in b) == {id} + (set x | x in a);
  }

  lemma {:induction false} AssignLength(objs: seq<Obj>, s: Ids, t: TypeId, hash: Name -> u32)
    requires Assign(objs, s, t, hash).Done?
    ensures |Assign(objs, s, t, hash).value| == |objs|
    decreases |objs|
  {
    if objs != [] {
      AssignLength(objs[1..], Request(s, objs[0].ids, t, hash(objs[0].name)).value.1, t, hash);
    }
  }

  /** In the middle of an assignment: `ids` have been given out, and the rest of `all` is to come. */
  ghost predicate Midway(todo: seq<Obj>, s: Ids, now: Ids, ids: seq<nat>, all: seq<nat>, t: TypeId, hash: Name -> u32) {
    now == StateAfter(s, ids) && Assign(todo, now, t, hash).Done? && all == ids + Assign(todo, now, t, hash).value
  }

  lemma Started(s: Ids, all: seq<nat>)
    ensures s == StateAfter(s, []) && all == [] + all
  {
  }

  lemma AssignNext(todo: seq<Obj>, s: Ids, now: Ids, ids: seq<nat>, all: seq<nat>, t: TypeId, hash: Name -> u32)
    requires todo != [] && Midway(todo, s, now, ids, all, t, hash)
    ensures Request(now, todo[0].ids, t, hash(todo[0].name)).Done?
    ensures var (id, s') := Request(now, todo[0].ids, t, hash(todo[0].name)).value;
      Midway(todo[1..], s, s', ids + [id], all, t, hash)
  {
    var h := hash(todo[0].name);
    RequestDeserved(now, todo[0], t, h);
    var (id, s') := Request(now, todo[0].ids, t, h).value;
    GivenOneMore(s, ids, id);
    Regroup(ids, [id], Assign(todo[1..], s', t, hash).value);
  }
}

/** reader_state_t of src/config_readers/bmv2_json_reader.c and the loops that update it. */
module IdReader {
  import opened Basics
  import opened BubbleSpec
  import opened IdSpec
  import opened IdMeaning

  class ReaderState {
    var reserved: set<nat>
    var issued: set<nat>

    constructor ()
      ensures Get() == Ids({}, {})
    {
      reserved, issued := {}, {};
    }

    function Get(): Ids
      reads this
    {
      Ids(reserved, issued)
    }

    /** Returns false where the source calls exit(1). */
    method PreReserveIds(t: TypeId, objs: seq<Obj>) returns (ok: bool)
      modifies this`reserved
      ensures PreReserve(objs, t, old(reserved), false) == if ok then Done(reserved) else Exit
    {
      var found := false;
      var n := 0;
      while n < |objs|
        invariant 0 <= n <= |objs|
        invariant PreReserve(objs, t, old(reserved), false) == PreReserve(objs[n..], t, reserved, found)
      {
        var ids := objs[n].ids;
        assert objs[n..][0] == objs[n] && objs[n..][1..] == objs[n + 1..];
        if ids != [] {
          var scan := ScanOne(t, ids);
          if scan == TooBig {
            return false;
          }
          found := found || scan.Free?;
          if !found {
            return false;
          }
        }
        n := n + 1;
      }
      assert objs[n..] == [];
      ok := true;
    }

    /** The inner loop: reserve the first id of the list that is free. */
    method ScanOne(t: TypeId, ids: seq<u32>) returns (scan: Scan)
      modifies this`reserved
      ensures scan == ScanIds(ids, t, old(reserved))
      ensures reserved == if scan.Free? then old(reserved) + {scan.id} else old(reserved)
    {
      var i := 0;
      while i < |ids|
        invariant 0 <= i <= |ids| && reserved == old(reserved)
        invariant ScanIds(ids, t, old(reserved)) == ScanIds(ids[i..], t, old(reserved))
      {
        assert ids[i..][0] == ids[i] && ids[i..][1..] == ids[i + 1..];
        if ids[i] > 0xffff {
          return TooBig;
        }
        var id := FullId(t, ids[i]);
        if id !in reserved {
          reserved := reserved + {id};
          return Free(id);
        }
        i := i + 1;
      }
      assert ids[i..] == [];
      scan := NoneFree;
    }

    /**
     Probes by incrementing a 32-bit hash, which may wrap around; stops within 65536 steps
     at the first free slot, cyclically from the slot of the hash.
     */
    method GenerateIdFromName(t: TypeId, h: u32) returns (id: nat)
      requires Generate(Get(), t, h).Done?
      modifies this
      ensures Generate(old(Get()), t, h) == Done((id, Get()))
    {
      var hash: u32 := h;
      ghost var d: nat := 0;
      while HashToId(t, hash) in reserved
        invariant Get() == old(Get()) && d <= SLOTS && hash == (h + d) % WRAP32
        invariant FirstFree(reserved, t, h, 0) == FirstFree(reserved, t, h, d)
        decreases SLOTS - d
      {
        WrapKeepsSlot(h, d);
        hash := (hash + 1) % WRAP32;
        d := d + 1;
      }
      WrapKeepsSlot(h, d);
      id := HashToId(t, hash);
      assert FirstFree(reserved, t, h, d) == Some(id);
      reserved := reserved + {id};
      issued := issued + {id};
    }

    /** The source asserts each listed id it looks at to be reserved. */
    method RequestId(t: TypeId, ids: seq<u32>, h: u32) returns (id: nat)
      requires Request(Get(), ids, t, h).Done?
      modifies this
      ensures Request(old(Get()), ids, t, h) == Done((id, Get()))
    {
      var i := 0;
      while i < |ids|
        invariant 0 <= i <= |ids| && Get() == old(Get())
        invariant Request(old(Get()), ids, t, h) == Request(old(Get()), ids[i..], t, h)
      {
        assert ids[i..][0] == ids[i] && ids[i..][1..] == ids[i + 1..];
        id := ListedId(t, ids[i]);
        if id !in issued {
          issued := issued + {id};
          return;
        }
        i := i + 1;
      }
      assert ids[i..] == [];
      id := GenerateIdFromName(t, h);
    }

    /** The second half of read_actions: one request per object, in the order given. */
    method AssignIds(t: TypeId, objs: seq<Obj>, hash: Name -> u32) returns (ids: seq<nat>)
      requires Assign(objs, Get(), t, hash).Done?
      modifies this
      ensures Assign(objs, old(Get()), t, hash) == Done(ids) && Get() == StateAfter(old(Get()), ids)
    {
      ids := [];
      var todo := objs;
      ghost var all := Assign(objs, Get(), t, hash).value;
      Started(Get(), all);
      while todo != []
        invariant Midway(todo, old(Get()), Get(), ids, all, t, hash)
      {
        AssignNext(todo, old(Get()), Get(), ids, all, t, hash);
        var id := RequestId(t, todo[0].ids, hash(todo[0].name));
        ids := ids + [id];
        todo := todo[1..];
      }
      assert ids + [] == ids;
    }
  }

  /** The low 16 bits do not notice the wrap-around of the 32-bit hash. */
  lemma WrapKeepsSlot(h: u32, d: nat)
    requires d <= SLOTS
    ensures (h + d) % WRAP32 % SLOTS == (h + d) % SLOTS
    ensures ((h + d) % WRAP32 + 1) % WRAP32 == (h + d + 1) % WRAP32
  {
    if h + d >= WRAP32 {
      assert (h + d) % WRAP32 == h + d - WRAP32;
      assert (h + d - WRAP32) % SLOTS == (h + d) % SLOTS;
    }
  }
}

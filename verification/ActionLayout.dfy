/**
 Action parameters and the layout of action data (src/p4info/actions.c). An action with up to
 eight parameters keeps their records inside itself, one with more on the heap.
 */
module ActionLayout {
  import opened Basics

  /** What pi_p4info_action_add_param is called with. */
  datatype Spec = Spec(id: u32, name: string, bitwidth: nat)

  /** _action_param_data_t; the name is null in a record not filled yet. */
  datatype Param = Param(name: Option<string>, id: u32, bitwidth: nat, byte0Mask: byte, offset: nat)

  const EMPTY := Param(None, 0, 0, 0, 0)
  const INLINE_PARAMS: nat := 8

  function Width(bitwidth: nat): nat {
    (bitwidth + 7) / 8
  }

  function Pow2(n: nat): (r: nat)
    ensures r >= 1
  {
    if n == 0 then 1 else 2 * Pow2(n - 1)
  }

  function Byte0Mask(bitwidth: nat): byte {
    if bitwidth % 8 == 0 then 0xff else
      SmallPow2(bitwidth % 8);
      Pow2(bitwidth % 8) - 1
  }

  lemma SmallPow2(n: nat)
    requires n < 8
    ensures Pow2(n) <= 128
  {
    assert Pow2(7) == 2 * Pow2(6) && Pow2(6) == 2 * Pow2(5) && Pow2(5) == 2 * Pow2(4) && Pow2(4) == 2 * Pow2(3)
        && Pow2(3) == 2 * Pow2(2) && Pow2(2) == 2 * Pow2(1) && Pow2(1) == 2;
  }

  // ----------------------------------------------------------------- layout

  /** Bytes of action data. */
  function Size(ps: seq<Spec>): nat {
    if ps == [] then 0 else Size(ps[..|ps| - 1]) + Width(ps[|ps| - 1].bitwidth)
  }

  function Record(p: Spec, offset: nat): Param {
    Param(Some(p.name), p.id, p.bitwidth, Byte0Mask(p.bitwidth), offset)
  }

  /** The records after ps have been added. */
  function Records(ps: seq<Spec>): (r: seq<Param>)
    ensures |r| == |ps|
  {
    if ps == [] then []
    else Records(ps[..|ps| - 1]) + [Record(ps[|ps| - 1], Size(ps[..|ps| - 1]))]
  }

  lemma SizeSnoc(ps: seq<Spec>, p: Spec)
    ensures Size(ps + [p]) == Size(ps) + Width(p.bitwidth)
    ensures Records(ps + [p]) == Records(ps) + [Record(p, Size(ps))]
  {
    assert (ps + [p])[..|ps|] == ps;
  }

  /** Offsets are prefix sums of the widths in bytes. */
  lemma {:induction false} OffsetsArePrefixSums(ps: seq<Spec>, i: nat)
    requires i < |ps|
    ensures Records(ps)[i] == Record(ps[i], Size(ps[..i]))
    decreases |ps|
  {
    if i < |ps| - 1 {
      var front := ps[..|ps| - 1];
      OffsetsArePrefixSums(front, i);
      assert front[..i] == ps[..i] && front[i] == ps[i];
    }
  }

  lemma SizeOfOneMore(ps: seq<Spec>, i: nat)
    requires i < |ps|
    ensures Size(ps[..i + 1]) == Size(ps[..i]) + Width(ps[i].bitwidth)
  {
    assert ps[..i + 1] == ps[..i] + [ps[i]];
    SizeSnoc(ps[..i], ps[i]);
  }

  lemma {:induction false} SizeGrows(ps: seq<Spec>, i: nat, j: nat)
    requires i <= j <= |ps|
    ensures Size(ps[..i]) <= Size(ps[..j])
    decreases j - i
  {
    if i < j {
      SizeOfOneMore(ps, j - 1);
      SizeGrows(ps, i, j - 1);
    }
  }

  /** Byte b belongs to parameter i. */
  predicate Holds(ps: seq<Spec>, i: nat, b: nat)
    requires i < |ps|
  {
    Records(ps)[i].offset <= b < Records(ps)[i].offset + Width(ps[i].bitwidth)
  }

  /** The parameter a byte of action data belongs to. */
  lemma {:induction false} ByteIsHeld(ps: seq<Spec>, n: nat, b: nat) returns (i: nat)
    requires 0 < n <= |ps| && b < Size(ps[..n])
    ensures i < n && Holds(ps, i, b)
    decreases n
  {
    SizeOfOneMore(ps, n - 1);
    OffsetsArePrefixSums(ps, n - 1);
    i := n - 1;
    if b < Size(ps[..n - 1]) {
      i := ByteIsHeld(ps, n - 1, b);
    }
  }

  lemma RangesAreOrdered(ps: seq<Spec>, i: nat, j: nat)
    requires i < j < |ps|
    ensures Records(ps)[i].offset + Width(ps[i].bitwidth) <= Records(ps)[j].offset
  {
    OffsetsArePrefixSums(ps, i);
    OffsetsArePrefixSums(ps, j);
    SizeOfOneMore(ps, i);
    SizeGrows(ps, i + 1, j);
  }

  lemma RangesAreInside(ps: seq<Spec>, i: nat)
    requires i < |ps|
    ensures Records(ps)[i].offset + Width(ps[i].bitwidth) <= Size(ps)
  {
    OffsetsArePrefixSums(ps, i);
    SizeOfOneMore(ps, i);
    SizeGrows(ps, i + 1, |ps|);
    assert ps[..|ps|] == ps;
  }

  /** The parameters' byte ranges tile the action data: inside it, each byte in exactly one. */
  lemma RangesTile(ps: seq<Spec>, b: nat)
    ensures b < Size(ps) <==> exists i: nat :: i < |ps| && Holds(ps, i, b)
    ensures forall i: nat, j: nat :: i < |ps| && j < |ps| && Holds(ps, i, b) && Holds(ps, j, b) ==> i == j
  {
    if b < Size(ps) {
      assert ps[..|ps|] == ps;
      var i := ByteIsHeld(ps, |ps|, b);
    }
    forall i: nat | i < |ps| && Holds(ps, i, b) ensures b < Size(ps) {
      RangesAreInside(ps, i);
    }
    forall i: nat, j: nat | i < |ps| && j < |ps| && Holds(ps, i, b) && Holds(ps, j, b) ensures i == j {
      if i < j {
        RangesAreOrdered(ps, i, j);
      } else if j < i {
        RangesAreOrdered(ps, j, i);
      }
    }
  }

  // ---------------------------------------------------------------- lookups

  function ById(slots: seq<Param>, id: u32): Option<Param> {
    if slots == [] then None else if slots[0].id == id then Some(slots[0]) else ById(slots[1..], id)
  }

  /** The position of the first occurrence, or none. */
  function IndexIn(ids: seq<u32>, id: u32): Option<nat> {
    if ids == [] then None
    else if ids[0] == id then Some(0)
    else match IndexIn(ids[1..], id) case None => None case Some(i) => Some(i + 1)
  }

  function ByName(slots: seq<Param>, ids: seq<u32>, name: string): Option<u32>
    requires |slots| == |ids|
  {
    if slots == [] then None else if slots[0].name == Some(name) then Some(ids[0]) else ByName(slots[1..], ids[1..], name)
  }

  function IdsOf(ps: seq<Spec>): (r: seq<u32>)
    ensures |r| == |ps|
  {
    if ps == [] then [] else IdsOf(ps[..|ps| - 1]) + [ps[|ps| - 1].id]
  }

  lemma {:induction false} IdsOfAt(ps: seq<Spec>, i: nat)
    requires i < |ps|
    ensures IdsOf(ps)[i] == ps[i].id
    decreases |ps|
  {
    if i < |ps| - 1 { IdsOfAt(ps[..|ps| - 1], i); }
  }

  /** What the slots of an action for n parameters look like after ps have been added. */
  function Slots(ps: seq<Spec>, n: nat): seq<Param>
    requires |ps| <= n
  {
    Records(ps) + seq(n - |ps|, i => EMPTY)
  }

  lemma {:induction false} FirstById(slots: seq<Param>, id: u32, i: nat)
    requires i < |slots| && slots[i].id == id && forall j :: 0 <= j < i ==> slots[j].id != id
    ensures ById(slots, id) == Some(slots[i])
    decreases i
  {
    if i > 0 { FirstById(slots[1..], id, i - 1); }
  }

  lemma {:induction false} NoneById(slots: seq<Param>, id: u32)
    requires forall j :: 0 <= j < |slots| ==> slots[j].id != id
    ensures ById(slots, id).None?
  {
    if slots != [] { NoneById(slots[1..], id); }
  }

  /** The i-th parameter is the first with its id. */
  ghost predicate FirstWithId(ps: seq<Spec>, i: nat) {
    i < |ps| && forall j :: 0 <= j < i ==> ps[j].id != ps[i].id
  }

  /** A parameter's id finds the record of the first that has it, however many slots there are. */
  lemma LookupFinds(ps: seq<Spec>, n: nat, i: nat)
    requires |ps| <= n && FirstWithId(ps, i)
    ensures ById(Slots(ps, n), ps[i].id) == Some(Record(ps[i], Size(ps[..i])))
  {
    forall j: nat | j < |ps| ensures Slots(ps, n)[j] == Record(ps[j], Size(ps[..j])) {
      OffsetsArePrefixSums(ps, j);
    }
    FirstById(Slots(ps, n), ps[i].id, i);
  }

  /** What the record says: the parameter as it was added, and where its bytes start. */
  ghost predicate Describes(r: Param, p: Spec, offset: nat) {
    && r.name == Some(p.name) && r.id == p.id && r.bitwidth == p.bitwidth && r.offset == offset
    && r.byte0Mask == if p.bitwidth % 8 == 0 then 255 else Pow2(p.bitwidth % 8) - 1
  }

  /** The k-th parameter is the first with the name. */
  ghost predicate FirstNamed(ps: seq<Spec>, name: string, k: nat) {
    k < |ps| && ps[k].name == name && forall j :: 0 <= j < k ==> ps[j].name != name
  }

  lemma {:induction false} ByNameFrom(slots: seq<Param>, ids: seq<u32>, name: string)
    requires |slots| == |ids|
    ensures ByName(slots, ids, name).None? <==> forall i :: 0 <= i < |slots| ==> slots[i].name != Some(name)
    ensures forall k: nat :: k < |slots| && slots[k].name == Some(name) && (forall j :: 0 <= j < k ==> slots[j].name != Some(name)) ==>
      ByName(slots, ids, name) == Some(ids[k])
    decreases |slots|
  {
    if slots != [] {
      ByNameFrom(slots[1..], ids[1..], name);
      forall k: nat | k < |slots| && slots[k].name == Some(name) && (forall j :: 0 <= j < k ==> slots[j].name != Some(name))
        ensures ByName(slots, ids, name) == Some(ids[k])
      {
        if k > 0 {
          assert slots[0].name != Some(name);
          assert slots[1..][k - 1] == slots[k] && ids[1..][k - 1] == ids[k];
          assert forall j :: 0 <= j < k - 1 ==> slots[1..][j] == slots[j + 1];
        }
      }
      if ByName(slots, ids, name).None? {
        forall i | 0 <= i < |slots| ensures slots[i].name != Some(name) {
          if i > 0 { assert slots[1..][i - 1].name != Some(name); }
        }
      }
    }
  }

  /** A name finds the id of the first parameter that has it, and nothing if none has. */
  lemma NameFindsFirst(ps: seq<Spec>, name: string)
    ensures ByName(Records(ps), IdsOf(ps), name).None? <==> forall i :: 0 <= i < |ps| ==> ps[i].name != name
    ensures forall k: nat :: FirstNamed(ps, name, k) ==> ByName(Records(ps), IdsOf(ps), name) == Some(ps[k].id)
  {
    var slots, ids := Records(ps), IdsOf(ps);
    forall i: nat | i < |ps| ensures slots[i].name == Some(ps[i].name) && ids[i] == ps[i].id {
      OffsetsArePrefixSums(ps, i);
      IdsOfAt(ps, i);
    }
    ByNameFrom(slots, ids, name);
  }

  /** An id that was not added finds nothing, unless it is the 0 of a slot still empty. */
  lemma LookupMissesIff(ps: seq<Spec>, n: nat, id: u32)
    requires |ps| <= n && forall i :: 0 <= i < |ps| ==> ps[i].id != id
    ensures ById(Slots(ps, n), id).None? <==> (|ps| == n || id != 0)
  {
    forall j: nat | j < |ps| ensures Slots(ps, n)[j].id != id {
      OffsetsArePrefixSums(ps, j);
    }
    if |ps| == n || id != 0 {
      NoneById(Slots(ps, n), id);
    } else {
      FirstById(Slots(ps, n), id, |ps|);
    }
  }

  // ------------------------------------------------------------------ action

  class Action {
    const numParams: nat
    const directIds: array<u32>
    const indirectIds: array<u32>
    const directData: array<Param>
    const indirectData: array<Param>
    var actionDataSize: nat
    var paramsAdded: nat

    /** get_param_ids and get_param_data: which of the two arrays is in use. */
    function Ids(): array<u32> {
      if numParams <= INLINE_PARAMS then directIds else indirectIds
    }

    function Data(): array<Param> {
      if numParams <= INLINE_PARAMS then directData else indirectData
    }

    /** The action after ps have been added to it. */
    ghost predicate Holding(ps: seq<Spec>)
      reads this, Ids(), Data()
    {
      && |ps| == paramsAdded <= numParams && actionDataSize == Size(ps)
      && numParams <= Ids().Length && numParams <= Data().Length
      && Data()[..numParams] == Slots(ps, numParams)
      && Ids()[..paramsAdded] == IdsOf(ps) && (forall i :: paramsAdded <= i < numParams ==> Ids()[i] == 0)
    }

    /** pi_p4info_action_add. */
    constructor (numParams: nat)
      ensures Holding([]) && this.numParams == numParams && fresh(Ids()) && fresh(Data())
    {
      this.numParams := numParams;
      directIds := new u32[INLINE_PARAMS](_ => 0);
      directData := new Param[INLINE_PARAMS](_ => EMPTY);
      indirectIds := new u32[if numParams > INLINE_PARAMS then numParams else 0](_ => 0);
      indirectData := new Param[if numParams > INLINE_PARAMS then numParams else 0](_ => EMPTY);
      actionDataSize, paramsAdded := 0, 0;
    }

    /** pi_p4info_action_add_param. */
    method AddParam(id: u32, name: string, bitwidth: nat, ghost ps: seq<Spec>)
      requires Holding(ps) && paramsAdded < numParams
      modifies this, Ids(), Data()
      ensures Holding(ps + [Spec(id, name, bitwidth)])
      ensures Describes(Data()[old(paramsAdded)], Spec(id, name, bitwidth), old(actionDataSize))
    {
      ghost var p := Spec(id, name, bitwidth);
      SizeSnoc(ps, p);
      AddedIds(ps, p);
      var data, ids := Data(), Ids();
      data[paramsAdded] := Param(Some(name), id, bitwidth, Byte0Mask(bitwidth), actionDataSize);
      ids[paramsAdded] := id;
      actionDataSize := actionDataSize + (bitwidth + 7) / 8;
      paramsAdded := paramsAdded + 1;
      assert Data()[..numParams] == Slots(ps, numParams)[|ps| := Record(p, Size(ps))];
      AddedSlot(ps, p, numParams);
    }

    /** get_param_data_at. */
    method ParamDataAt(id: u32, ghost ps: seq<Spec>) returns (r: Option<Param>)
      requires Holding(ps)
      ensures r == ById(Slots(ps, numParams), id)
    {
      ghost var slots := Slots(ps, numParams);
      for i := 0 to numParams
        invariant ById(slots[i..], id) == ById(slots, id)
      {
        assert Data()[i] == Data()[..numParams][i];
        if Data()[i].id == id {
          return Some(Data()[i]);
        }
      }
      return None;
    }

    /** pi_p4info_action_param_index; None is (size_t)-1. */
    method ParamIndex(id: u32, ghost ps: seq<Spec>) returns (r: Option<nat>)
      requires Holding(ps)
      ensures r == IndexIn(Ids()[..numParams], id)
    {
      ghost var ids := Ids()[..numParams];
      for i := 0 to numParams
        invariant IndexIn(ids, id) == match IndexIn(ids[i..], id) case None => None case Some(k) => Some(k + i)
      {
        if Ids()[i] == id {
          return Some(i);
        }
      }
      return None;
    }

    /** get_param_id: only to be asked once every parameter has its name. */
    method ParamIdByName(name: string, ghost ps: seq<Spec>) returns (r: Option<u32>)
      requires Holding(ps) && |ps| == numParams
      ensures r == ByName(Records(ps), IdsOf(ps), name)
    {
      ghost var slots, ids := Records(ps), IdsOf(ps);
      assert Data()[..numParams] == slots && Ids()[..numParams] == ids;
      for i := 0 to numParams
        invariant ByName(slots[i..], ids[i..], name) == ByName(slots, ids, name)
      {
        assert Data()[i] == slots[i] && Ids()[i] == ids[i];
        if Data()[i].name == Some(name) {
          return Some(Ids()[i]);
        }
      }
      return None;
    }
  }

  lemma AddedSlot(ps: seq<Spec>, p: Spec, n: nat)
    requires |ps| < n
    ensures Slots(ps, n)[|ps| := Record(p, Size(ps))] == Slots(ps + [p], n)
  {
    SizeSnoc(ps, p);
    FillFirst(Records(ps), n - |ps|, Record(p, Size(ps)));
  }

  lemma FillFirst(done: seq<Param>, n: nat, r: Param)
    requires n > 0
    ensures (done + seq(n, i => EMPTY))[|done| := r] == (done + [r]) + seq(n - 1, i => EMPTY)
  {
  }

  lemma AddedIds(ps: seq<Spec>, p: Spec)
    ensures IdsOf(ps + [p]) == IdsOf(ps) + [p.id]
  {
    assert (ps + [p])[..|ps|] == ps;
  }

  /** Any list of parameters added to a new action, with room for exactly them. */
  method Build(ps: seq<Spec>) returns (a: Action)
    ensures a.Holding(ps) && a.numParams == |ps|
  {
    a := new Action(|ps|);
    assert ps[..0] == [];
    for k := 0 to |ps|
      invariant a.Holding(ps[..k]) && a.numParams == |ps| && fresh(a) && fresh(a.Ids()) && fresh(a.Data())
    {
      assert ps[..k + 1] == ps[..k] + [Spec(ps[k].id, ps[k].name, ps[k].bitwidth)];
      a.AddParam(ps[k].id, ps[k].name, ps[k].bitwidth, ps[..k]);
    }
    assert ps[..|ps|] == ps;
  }

  /**
   Afterwards an id finds the record of the first parameter that has it, whether the records are
   inline or on the heap.
   */
  method BuildAndFind(ps: seq<Spec>, i: nat) returns (a: Action, r: Option<Param>)
    requires FirstWithId(ps, i)
    ensures a.Holding(ps) && a.numParams == |ps| && r.Some? && Describes(r.value, ps[i], Size(ps[..i]))
  {
    a := Build(ps);
    LookupFinds(ps, |ps|, i);
    r := a.ParamDataAt(ps[i].id, ps);
  }

  /** Lookup by index and by id agree on which parameter is meant. */
  lemma {:induction false} IndexIsFirst(ids: seq<u32>, id: u32)
    ensures match IndexIn(ids, id)
      case None => id !in ids
      case Some(i) => i < |ids| && ids[i] == id && id !in ids[..i]
  {
    if ids != [] && ids[0] != id {
      IndexIsFirst(ids[1..], id);
      match IndexIn(ids[1..], id) {
        case None =>
        case Some(k) => assert ids[..k + 1] == [ids[0]] + ids[1..][..k];
      }
    }
  }
}

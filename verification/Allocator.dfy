/** The register table of the code generator: 14 slots, each a register code and the value it holds. */
module Allocator {
  import opened Words

  datatype Slot = Slot(code: nat, holder: Option<nat>)

  type Table = seq<Slot>

  const SLOTS := 14

  /** RCX, RDX, RBX, RSI, RDI (numbered 7 and 6 here), R8 to R15, and a last slot left zero. */
  function SlotCode(k: nat): nat
    requires k < SLOTS
  {
    if k < 3 then k + 1 else if k == 3 then 7 else if k == 4 then 6 else if k < 13 then k + 3 else 0
  }

  function InitTable(): (t: Table)
    ensures |t| == SLOTS
  {
    seq(SLOTS, k requires 0 <= k < SLOTS => Slot(SlotCode(k), None))
  }

  /** The first slot from k on with this holder; |t| if there is none. */
  function FirstFrom(t: Table, holder: Option<nat>, k: nat): (r: nat)
    requires k <= |t|
    ensures k <= r <= |t|
    ensures r < |t| ==> t[r].holder == holder
    ensures forall j :: k <= j < r ==> t[j].holder != holder
    decreases |t| - k
  {
    if k == |t| || t[k].holder == holder then k else FirstFrom(t, holder, k + 1)
  }

  function First(t: Table, holder: Option<nat>): (r: nat)
    ensures r <= |t|
    ensures r < |t| ==> t[r].holder == holder
    ensures forall j :: 0 <= j < r ==> t[j].holder != holder
  {
    FirstFrom(t, holder, 0)
  }

  predicate Held(t: Table, id: nat) {
    First(t, Some(id)) < |t|
  }

  /** The register of a value; 0 if it has none. */
  function Lookup(t: Table, id: nat): nat {
    var k := First(t, Some(id));
    if k < |t| then t[k].code else 0
  }

  /** Gives the value at `from` to a new holder, if there is such a slot. */
  function Replace(t: Table, from: Option<nat>, to: Option<nat>): (u: Table)
    ensures |u| == |t|
  {
    var k := First(t, from);
    if k < |t| then t[k := t[k].(holder := to)] else t
  }

  function Allocate(t: Table, id: nat): Table {
    Replace(t, None, Some(id))
  }

  /** The register that Allocate hands out: 0 also when every slot is taken. */
  function AllocatedCode(t: Table): nat {
    var k := First(t, None);
    if k < |t| then t[k].code else 0
  }

  /** The slot of a register code gets a value, whatever it held before. */
  function Assign(t: Table, code: nat, id: nat): (u: Table)
    ensures |u| == |t|
  {
    AssignFrom(t, code, id, 0)
  }

  function AssignFrom(t: Table, code: nat, id: nat, k: nat): (u: Table)
    requires k <= |t|
    ensures |u| == |t|
    decreases |t| - k
  {
    if k == |t| then t
    else if t[k].code == code then t[k := Slot(code, Some(id))]
    else AssignFrom(t, code, id, k + 1)
  }

  /**
    RCX, RDX, R8, R9 by position. Later arguments get code 0, which is the last slot's: the fifth
    argument goes there and each later one displaces it.
  */
  function ArgCode(k: nat): nat {
    if k == 0 then 1 else if k == 1 then 2 else if k == 2 then 8 else if k == 3 then 9 else 0
  }

  function AssignArgs(t: Table, n: nat): (u: Table)
    ensures |u| == |t|
  {
    if n == 0 then t else Assign(AssignArgs(t, n - 1), ArgCode(n - 1), n - 1)
  }

  // ----- what the table keeps -----

  /** Fixed codes, and no value in two slots. */
  ghost predicate Consistent(t: Table) {
    && |t| == SLOTS
    && (forall k :: 0 <= k < SLOTS ==> t[k].code == SlotCode(k))
    && (forall j, k :: 0 <= j < k < SLOTS && t[j].holder.Some? ==> t[j].holder != t[k].holder)
  }

  function Occupied(t: Table): nat {
    if |t| == 0 then 0 else Occupied(t[..|t| - 1]) + if t[|t| - 1].holder.Some? then 1 else 0
  }

  lemma CodesDistinct(j: nat, k: nat)
    requires j < SLOTS && k < SLOTS && SlotCode(j) == SlotCode(k)
    ensures j == k
  {
  }

  lemma HeldAt(t: Table, id: nat, k: nat)
    requires Consistent(t) && k < SLOTS && t[k].holder == Some(id)
    ensures Held(t, id) && Lookup(t, id) == SlotCode(k)
  {
    var f := First(t, Some(id));
    assert t[f].holder == t[k].holder;
  }

  /** Values in the table never share a register. */
  lemma DistinctRegisters(t: Table, a: nat, b: nat)
    requires Consistent(t) && Held(t, a) && Held(t, b) && Lookup(t, a) == Lookup(t, b)
    ensures a == b
  {
    CodesDistinct(First(t, Some(a)), First(t, Some(b)));
  }

  lemma {:induction false} OccupiedUpdate(t: Table, k: nat, s: Slot)
    requires k < |t|
    ensures Occupied(t[k := s]) == Occupied(t) - (if t[k].holder.Some? then 1 else 0) + (if s.holder.Some? then 1 else 0)
  {
    var n := |t| - 1;
    if k < n {
      OccupiedUpdate(t[..n], k, s);
      assert t[k := s][..n] == t[..n][k := s];
    } else {
      assert t[k := s][..n] == t[..n];
    }
  }

  /**
    Replacing the holder of one slot by a value the table does not hold keeps the table consistent,
    moves exactly that register and leaves every other value where it is.
  */
  lemma ReplaceKeeps(t: Table, from: Option<nat>, id: nat)
    requires Consistent(t) && First(t, from) < |t| && !Held(t, id)
    ensures var u := Replace(t, from, Some(id));
            && Consistent(u)
            && Held(u, id) && Lookup(u, id) == t[First(t, from)].code
            && (forall v: nat :: v != id && Some(v) != from ==>
                  (Held(u, v) <==> Held(t, v)) && Lookup(u, v) == Lookup(t, v))
            && (from.Some? ==> !Held(u, from.value))
            && Occupied(u) == Occupied(t) + (if from.None? then 1 else 0)
  {
    var k := First(t, from);
    var u := Replace(t, from, Some(id));
    OccupiedUpdate(t, k, t[k].(holder := Some(id)));
    assert Consistent(u);
    HeldAt(u, id, k);
    forall v: nat | v != id && Some(v) != from
      ensures (Held(u, v) <==> Held(t, v)) && Lookup(u, v) == Lookup(t, v)
    {
      OtherUnmoved(t, u, k, v);
    }
  }

  lemma OtherUnmoved(t: Table, u: Table, k: nat, v: nat)
    requires Consistent(t) && Consistent(u) && k < SLOTS && u == t[k := u[k]]
    requires t[k].holder != Some(v) && u[k].holder != Some(v)
    ensures (Held(u, v) <==> Held(t, v)) && Lookup(u, v) == Lookup(t, v)
  {
    if Held(t, v) {
      HeldAt(u, v, First(t, Some(v)));
    }
    if Held(u, v) {
      HeldAt(t, v, First(u, Some(v)));
    }
  }

  /** The stack pointer and the base pointer have no slot. */
  lemma NeverStackRegisters(t: Table, id: nat)
    requires Consistent(t)
    ensures Lookup(t, id) != 4 && Lookup(t, id) != 5 && AllocatedCode(t) != 4 && AllocatedCode(t) != 5
    ensures Lookup(t, id) < 16 && AllocatedCode(t) < 16
  {
  }

  /** While a slot among the first 13 is free, allocation does not fall back to RAX. */
  lemma {:induction false} FreeSlotExists(t: Table, n: nat)
    requires n <= |t| && Occupied(t[..n]) < n
    ensures First(t, None) < n
  {
    if First(t, None) >= n {
      AllOccupied(t, n);
    }
  }

  lemma {:induction false} AllOccupied(t: Table, n: nat)
    requires n <= |t| && First(t, None) >= n
    ensures Occupied(t[..n]) == n
  {
    if n > 0 {
      AllOccupied(t, n - 1);
      assert t[..n][..n - 1] == t[..n - 1];
    }
  }

  // ----- the table in place -----

  class RegisterAllocator {
    const registers: array<Slot>

    ghost predicate Valid()
      reads registers
    {
      Consistent(registers[..])
    }

    constructor ()
      ensures registers[..] == InitTable() && fresh(registers)
      ensures registers.Length == 14 && forall k :: 0 <= k < 14 ==>
                registers[k] == Slot([1, 2, 3, 7, 6, 8, 9, 10, 11, 12, 13, 14, 15, 0][k], None)
    {
      registers := new Slot[SLOTS](k requires 0 <= k < SLOTS => Slot(SlotCode(k), None));
    }

    method IndexOf(holder: Option<nat>) returns (k: nat)
      ensures k == First(registers[..], holder)
    {
      k := 0;
      while k < registers.Length && registers[k].holder != holder
        invariant k <= registers.Length
        invariant First(registers[..], holder) == FirstFrom(registers[..], holder, k)
      {
        k := k + 1;
      }
    }

    method AllocateRegister(id: nat) returns (code: nat)
      modifies registers
      ensures registers[..] == Allocate(old(registers[..]), id)
      ensures code == AllocatedCode(old(registers[..]))
    {
      var k := IndexOf(None);
      if k < registers.Length {
        registers[k] := registers[k].(holder := Some(id));
        return registers[k].code;
      }
      return 0;
    }

    method AssignRegister(code: nat, id: nat) returns (found: bool)
      modifies registers
      ensures registers[..] == Assign(old(registers[..]), code, id)
      ensures found <==> exists k :: 0 <= k < registers.Length && old(registers[k].code) == code
    {
      var k := 0;
      while k < registers.Length
        invariant k <= registers.Length && registers[..] == old(registers[..])
        invariant Assign(registers[..], code, id) == AssignFrom(registers[..], code, id, k)
        invariant forall j :: 0 <= j < k ==> registers[j].code != code
      {
        if registers[k].code == code {
          registers[k] := Slot(code, Some(id));
          return true;
        }
        k := k + 1;
      }
      return false;
    }

    method SwitchValue(before: nat, after: nat) returns (found: bool)
      modifies registers
      ensures registers[..] == Replace(old(registers[..]), Some(before), Some(after))
      ensures found <==> Held(old(registers[..]), before)
    {
      var k := IndexOf(Some(before));
      if k < registers.Length {
        registers[k] := registers[k].(holder := Some(after));
      }
      found := k < registers.Length;
    }

    method RegisterOf(id: nat) returns (code: nat)
      ensures code == Lookup(registers[..], id)
    {
      var k := IndexOf(Some(id));
      code := if k < registers.Length then registers[k].code else 0;
    }

    method AssignArguments(n: nat)
      modifies registers
      ensures registers[..] == AssignArgs(old(registers[..]), n)
    {
      for k := 0 to n
        invariant registers[..] == AssignArgs(old(registers[..]), k)
      {
        var _ := AssignRegister(ArgCode(k), k);
      }
    }
  }
}

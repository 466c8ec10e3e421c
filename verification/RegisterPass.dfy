/** What the register table satisfies at every point of the generator's single pass over a function. */
module RegisterPass {
  import opened Words
  import opened Ir
  import opened X86
  import opened Allocator
  import opened Emission

  function Len(f: Source): nat {
    |Flat(f.blocks)|
  }

  function InsAt(f: Source, p: nat): Instr
    requires p < Len(f)
  {
    Flat(f.blocks)[p]
  }

  function TableBefore(f: Source, p: nat): Table
    requires p <= Len(f)
  {
    Emit(f, p).table
  }

  predicate Generates(f: Source, p: nat, v: nat) {
    p < Len(f) && InsAt(f, p).HasGen() && InsAt(f, p).gen.id == v
  }

  /** ADD takes over the register of its left operand. */
  predicate Consumes(f: Source, p: nat, v: nat) {
    p < Len(f) && InsAt(f, p).Op? && InsAt(f, p).op == Add && InsAt(f, p).left.id == v
  }

  /** v is an argument or generated before position p. */
  ghost predicate Known(f: Source, v: nat, p: nat) {
    v < f.args || exists d :: 0 <= d < p && Generates(f, d, v)
  }

  ghost predicate SingleAssignment(f: Source) {
    && (forall p, q, v: nat :: 0 <= p && 0 <= q && Generates(f, p, v) && Generates(f, q, v) ==> p == q)
    && (forall p, v: nat :: 0 <= p && Generates(f, p, v) ==> v >= f.args)
  }

  predicate Allocates(i: Instr, voidCall: bool) {
    (i.Const? && !i.kind.ConstI16? && !i.kind.ConstI8?) || i.Load? || (i.CallFunc? && !voidCall)
  }

  function Allocations(f: Source, p: nat): nat
    requires p <= Len(f)
  {
    if p == 0 then 0
    else Allocations(f, p - 1) + if Allocates(InsAt(f, p - 1), f.voidCall(p - 1)) then 1 else 0
  }

  // ----- the table at entry -----

  lemma AssignAt(t: Table, k: nat, id: nat)
    requires |t| == SLOTS && k < SLOTS && (forall j :: 0 <= j < SLOTS ==> t[j].code == SlotCode(j))
    ensures Assign(t, SlotCode(k), id) == t[k := Slot(SlotCode(k), Some(id))]
  {
    AssignReaches(t, k, id, 0);
  }

  lemma {:induction false} AssignReaches(t: Table, k: nat, id: nat, j: nat)
    requires |t| == SLOTS && j <= k < SLOTS && (forall i :: 0 <= i < SLOTS ==> t[i].code == SlotCode(i))
    ensures AssignFrom(t, SlotCode(k), id, j) == t[k := Slot(SlotCode(k), Some(id))]
    decreases k - j
  {
    if j < k {
      if SlotCode(j) == SlotCode(k) {
        CodesDistinct(j, k);
      }
      AssignReaches(t, k, id, j + 1);
    }
  }

  /** The slot an argument position is assigned to. */
  function ArgSlot(k: nat): nat {
    if k == 0 then 0 else if k == 1 then 1 else if k == 2 then 5 else if k == 3 then 6 else 13
  }

  ghost predicate EmptyFrom(t: Table, cap: nat) {
    forall k :: cap <= k < |t| ==> t[k].holder.None?
  }

  lemma {:induction false} InitOccupied(t: Table)
    requires forall k :: 0 <= k < |t| ==> t[k].holder.None?
    ensures Occupied(t) == 0
  {
    if |t| > 0 {
      InitOccupied(t[..|t| - 1]);
    }
  }

  predicate ArgsPlaced(t: Table, n: nat) {
    && |t| == SLOTS
    && (forall k :: 0 <= k < SLOTS && t[k].holder.Some? ==> t[k].holder.value < n && k == ArgSlot(t[k].holder.value))
    && (forall a: nat :: a < n && a < 4 ==> t[ArgSlot(a)].holder == Some(a))
  }

  /** Up to four arguments sit in RCX, RDX, R8 and R9, one slot each. */
  lemma {:induction false} ArgsTable(n: nat)
    requires n <= 4
    ensures var t := AssignArgs(InitTable(), n); Consistent(t) && ArgsPlaced(t, n) && Occupied(t) == n
  {
    if n == 0 {
      InitOccupied(InitTable());
    } else {
      ArgsTable(n - 1);
      ArgPlaced(AssignArgs(InitTable(), n - 1), n - 1);
    }
  }

  lemma ArgPlaced(t: Table, n: nat)
    requires n < 4 && Consistent(t) && ArgsPlaced(t, n)
    ensures var u := Assign(t, ArgCode(n), n);
            Consistent(u) && ArgsPlaced(u, n + 1) && Occupied(u) == Occupied(t) + 1
  {
    var k := ArgSlot(n);
    AssignAt(t, k, n);
    OccupiedUpdate(t, k, Slot(SlotCode(k), Some(n)));
    assert t[k].holder.None?;
  }

  /** The first four arguments are in RCX, RDX, R8 and R9. */
  lemma ArgInRegister(n: nat, a: nat)
    requires n <= 4 && a < n
    ensures var t := AssignArgs(InitTable(), n); Held(t, a) && Lookup(t, a) == [1, 2, 8, 9][a] == ArgCode(a)
  {
    ArgsTable(n);
    HeldAt(AssignArgs(InitTable(), n), a, ArgSlot(a));
  }

  // ----- one position -----

  /** The holder that the instruction's result replaces. */
  function Replaced(i: Instr): Option<nat>
    requires i.HasGen()
  {
    if i.Op? then Some(i.left.id) else None
  }

  predicate GivesRegister(i: Instr, voidCall: bool) {
    Allocates(i, voidCall) || (i.Op? && i.op == Add)
  }

  lemma TableStep(t: Table, i: Instr, voidCall: bool)
    ensures EmitInstr(t, i, voidCall).table ==
            if GivesRegister(i, voidCall) then Replace(t, Replaced(i), Some(i.gen.id)) else t
  {
  }

  lemma NextTable(f: Source, p: nat)
    requires p < Len(f)
    ensures var i := InsAt(f, p);
            TableBefore(f, p + 1) ==
            if GivesRegister(i, f.voidCall(p)) then Replace(TableBefore(f, p), Replaced(i), Some(i.gen.id)) else TableBefore(f, p)
  {
    TableStep(TableBefore(f, p), InsAt(f, p), f.voidCall(p));
  }

  /** The table holds known values only. */
  ghost predicate HoldersKnown(f: Source, t: Table, p: nat) {
    forall v: nat :: Held(t, v) ==> Known(f, v, p)
  }

  /** The state of the table before position p, with all values in the first cap slots. */
  ghost predicate Orderly(f: Source, p: nat, cap: nat)
    requires p <= Len(f)
  {
    var t := TableBefore(f, p);
    && Consistent(t) && EmptyFrom(t, cap) && HoldersKnown(f, t, p)
    && Occupied(t) == f.args + Allocations(f, p)
  }

  /** The arguments and what is allocated before position p fit in the first cap slots. */
  ghost predicate FitsUpTo(f: Source, p: nat, cap: nat)
    requires p <= Len(f)
  {
    && Integral(f) && SingleAssignment(f) && f.args <= 4 && cap <= SLOTS
    && (forall a: nat :: a < f.args ==> ArgSlot(a) < cap)
    && f.args + Allocations(f, p) <= cap
  }

  ghost predicate FitsIn(f: Source, cap: nat) {
    FitsUpTo(f, Len(f), cap)
  }

  lemma {:induction false} AllocationsGrow(f: Source, p: nat, q: nat)
    requires p <= q <= Len(f)
    ensures Allocations(f, p) <= Allocations(f, q)
    decreases q - p
  {
    if p < q {
      AllocationsGrow(f, p, q - 1);
    }
  }

  lemma {:induction false} OccupiedPrefix(t: Table, cap: nat)
    requires cap <= |t| && EmptyFrom(t, cap)
    ensures Occupied(t[..cap]) == Occupied(t)
    decreases |t|
  {
    if cap < |t| {
      var u := t[..|t| - 1];
      OccupiedPrefix(u, cap);
      assert u[..cap] == t[..cap];
    } else {
      assert t[..cap] == t;
    }
  }

  /** The result of a position is in no register yet. */
  lemma ResultIsNew(f: Source, p: nat, cap: nat)
    requires SingleAssignment(f) && p < Len(f) && Orderly(f, p, cap) && InsAt(f, p).HasGen()
    ensures !Held(TableBefore(f, p), InsAt(f, p).gen.id)
  {
    var v := InsAt(f, p).gen.id;
    assert Generates(f, p, v);
    assert Held(TableBefore(f, p), v) ==> Known(f, v, p);
  }

  /** An allocating position finds a free slot among the first cap. */
  lemma RoomToAllocate(f: Source, p: nat, cap: nat)
    requires p < Len(f) && FitsUpTo(f, p + 1, cap) && Orderly(f, p, cap) && Allocates(InsAt(f, p), f.voidCall(p))
    ensures First(TableBefore(f, p), None) < cap
  {
    OccupiedPrefix(TableBefore(f, p), cap);
    FreeSlotExists(TableBefore(f, p), cap);
  }

  lemma OrderlyReplace(f: Source, p: nat, cap: nat)
    requires p < Len(f) && FitsUpTo(f, p + 1, cap) && Orderly(f, p, cap) && GivesRegister(InsAt(f, p), f.voidCall(p))
    ensures Orderly(f, p + 1, cap)
  {
    hide First, Lookup;
    var t, i := TableBefore(f, p), InsAt(f, p);
    var v := i.gen.id;
    NextTable(f, p);
    ResultIsNew(f, p, cap);
    if Allocates(i, f.voidCall(p)) {
      RoomToAllocate(f, p, cap);
    }
    assert Generates(f, p, v);
    KnownLater(f, p);
    if First(t, Replaced(i)) < |t| {
      ReplaceKeeps(t, Replaced(i), v);
      HoldersReplaced(f, t, p, Replaced(i), v);
    }
  }

  lemma KnownLater(f: Source, p: nat)
    ensures forall v: nat :: Known(f, v, p) ==> Known(f, v, p + 1)
  {
  }

  lemma HoldersReplaced(f: Source, t: Table, p: nat, from: Option<nat>, v: nat)
    requires Consistent(t) && First(t, from) < |t| && !Held(t, v) && HoldersKnown(f, t, p) && Generates(f, p, v)
    ensures HoldersKnown(f, Replace(t, from, Some(v)), p + 1)
  {
    var u := Replace(t, from, Some(v));
    ReplaceKeeps(t, from, v);
    forall w: nat | Held(u, w)
      ensures Known(f, w, p + 1)
    {
      if w != v {
        assert Held(t, w);
        assert Known(f, w, p);
        KnownLater(f, p);
      }
    }
  }

  /**
    As long as the arguments and the allocations so far fit in `cap` slots: no two values share a
    register, only the first cap slots are in use, and the slots in use number the arguments plus
    the allocations so far.
  */
  lemma {:induction false} OrderlyUpTo(f: Source, p: nat, cap: nat)
    requires p <= Len(f) && FitsUpTo(f, p, cap)
    ensures Orderly(f, p, cap)
  {
    if p == 0 {
      ArgsTable(f.args);
    } else {
      OrderlyUpTo(f, p - 1, cap);
      if GivesRegister(InsAt(f, p - 1), f.voidCall(p - 1)) {
        OrderlyReplace(f, p - 1, cap);
      } else {
        NextTable(f, p - 1);
        KnownLater(f, p - 1);
      }
    }
  }

  lemma FitsBefore(f: Source, p: nat, cap: nat)
    requires FitsIn(f, cap) && p <= Len(f)
    ensures FitsUpTo(f, p, cap)
  {
    AllocationsGrow(f, p, Len(f));
  }

  /** The same at every point of the pass over a function that fits as a whole. */
  lemma AlwaysOrderly(f: Source, p: nat, cap: nat)
    requires FitsIn(f, cap) && p <= Len(f)
    ensures Orderly(f, p, cap)
  {
    FitsBefore(f, p, cap);
    OrderlyUpTo(f, p, cap);
  }

  /** Whatever the function, the table keeps its 14 codes. */
  ghost predicate FixedCodes(t: Table) {
    |t| == SLOTS && forall k :: 0 <= k < SLOTS ==> t[k].code == SlotCode(k)
  }

  lemma {:induction false} ArgsKeepCodes(n: nat)
    ensures FixedCodes(AssignArgs(InitTable(), n))
  {
    if n > 0 {
      ArgsKeepCodes(n - 1);
      AssignAt(AssignArgs(InitTable(), n - 1), ArgSlot(n - 1), n - 1);
    }
  }

  lemma {:induction false} CodesFixed(f: Source, p: nat)
    requires p <= Len(f)
    ensures FixedCodes(TableBefore(f, p))
  {
    if p > 0 {
      CodesFixed(f, p - 1);
      NextTable(f, p - 1);
    } else {
      ArgsKeepCodes(f.args);
    }
  }

  lemma CodesBelow16(t: Table, id: nat)
    requires FixedCodes(t)
    ensures Lookup(t, id) < 16 && AllocatedCode(t) < 16 && FixedCodes(Allocate(t, id))
  {
  }

  lemma EmittedCodes(t: Table, i: Instr, voidCall: bool)
    requires FixedCodes(t)
    ensures forall a :: a in EmitInstr(t, i, voidCall).items ==> a.Codes()
  {
    hide FixedCodes, Lookup, AllocatedCode, Allocate;
    match i
    case Op(_, l, r, _) =>
      CodesBelow16(t, l.id);
      CodesBelow16(t, r.id);
    case Load(a, _, g) =>
      CodesBelow16(t, g.id);
      CodesBelow16(Allocate(t, g.id), a.id);
    case Store(a, v) =>
      CodesBelow16(t, a.id);
      CodesBelow16(t, v.id);
    case CondBr(c, _, _) => CodesBelow16(t, c.id);
    case Ret(v) => CodesBelow16(t, v.id);
    case _ => CodesBelow16(t, 0);
  }

  lemma {:induction false} AllCodes(f: Source, p: nat)
    requires p <= Len(f)
    ensures forall a :: a in Emit(f, p).items ==> a.Codes()
  {
    if p > 0 {
      AllCodes(f, p - 1);
      CodesFixed(f, p - 1);
      EmittedCodes(TableBefore(f, p - 1), InsAt(f, p - 1), f.voidCall(p - 1));
    }
  }

  /** Instructions for which code is generated. */
  predicate Emits(i: Instr) {
    match i
    case Const(kind, _, _) => !kind.ConstI16? && !kind.ConstI8?
    case Op(op, _, _, _) => op == Add
    case Not(_, _) => false
    case CallPtr(_, _, _) => false
    case _ => true
  }

  predicate HasCode(f: Source) {
    exists p :: 0 <= p < Len(f) && Emits(InsAt(f, p))
  }

  lemma EmitsIff(t: Table, i: Instr, voidCall: bool)
    ensures SizeOf(EmitInstr(t, i, voidCall).items) > 0 <==> Emits(i)
  {
    var items := EmitInstr(t, i, voidCall).items;
    if Emits(i) {
      assert items[|items| - 1].Size() > 0;
    }
  }

  lemma {:induction false} CodeIff(f: Source, p: nat)
    requires p <= Len(f)
    ensures SizeOf(Emit(f, p).items) > 0 <==> exists q :: 0 <= q < p && Emits(InsAt(f, q))
    decreases p
  {
    hide EmitInstr;
    if p > 0 {
      CodeIff(f, p - 1);
      EmitsIff(TableBefore(f, p - 1), InsAt(f, p - 1), f.voidCall(p - 1));
      SizeOfConcat(Emit(f, p - 1).items, EmitInstr(TableBefore(f, p - 1), InsAt(f, p - 1), f.voidCall(p - 1)).items);
    }
  }

  /** A function gets code exactly when one of its instructions is among those. */
  lemma HasCodeIff(f: Source)
    ensures |CodeOf(f)| > 0 <==> HasCode(f)
  {
    CodeIff(f, Len(f));
  }

  /** A subtraction and nothing else. */
  function OnlySubtracts(): Source {
    Source([I64], I64, [[Op(Sub, I64Value(0), I64Value(0), I64Value(1))]], _ => false)
  }

  lemma SubtractionHasNoCode()
    ensures Integral(OnlySubtracts()) && !HasCode(OnlySubtracts()) && CodeOf(OnlySubtracts()) == []
  {
    var f := OnlySubtracts();
    assert f.blocks[..0] == [];
    assert Flat(f.blocks) == f.blocks[0];
    HasCodeIff(f);
  }

  /**
    The finished code of any function reads back as the instructions emitted exactly when all of
    them are encodable.
  */
  lemma CodeReadsBackIff(f: Source)
    requires Integral(f) && SmallCode(AllItems(f), BlockOffsets(f, |f.blocks|))
    ensures Disassemble(CodeOf(f), 0) == Some(Meanings(AllItems(f), BlockOffsets(f, |f.blocks|))) <==>
            forall a :: a in AllItems(f) ==> a.Encodable()
  {
    hide Disassemble, Resolved, SmallCode, Emit;
    AllCodes(f, Len(f));
    DisassemblesIff(AllItems(f), BlockOffsets(f, |f.blocks|));
  }

  /** The count is kept at every point exactly when arguments and allocations fit the 14 slots. */
  lemma CountKeptIffItFits(f: Source)
    requires Integral(f) && SingleAssignment(f) && f.args <= 4
    ensures (forall p :: 0 <= p <= Len(f) ==> Occupied(TableBefore(f, p)) == f.args + Allocations(f, p)) <==>
            f.args + Allocations(f, Len(f)) <= SLOTS
  {
    if f.args + Allocations(f, Len(f)) <= SLOTS {
      forall p | 0 <= p <= Len(f)
        ensures Occupied(TableBefore(f, p)) == f.args + Allocations(f, p)
      {
        AlwaysOrderly(f, p, SLOTS);
      }
    } else {
      CodesFixed(f, Len(f));
      OccupiedAtMost(TableBefore(f, Len(f)));
    }
  }

  lemma {:induction false} OccupiedAtMost(t: Table)
    ensures Occupied(t) <= |t|
  {
    if |t| > 0 {
      OccupiedAtMost(t[..|t| - 1]);
    }
  }

  // ----- the scratch register RAX -----

  /** The last slot's code is RAX: some point of the pass has a value in it. */
  ghost predicate RaxTaken(f: Source) {
    exists p: nat, v: nat :: p <= Len(f) && InRax(f, p, v)
  }

  ghost predicate InRax(f: Source, p: nat, v: nat)
    requires p <= Len(f)
  {
    Held(TableBefore(f, p), v) && Lookup(TableBefore(f, p), v) == RAX
  }

  /** With at most 13 slots in use RAX, RSP and RBP are never handed out. */
  lemma ScratchNeverAssigned(f: Source, p: nat, v: nat)
    requires FitsIn(f, 13) && p <= Len(f) && Held(TableBefore(f, p), v)
    ensures var r := Lookup(TableBefore(f, p), v); r != RAX && r != 4 && r != 5
    ensures forall w: nat :: Held(TableBefore(f, p), w) && Lookup(TableBefore(f, p), w) == Lookup(TableBefore(f, p), v) ==> w == v
  {
    AlwaysOrderly(f, p, 13);
    var t := TableBefore(f, p);
    NeverStackRegisters(t, v);
    forall w: nat | Held(t, w) && Lookup(t, w) == Lookup(t, v)
      ensures w == v
    {
      DistinctRegisters(t, w, v);
    }
  }

  /** An allocation that finds the first 13 slots taken puts its value in RAX. */
  lemma FourteenthTakesRax(f: Source, p: nat)
    requires Integral(f) && SingleAssignment(f) && f.args <= 4 && p < Len(f) && Allocates(InsAt(f, p), f.voidCall(p))
    requires f.args + Allocations(f, p) == 13
    ensures InRax(f, p + 1, InsAt(f, p).gen.id)
  {
    OrderlyUpTo(f, p, 13);
    var t := TableBefore(f, p);
    OccupiedPrefix(t, 13);
    FullPrefixFirst(t);
    ResultIsNew(f, p, 13);
    NextTable(f, p);
    ReplaceKeeps(t, None, InsAt(f, p).gen.id);
  }

  lemma FullPrefixFirst(t: Table)
    requires Consistent(t) && EmptyFrom(t, 13) && Occupied(t[..13]) == 13
    ensures First(t, None) == 13
  {
    var k := First(t, None);
    assert t[13].holder == None;
    if k < 13 {
      EmptyAt(t[..13], k);
    }
  }

  lemma {:induction false} EmptyAt(t: Table, k: nat)
    requires k < |t| && t[k].holder.None?
    ensures Occupied(t) < |t|
  {
    var n := |t| - 1;
    if k < n {
      EmptyAt(t[..n], k);
    } else {
      OccupiedAtMost(t[..n]);
    }
  }

  /** The position of the allocation that needs slot number n. */
  lemma {:induction false} AllocationOf(f: Source, q: nat, n: nat) returns (p: nat)
    requires q <= Len(f) && f.args <= n < f.args + Allocations(f, q)
    ensures p < q && Allocates(InsAt(f, p), f.voidCall(p)) && f.args + Allocations(f, p) == n
    decreases q
  {
    p := q - 1;
    if f.args + Allocations(f, p) > n {
      p := AllocationOf(f, p, n);
    }
  }

  /** A fifth or later argument is put in the last slot, where it displaces the one before. */
  lemma {:induction false} LateArgumentInRax(n: nat)
    requires n > 4
    ensures var t := AssignArgs(InitTable(), n);
            && |t| == SLOTS && (forall k :: 0 <= k < SLOTS ==> t[k].code == SlotCode(k))
            && t[13].holder == Some(n - 1)
            && (forall k :: 0 <= k < 13 ==> t[k] == AssignArgs(InitTable(), 4)[k])
  {
    ArgsTable(4);
    if n > 5 {
      LateArgumentInRax(n - 1);
    }
    AssignAt(AssignArgs(InitTable(), n - 1), 13, n - 1);
  }

  lemma LateArgumentHeld(n: nat)
    requires n > 4
    ensures Held(AssignArgs(InitTable(), n), n - 1) && Lookup(AssignArgs(InitTable(), n), n - 1) == RAX
  {
    LateArgumentInRax(n);
    ArgsTable(4);
    var t := AssignArgs(InitTable(), n);
    forall k | 0 <= k < 13
      ensures t[k].holder != Some(n - 1)
    {
      assert t[k] == AssignArgs(InitTable(), 4)[k];
    }
    var f := First(t, Some(n - 1));
    assert f == 13;
  }

  /** A value is put in RAX exactly when there is a fifth argument or more than 13 slots are needed. */
  lemma RaxTakenIff(f: Source)
    requires Integral(f) && SingleAssignment(f)
    ensures RaxTaken(f) <==> f.args > 4 || f.args + Allocations(f, Len(f)) >= SLOTS
  {
    if f.args > 4 {
      LateArgumentHeld(f.args);
      assert InRax(f, 0, f.args - 1);
    } else if f.args + Allocations(f, Len(f)) >= SLOTS {
      var p := AllocationOf(f, Len(f), 13);
      FourteenthTakesRax(f, p);
      assert InRax(f, p + 1, InsAt(f, p).gen.id);
    } else {
      forall p: nat, v: nat | p <= Len(f)
        ensures !InRax(f, p, v)
      {
        if Held(TableBefore(f, p), v) {
          ScratchNeverAssigned(f, p, v);
        }
      }
    }
  }

  /** Fourteen constants and a return. */
  function FourteenConstants(): Source {
    Source([], I64, [seq(14, k requires 0 <= k < 14 => Const(ConstI64, 0, I64Value(k))) + [Ret(I64Value(0))]], _ => false)
  }

  lemma {:induction false} FourteenAllocate(p: nat)
    requires p <= 14
    ensures Len(FourteenConstants()) == 15 && Allocations(FourteenConstants(), p) == p
    ensures p < 14 ==> InsAt(FourteenConstants(), p) == Const(ConstI64, 0, I64Value(p))
  {
    var f := FourteenConstants();
    assert f.blocks[..0] == [];
    assert Flat(f.blocks) == f.blocks[0];
    if p > 0 {
      FourteenAllocate(p - 1);
    }
  }

  /** The fourteenth constant is held in RAX. */
  lemma FourteenConstantsTakeRax()
    ensures InRax(FourteenConstants(), 14, 13) && RaxTaken(FourteenConstants())
  {
    var f := FourteenConstants();
    FourteenAllocate(13);
    forall p, v: nat | 0 <= p && Generates(f, p, v)
      ensures p < 14 && v == p
    {
      FourteenAllocate(if p < 14 then p else 14);
    }
    FourteenthTakesRax(f, 13);
  }

  /** A position that does not take over v's register leaves v where it is and writes another one. */
  lemma KeepsRegister(f: Source, p: nat, cap: nat, v: nat)
    requires FitsIn(f, cap) && p < Len(f) && Held(TableBefore(f, p), v) && !Consumes(f, p, v)
    ensures Held(TableBefore(f, p + 1), v) && Lookup(TableBefore(f, p + 1), v) == Lookup(TableBefore(f, p), v)
    ensures var i := InsAt(f, p);
            GivesRegister(i, f.voidCall(p)) && First(TableBefore(f, p), Replaced(i)) < SLOTS ==>
              v != i.gen.id && Held(TableBefore(f, p + 1), i.gen.id)
              && Lookup(TableBefore(f, p + 1), i.gen.id) != Lookup(TableBefore(f, p), v)
  {
    AlwaysOrderly(f, p, cap);
    AlwaysOrderly(f, p + 1, cap);
    NextTable(f, p);
    var t, i := TableBefore(f, p), InsAt(f, p);
    if GivesRegister(i, f.voidCall(p)) && First(t, Replaced(i)) < SLOTS {
      ResultIsNew(f, p, cap);
      ReplaceKeeps(t, Replaced(i), i.gen.id);
      if Lookup(TableBefore(f, p + 1), i.gen.id) == Lookup(TableBefore(f, p), v) {
        DistinctRegisters(TableBefore(f, p + 1), i.gen.id, v);
      }
    }
  }

  /** A value keeps its register until it is the left operand of an ADD. */
  lemma {:induction false} KeepsRegisterUntilConsumed(f: Source, p: nat, q: nat, cap: nat, v: nat)
    requires FitsIn(f, cap) && p <= q <= Len(f) && Held(TableBefore(f, p), v)
    requires forall d :: p <= d < q ==> !Consumes(f, d, v)
    ensures Held(TableBefore(f, q), v) && Lookup(TableBefore(f, q), v) == Lookup(TableBefore(f, p), v)
    decreases q - p
  {
    if p < q {
      KeepsRegister(f, p, cap, v);
      KeepsRegisterUntilConsumed(f, p + 1, q, cap, v);
    }
  }
}

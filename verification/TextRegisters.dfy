/**
  Which register every operand gets, read off a function's text: the slot of an argument is its
  position's, an allocated value takes the next slot that no argument has, and a sum takes over the
  slot of its left operand.
*/
module TextRegisters {
  import opened Words
  import opened Ir
  import opened X86
  import opened Allocator
  import opened Emission
  import opened RegisterPass

  predicate IsArgSlot(args: nat, k: nat) {
    (k == 0 && args > 0) || (k == 1 && args > 1) || (k == 5 && args > 2) || (k == 6 && args > 3)
  }

  /** Slots below k that no argument has. */
  function FreeBelow(args: nat, k: nat): nat {
    if k == 0 then 0 else FreeBelow(args, k - 1) + if IsArgSlot(args, k - 1) then 0 else 1
  }

  function FreeSlotFrom(args: nat, n: nat, k: nat): (r: nat)
    requires k <= SLOTS
    ensures r <= SLOTS
    decreases SLOTS - k
  {
    if k == SLOTS || (!IsArgSlot(args, k) && FreeBelow(args, k) == n) then k else FreeSlotFrom(args, n, k + 1)
  }

  /** The slot of the n-th allocation; 14 if there is none. */
  function FreeSlot(args: nat, n: nat): nat {
    FreeSlotFrom(args, n, 0)
  }

  lemma {:induction false} FreeBelowAscends(args: nat, j: nat, k: nat)
    requires j < k && !IsArgSlot(args, j)
    ensures FreeBelow(args, j) < FreeBelow(args, k)
    decreases k
  {
    if j < k - 1 {
      FreeBelowAscends(args, j, k - 1);
    }
  }

  lemma {:induction false} FreeBelowBound(args: nat, k: nat, n: nat)
    requires forall j :: 0 <= j < k && !IsArgSlot(args, j) ==> FreeBelow(args, j) < n
    ensures FreeBelow(args, k) <= n
  {
    if k > 0 {
      FreeBelowBound(args, k - 1, n);
    }
  }

  lemma {:induction false} FreeSlotFromIs(args: nat, n: nat, j: nat, k: nat)
    requires j <= k < SLOTS && !IsArgSlot(args, k) && FreeBelow(args, k) == n
    ensures FreeSlotFrom(args, n, j) == k
    decreases k - j
  {
    if j < k {
      if !IsArgSlot(args, j) {
        FreeBelowAscends(args, j, k);
      }
      FreeSlotFromIs(args, n, j + 1, k);
    }
  }

  // ----- which slots are taken -----

  predicate Taken(args: nat, n: nat, k: nat) {
    IsArgSlot(args, k) || FreeBelow(args, k) < n
  }

  /** The arguments' slots and the first n others hold values, no other slot does. */
  ghost predicate Filled(t: Table, args: nat, n: nat) {
    |t| == SLOTS && forall k :: 0 <= k < SLOTS ==> (t[k].holder.Some? <==> Taken(args, n, k))
  }

  lemma FirstFree(t: Table, args: nat, n: nat)
    requires Filled(t, args, n) && First(t, None) < SLOTS
    ensures First(t, None) == FreeSlot(args, n)
    ensures forall k :: 0 <= k < SLOTS && k != First(t, None) ==> (Taken(args, n, k) <==> Taken(args, n + 1, k))
    ensures Taken(args, n + 1, First(t, None))
  {
    var k := First(t, None);
    assert !Taken(args, n, k);
    forall j | 0 <= j < k && !IsArgSlot(args, j)
      ensures FreeBelow(args, j) < n
    {
      assert t[j].holder.Some?;
    }
    FreeBelowBound(args, k, n);
    FreeSlotFromIs(args, n, 0, k);
    forall j | 0 <= j < SLOTS && j != k
      ensures Taken(args, n, j) <==> Taken(args, n + 1, j)
    {
      if !IsArgSlot(args, j) {
        if j < k {
          FreeBelowAscends(args, j, k);
        } else {
          FreeBelowAscends(args, k, j);
        }
      }
    }
  }

  lemma SumKeepsFilled(t: Table, args: nat, n: nat, left: nat, id: nat)
    requires Filled(t, args, n)
    ensures Filled(Replace(t, Some(left), Some(id)), args, n)
  {
  }

  lemma AllocationFills(t: Table, args: nat, n: nat, id: nat)
    requires Filled(t, args, n) && First(t, None) < SLOTS
    ensures Filled(Allocate(t, id), args, n + 1)
  {
    hide Taken, FreeSlot;
    FirstFree(t, args, n);
  }

  lemma {:induction false} AlwaysFilled(f: Source, p: nat)
    requires p <= Len(f) && FitsUpTo(f, p, SLOTS)
    ensures Filled(TableBefore(f, p), f.args, Allocations(f, p))
  {
    hide Filled, First, Replace, Emit, Orderly;
    if p == 0 {
      ArgsFill(f);
    } else {
      AllocationsGrow(f, p - 1, p);
      AlwaysFilled(f, p - 1);
      OrderlyUpTo(f, p - 1, SLOTS);
      NextTable(f, p - 1);
      var t, i := TableBefore(f, p - 1), InsAt(f, p - 1);
      if Allocates(i, f.voidCall(p - 1)) {
        RoomToAllocate(f, p - 1, SLOTS);
        AllocationFills(t, f.args, Allocations(f, p - 1), i.gen.id);
      } else if GivesRegister(i, f.voidCall(p - 1)) {
        SumKeepsFilled(t, f.args, Allocations(f, p - 1), i.left.id, i.gen.id);
      }
    }
  }

  lemma ArgsFill(f: Source)
    requires f.args <= 4
    ensures Filled(TableBefore(f, 0), f.args, 0)
  {
    hide Filled, FreeBelow;
    ArgsTable(f.args);
    ArgumentSlots(TableBefore(f, 0), f.args);
  }

  lemma ArgumentSlots(t: Table, n: nat)
    requires n <= 4 && ArgsPlaced(t, n)
    ensures Filled(t, n, 0)
  {
    forall k | 0 <= k < SLOTS
      ensures t[k].holder.Some? <==> Taken(n, 0, k)
    {
      if IsArgSlot(n, k) {
        var a := if k == 0 then 0 else if k == 1 then 1 else if k == 5 then 2 else 3;
        assert t[ArgSlot(a)].holder == Some(a);
      }
    }
  }

  // ----- where a value is -----

  /** Whether v has a register before position p. */
  predicate TextHeld(f: Source, v: nat, p: nat)
    requires p <= Len(f)
    decreases p
  {
    if p == 0 then v < f.args
    else
      var i := InsAt(f, p - 1);
      if Generates(f, p - 1, v) then GivesRegister(i, f.voidCall(p - 1)) && (i.Op? ==> TextHeld(f, i.left.id, p - 1))
      else TextHeld(f, v, p - 1) && !Consumes(f, p - 1, v)
  }

  /** The slot of v before position p, if it has one. */
  function TextSlot(f: Source, v: nat, p: nat): nat
    requires p <= Len(f)
    decreases p
  {
    if p == 0 then ArgSlot(v)
    else
      var i := InsAt(f, p - 1);
      if !Generates(f, p - 1, v) then TextSlot(f, v, p - 1)
      else if i.Op? then TextSlot(f, i.left.id, p - 1)
      else FreeSlot(f.args, Allocations(f, p - 1))
  }

  /** The code looked up for v at position p: RAX where v has no register. */
  function TextCode(f: Source, v: nat, p: nat): nat
    requires p <= Len(f)
  {
    var k := TextSlot(f, v, p);
    if TextHeld(f, v, p) && k < SLOTS then SlotCode(k) else RAX
  }

  ghost predicate At(t: Table, v: nat, k: nat) {
    k < |t| && t[k].holder == Some(v)
  }

  lemma HeldIsAt(t: Table, v: nat)
    requires Held(t, v)
    ensures At(t, v, First(t, Some(v)))
  {
  }

  lemma AtIsHeld(t: Table, v: nat, k: nat)
    requires Consistent(t) && At(t, v, k)
    ensures Held(t, v) && Lookup(t, v) == SlotCode(k) && First(t, Some(v)) == k
  {
    HeldAt(t, v, k);
    assert t[First(t, Some(v))].holder == t[k].holder;
  }

  lemma {:induction false} TextSlotIsRight(f: Source, v: nat, p: nat)
    requires p <= Len(f) && FitsUpTo(f, p, SLOTS)
    ensures TextHeld(f, v, p) <==> Held(TableBefore(f, p), v)
    ensures TextHeld(f, v, p) ==> At(TableBefore(f, p), v, TextSlot(f, v, p))
    decreases p, 0
  {
    if p == 0 {
      ArgsTable(f.args);
      if v < f.args {
        AtIsHeld(TableBefore(f, 0), v, ArgSlot(v));
      }
    } else {
      AllocationsGrow(f, p - 1, p);
      if Generates(f, p - 1, v) {
        ResultSlot(f, v, p - 1);
      } else {
        TextSlotIsRight(f, v, p - 1);
        OtherSlot(f, v, p - 1);
      }
    }
  }

  /** The result of position p. */
  lemma {:induction false} ResultSlot(f: Source, v: nat, p: nat)
    requires p < Len(f) && FitsUpTo(f, p + 1, SLOTS) && Generates(f, p, v)
    ensures TextHeld(f, v, p + 1) <==> Held(TableBefore(f, p + 1), v)
    ensures TextHeld(f, v, p + 1) ==> At(TableBefore(f, p + 1), v, TextSlot(f, v, p + 1))
    decreases p, 1
  {
    hide Held, First;
    AllocationsGrow(f, p, p + 1);
    OrderlyUpTo(f, p, SLOTS);
    NextTable(f, p);
    ResultIsNew(f, p, SLOTS);
    var t, i := TableBefore(f, p), InsAt(f, p);
    if GivesRegister(i, f.voidCall(p)) {
      if i.Op? {
        TextSlotIsRight(f, i.left.id, p);
        SumSlot(t, i.left.id, v, TextSlot(f, i.left.id, p));
      } else {
        AlwaysFilled(f, p);
        RoomToAllocate(f, p, SLOTS);
        AllocatedSlot(t, f.args, Allocations(f, p), v);
      }
    }
  }

  lemma SumSlot(t: Table, left: nat, v: nat, k: nat)
    requires Consistent(t) && !Held(t, v) && (Held(t, left) ==> At(t, left, k))
    ensures var u := Replace(t, Some(left), Some(v));
            if Held(t, left) then At(u, v, k) && Held(u, v) else u == t
  {
    if Held(t, left) {
      AtIsHeld(t, left, k);
      ReplaceKeeps(t, Some(left), v);
    }
  }

  lemma AllocatedSlot(t: Table, args: nat, n: nat, v: nat)
    requires Consistent(t) && !Held(t, v) && Filled(t, args, n) && First(t, None) < SLOTS
    ensures At(Allocate(t, v), v, FreeSlot(args, n)) && Held(Allocate(t, v), v)
  {
    FirstFree(t, args, n);
    ReplaceKeeps(t, None, v);
  }

  /** Any other value at position p. */
  lemma OtherSlot(f: Source, v: nat, p: nat)
    requires p < Len(f) && FitsUpTo(f, p + 1, SLOTS) && FitsUpTo(f, p, SLOTS) && !Generates(f, p, v)
    requires TextHeld(f, v, p) <==> Held(TableBefore(f, p), v)
    requires TextHeld(f, v, p) ==> At(TableBefore(f, p), v, TextSlot(f, v, p))
    ensures TextHeld(f, v, p + 1) <==> Held(TableBefore(f, p + 1), v)
    ensures TextHeld(f, v, p + 1) ==> At(TableBefore(f, p + 1), v, TextSlot(f, v, p + 1))
  {
    OrderlyUpTo(f, p, SLOTS);
    NextTable(f, p);
    var t, i := TableBefore(f, p), InsAt(f, p);
    if GivesRegister(i, f.voidCall(p)) {
      assert Generates(f, p, i.gen.id);
      ResultIsNew(f, p, SLOTS);
      if First(t, Replaced(i)) < SLOTS {
        OtherReplaced(t, Replaced(i), i.gen.id, v, TextSlot(f, v, p));
      }
    }
  }

  lemma OtherReplaced(t: Table, from: Option<nat>, id: nat, v: nat, k: nat)
    requires Consistent(t) && First(t, from) < SLOTS && !Held(t, id) && v != id
    requires Held(t, v) ==> At(t, v, k)
    ensures var u := Replace(t, from, Some(id));
            && (Held(u, v) <==> Held(t, v) && from != Some(v))
            && (Held(u, v) ==> At(u, v, k))
  {
    ReplaceKeeps(t, from, id);
    if Held(t, v) && from != Some(v) {
      assert t[First(t, from)].holder == from;
    }
  }

  lemma TextCodeIsRight(f: Source, v: nat, p: nat)
    requires p <= Len(f) && FitsUpTo(f, p, SLOTS)
    ensures Lookup(TableBefore(f, p), v) == TextCode(f, v, p)
  {
    TextSlotIsRight(f, v, p);
    OrderlyUpTo(f, p, SLOTS);
    if TextHeld(f, v, p) {
      AtIsHeld(TableBefore(f, p), v, TextSlot(f, v, p));
    }
  }

  // ----- which functions the encoders can name -----

  /** A code that the short encoders can name, also as an address. */
  predicate Short(code: nat) {
    code < 8
  }

  /** The registers that position p names are ones its encoders can name. */
  predicate TextEncodable(f: Source, p: nat)
    requires p < Len(f)
  {
    match InsAt(f, p)
    case Const(kind, _, g) => kind.ConstI16? || kind.ConstI8? || Short(TextCode(f, g.id, p + 1))
    case Op(op, l, r, _) => op != Add || (Short(TextCode(f, l.id, p)) && Short(TextCode(f, r.id, p)))
    case Load(a, _, g) => Short(TextCode(f, g.id, p + 1)) && Short(TextCode(f, a.id, p + 1))
    case Store(a, v) => Short(TextCode(f, v.id, p)) && Short(TextCode(f, a.id, p))
    case CondBr(c, _, _) => Short(TextCode(f, c.id, p))
    case _ => true
  }

  /** The register handed out at a position is its result's afterwards. */
  lemma AllocatedIsResult(f: Source, p: nat)
    requires p < Len(f) && FitsUpTo(f, p + 1, SLOTS) && Allocates(InsAt(f, p), f.voidCall(p))
    ensures AllocatedCode(TableBefore(f, p)) == TextCode(f, InsAt(f, p).gen.id, p + 1)
    ensures TableBefore(f, p + 1) == Allocate(TableBefore(f, p), InsAt(f, p).gen.id)
  {
    AllocationsGrow(f, p, p + 1);
    OrderlyUpTo(f, p, SLOTS);
    NextTable(f, p);
    RoomToAllocate(f, p, SLOTS);
    assert Generates(f, p, InsAt(f, p).gen.id);
    ResultIsNew(f, p, SLOTS);
    ReplaceKeeps(TableBefore(f, p), None, InsAt(f, p).gen.id);
    TextCodeIsRight(f, InsAt(f, p).gen.id, p + 1);
  }

  /** Codes of the table, none of which is RSP's or RBP's. */
  lemma CodesUsable(f: Source, p: nat, v: nat)
    requires p <= Len(f)
    ensures var c := Lookup(TableBefore(f, p), v); c < 16 && c != 4 && c != 5
  {
    CodesFixed(f, p);
  }

  lemma OneItem(items: seq<Asm>, a: Asm)
    requires items == [a]
    ensures (forall b :: b in items ==> b.Encodable()) <==> a.Encodable()
  {
    assert a in items;
  }

  lemma BranchItem(items: seq<Asm>, reg: nat, onTrue: nat, onFalse: nat)
    requires items == [CmpZero(reg), JzTo(onFalse), JmpTo(onTrue)]
    ensures (forall b :: b in items ==> b.Encodable()) <==> reg < 8
  {
    assert items[0] in items;
  }

  predicate ItemsEncodable(f: Source, p: nat)
    requires p < Len(f)
  {
    forall a :: a in EmitInstr(TableBefore(f, p), InsAt(f, p), f.voidCall(p)).items ==> a.Encodable()
  }

  lemma ConstEncodes(f: Source, p: nat)
    requires p < Len(f) && FitsUpTo(f, p + 1, SLOTS) && InsAt(f, p).Const?
    ensures ItemsEncodable(f, p) <==> TextEncodable(f, p)
  {
    hide TextCode, Emit, AllocatedCode;
    var i := InsAt(f, p);
    if Allocates(i, f.voidCall(p)) {
      AllocatedIsResult(f, p);
      OneItem(EmitInstr(TableBefore(f, p), i, f.voidCall(p)).items, MovImm(AllocatedCode(TableBefore(f, p)), i.imm));
    }
  }

  lemma AddEncodes(f: Source, p: nat)
    requires p < Len(f) && FitsUpTo(f, p, SLOTS) && InsAt(f, p).Op?
    ensures ItemsEncodable(f, p) <==> TextEncodable(f, p)
  {
    hide TextCode, Emit, Lookup;
    var i, t := InsAt(f, p), TableBefore(f, p);
    TextCodeIsRight(f, i.left.id, p);
    TextCodeIsRight(f, i.right.id, p);
    if i.op == Add {
      OneItem(EmitInstr(t, i, f.voidCall(p)).items, AddReg(Lookup(t, i.left.id), Lookup(t, i.right.id)));
    }
  }

  lemma LoadEncodes(f: Source, p: nat)
    requires p < Len(f) && FitsUpTo(f, p + 1, SLOTS) && InsAt(f, p).Load?
    ensures ItemsEncodable(f, p) <==> TextEncodable(f, p)
  {
    hide TextCode, Emit, Lookup, AllocatedCode, Allocate;
    var i, t := InsAt(f, p), TableBefore(f, p);
    AllocatedIsResult(f, p);
    TextCodeIsRight(f, i.addr.id, p + 1);
    CodesUsable(f, p + 1, i.addr.id);
    OneItem(EmitInstr(t, i, f.voidCall(p)).items, LoadMem(Lookup(Allocate(t, i.gen.id), i.addr.id), AllocatedCode(t)));
  }

  lemma StoreEncodes(f: Source, p: nat)
    requires p < Len(f) && FitsUpTo(f, p, SLOTS) && InsAt(f, p).Store?
    ensures ItemsEncodable(f, p) <==> TextEncodable(f, p)
  {
    hide TextCode, Emit, Lookup;
    var i, t := InsAt(f, p), TableBefore(f, p);
    TextCodeIsRight(f, i.addr.id, p);
    TextCodeIsRight(f, i.stored.id, p);
    CodesUsable(f, p, i.addr.id);
    OneItem(EmitInstr(t, i, f.voidCall(p)).items, StoreMem(Lookup(t, i.stored.id), Lookup(t, i.addr.id)));
  }

  lemma BranchEncodes(f: Source, p: nat)
    requires p < Len(f) && FitsUpTo(f, p, SLOTS) && InsAt(f, p).CondBr?
    ensures ItemsEncodable(f, p) <==> TextEncodable(f, p)
  {
    hide TextCode, Emit, Lookup;
    var i, t := InsAt(f, p), TableBefore(f, p);
    TextCodeIsRight(f, i.cond.id, p);
    BranchItem(EmitInstr(t, i, f.voidCall(p)).items, Lookup(t, i.cond.id), i.onTrue, i.onFalse);
  }

  /** Moves name any register; the rest names none. */
  lemma OthersEncode(f: Source, p: nat)
    requires p < Len(f)
    requires var i := InsAt(f, p); !i.Const? && !i.Op? && !i.Load? && !i.Store? && !i.CondBr?
    ensures ItemsEncodable(f, p) && TextEncodable(f, p)
  {
    hide Emit, Lookup, AllocatedCode, Allocate;
    var i, t := InsAt(f, p), TableBefore(f, p);
    CodesFixed(f, p);
    CodesBelow16(t, 0);
    if i.Ret? {
      CodesBelow16(t, i.result.id);
    }
  }

  lemma PositionEncodes(f: Source, p: nat)
    requires p < Len(f) && FitsUpTo(f, p + 1, SLOTS)
    ensures ItemsEncodable(f, p) <==> TextEncodable(f, p)
  {
    AllocationsGrow(f, p, p + 1);
    hide ItemsEncodable, TextEncodable, Emit;
    match InsAt(f, p)
    case Const(_, _, _) => ConstEncodes(f, p);
    case Op(_, _, _, _) => AddEncodes(f, p);
    case Load(_, _, _) => LoadEncodes(f, p);
    case Store(_, _) => StoreEncodes(f, p);
    case CondBr(_, _, _) => BranchEncodes(f, p);
    case _ => OthersEncode(f, p);
  }

  lemma {:induction false} EncodableIffText(f: Source, p: nat)
    requires p <= Len(f) && FitsIn(f, SLOTS)
    ensures (forall a :: a in Emit(f, p).items ==> a.Encodable()) <==> (forall q :: 0 <= q < p ==> TextEncodable(f, q))
    decreases p
  {
    hide TextEncodable, EmitInstr, FitsIn;
    if p > 0 {
      EncodableIffText(f, p - 1);
      FitsBefore(f, p, SLOTS);
      PositionEncodes(f, p - 1);
      var e := EmitInstr(TableBefore(f, p - 1), InsAt(f, p - 1), f.voidCall(p - 1)).items;
      assert Emit(f, p).items == Emit(f, p - 1).items + e;
      assert ItemsEncodable(f, p - 1) <==> forall a :: a in e ==> a.Encodable();
      assert forall a :: a in Emit(f, p).items <==> a in Emit(f, p - 1).items || a in e;
    }
  }

  /**
    For a function that fits the 14 slots, the finished code reads back as what was emitted exactly
    when the text asks the encoders for registers they can name.
  */
  lemma CodeReadsBackIffText(f: Source)
    requires FitsIn(f, SLOTS) && SmallCode(AllItems(f), BlockOffsets(f, |f.blocks|))
    ensures Disassemble(CodeOf(f), 0) == Some(Meanings(AllItems(f), BlockOffsets(f, |f.blocks|))) <==>
            forall p :: 0 <= p < Len(f) ==> TextEncodable(f, p)
  {
    CodeReadsBackIff(f);
    EncodableIffText(f, Len(f));
  }
}

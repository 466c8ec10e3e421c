/**
  The executable code of a function read position by position: what the bytes of each instruction of
  the text decode to after linking, and which function every direct call reaches.
*/
module Selection {
  import opened Words
  import opened Ir
  import opened X86
  import opened Allocator
  import opened Emission
  import opened RegisterPass
  import opened TextRegisters
  import opened Simulation
  import opened Link

  /** The code of a function whose calls carry their targets' addresses. */
  function LinkedCodeOf(f: Source, bases: seq<Word>): seq<Byte> {
    Resolved(LinkedItems(AllItems(f), bases), BlockOffsets(f, |f.blocks|))
  }

  /** The address that a call of function g goes to; 0 for a function that is not in the module. */
  function TargetAddress(bases: seq<Word>, g: nat): Word {
    if g < |bases| then bases[g] else 0
  }

  // ----- recorded calls -----

  /** One entry for every direct call of the text: two bytes into its code, with the function it names. */
  function TextCalls(f: Source, p: nat): seq<CallSite>
    requires p <= Len(f)
  {
    if p == 0 then []
    else
      match InsAt(f, p - 1)
      case CallFunc(g, _, _) => TextCalls(f, p - 1) + [CallSite(CodeOffset(f, p - 1) + 2, g)]
      case _ => TextCalls(f, p - 1)
  }

  lemma {:induction false} CallSitesConcat(a: seq<Asm>, b: seq<Asm>)
    requires forall k :: 1 <= k < |b| ==> !b[k].CallHole?
    ensures CallSites(a + b) == CallSites(a) +
              if |b| > 0 && b[0].CallHole? then [CallSite(SizeOf(a) + 2, b[0].func)] else []
    decreases |b|
  {
    if |b| == 0 {
      assert a + b == a;
    } else {
      var n := |b| - 1;
      assert (a + b)[..|a + b| - 1] == a + b[..n];
      CallSitesConcat(a, b[..n]);
      if n == 0 {
        assert a + b[..n] == a;
      }
    }
  }

  lemma NoCallSites()
    ensures CallSites([]) == []
  {
  }

  /** Only a direct call begins with an address to fill in, and nothing has one elsewhere. */
  lemma CallComesFirst(t: Table, i: Instr, voidCall: bool)
    ensures var items := EmitInstr(t, i, voidCall).items;
            && (|items| > 0 && items[0].CallHole? <==> i.CallFunc?)
            && (i.CallFunc? ==> items[0].func == i.func)
            && (forall k :: 1 <= k < |items| ==> !items[k].CallHole?)
  {
    hide Lookup, AllocatedCode, Allocate, Replace;
  }

  /** What the generator records for linking is exactly the text's direct calls, in order. */
  lemma {:induction false} RecordedCalls(f: Source, p: nat)
    requires p <= Len(f)
    ensures CallSites(Emit(f, p).items) == TextCalls(f, p)
  {
    hide EmitInstr, SizeOf, CallSites;
    if p == 0 {
      NoCallSites();
    } else {
      RecordedCalls(f, p - 1);
      CallComesFirst(TableBefore(f, p - 1), InsAt(f, p - 1), f.voidCall(p - 1));
      CallSitesConcat(Emit(f, p - 1).items, ItemsFor(f, p - 1));
    }
  }

  lemma {:induction false} TextCallsAre(f: Source, p: nat, c: CallSite)
    requires p <= Len(f)
    ensures c in TextCalls(f, p) <==>
            exists q :: 0 <= q < p && InsAt(f, q).CallFunc? && c == CallSite(CodeOffset(f, q) + 2, InsAt(f, q).func)
  {
    hide CodeOffset, InsAt;
    if p > 0 {
      TextCallsAre(f, p - 1, c);
    }
  }

  /** A call is recorded two bytes into the code of every CALL_FUNC, for the function it names, and nowhere else. */
  lemma RecordedIffCalled(f: Source, c: CallSite)
    ensures c in CallSites(AllItems(f)) <==>
            exists q :: 0 <= q < Len(f) && InsAt(f, q).CallFunc? && c == CallSite(CodeOffset(f, q) + 2, InsAt(f, q).func)
  {
    RecordedCalls(f, Len(f));
    TextCallsAre(f, Len(f), c);
  }

  // ----- the linked code of one position -----

  lemma LinkedConcat(a: seq<Asm>, b: seq<Asm>, bases: seq<Word>)
    ensures LinkedItems(a + b, bases) == LinkedItems(a, bases) + LinkedItems(b, bases)
  {
  }

  lemma LinkedPrefix(a: seq<Asm>, all: seq<Asm>, bases: seq<Word>)
    requires a <= all
    ensures LinkedItems(a, bases) <= LinkedItems(all, bases)
  {
    assert all == a + all[|a|..];
    LinkedConcat(a, all[|a|..], bases);
  }

  /** At the offset of position p the linked code reads as the linked instructions for p. */
  lemma LinkedReads(f: Source, bases: seq<Word>, bin: Binary, p: nat)
    requires SizeOf(AllItems(f)) < 0x8000_0000 && p < Len(f)
    requires bin.items == LinkedItems(AllItems(f), bases) && bin.offsets == BlockOffsets(f, |f.blocks|)
    requires Resolved(bin.items, bin.offsets) <= bin.code
    ensures CodeReads(bin, CodeOffset(f, p), LinkedItems(ItemsFor(f, p), bases), CodeOffset(f, p + 1))
  {
    hide EmitInstr, Emit, CodeReads, Flat, SizeOf, Resolved, BlockOffsets;
    var before, items := Emit(f, p).items, ItemsFor(f, p);
    ItemsArePlaced(f, p);
    CodeIsSmall(f);
    LinkedSize(AllItems(f), bases);
    LinkedSize(before, bases);
    LinkedSize(items, bases);
    LinkedConcat(before, items, bases);
    LinkedPrefix(before + items, AllItems(f), bases);
    ReadsFrom(bin, LinkedItems(before, bases), LinkedItems(items, bases));
  }

  /** The code from p to q, decoded from its first byte, is exactly these instructions. */
  ghost predicate DecodesTo(code: seq<Byte>, p: nat, ins: seq<Ins>, q: nat)
    decreases |ins|
  {
    if |ins| == 0 then p == q
    else
      var d := Decode(code, p);
      d.Some? && d.value.ins == ins[0] && DecodesTo(code, d.value.next, ins[1..], q)
  }

  /** What item n means where it stands, a branch by the distance to its block. */
  function MeaningHere(bin: Binary, start: nat, items: seq<Asm>, n: nat): Ins
    requires n < |items|
  {
    Meaning(items[n], if items[n].IsBranch() then TargetOf(bin.offsets, items[n].block) - start - SizeOf(items[..n + 1]) else 0)
  }

  lemma ItemDecodesHere(bin: Binary, start: nat, items: seq<Asm>, end: nat, n: nat)
    requires CodeReads(bin, start, items, end) && n < |items| && items[n].Encodable()
    ensures Decode(bin.code, start + SizeOf(items[..n])) ==
            Some(Decoded(MeaningHere(bin, start, items, n), start + SizeOf(items[..n + 1])))
  {
    hide Decode, SizeOf;
    assert ItemReads(bin, start, items, n);
    var rel :| ItemDecodes(bin, start, items, n, rel);
  }

  lemma {:induction false} ReadsDecode(bin: Binary, start: nat, items: seq<Asm>, end: nat, n: nat, ins: seq<Ins>)
    requires CodeReads(bin, start, items, end) && n <= |items| && forall k :: 0 <= k < |items| ==> items[k].Encodable()
    requires |ins| == |items| - n && forall k :: n <= k < |items| ==> ins[k - n] == MeaningHere(bin, start, items, k)
    ensures DecodesTo(bin.code, start + SizeOf(items[..n]), ins, end)
    decreases |ins|
  {
    hide CodeReads, Decode, MeaningHere, SizeOf;
    if n < |items| {
      ItemDecodesHere(bin, start, items, end, n);
      forall k | n + 1 <= k < |items|
        ensures ins[1..][k - n - 1] == MeaningHere(bin, start, items, k)
      {
        assert ins[k - n] == MeaningHere(bin, start, items, k);
      }
      ReadsDecode(bin, start, items, end, n + 1, ins[1..]);
    } else {
      assert items[..n] == items;
      EndOf(bin, start, items, end);
    }
  }

  lemma EndOf(bin: Binary, start: nat, items: seq<Asm>, end: nat)
    requires CodeReads(bin, start, items, end)
    ensures end == start + SizeOf(items)
  {
  }

  // ----- the instructions that the text asks for -----

  /** Where the code of block b starts. */
  function BlockStart(f: Source, b: nat): nat {
    if b < |f.blocks| then CodeOffset(f, PositionOf(f, b, 0)) else 0
  }

  /**
    The instructions for position p: operands in the registers they have before it, a result in the
    register it has after it, branches by the distance from the end of their field, a call by the
    address of the function it names.
  */
  function Expected(f: Source, bases: seq<Word>, p: nat): seq<Ins>
    requires p < Len(f)
  {
    var here := CodeOffset(f, p);
    match InsAt(f, p)
    case Const(kind, imm, g) =>
      if kind.ConstI16? || kind.ConstI8? then [] else [IMovImm(TextCode(f, g.id, p + 1), imm)]
    case Op(op, l, r, _) => if op == Add then [IAdd32(TextCode(f, l.id, p), TextCode(f, r.id, p))] else []
    case Not(_, _) => []
    case Load(a, _, g) => [ILoad(TextCode(f, g.id, p + 1), TextCode(f, a.id, p + 1))]
    case Store(a, v) => [IStore(TextCode(f, a.id, p), TextCode(f, v.id, p))]
    case Br(b) => [IJmp(BlockStart(f, b) - here - 5)]
    case CondBr(c, b, e) =>
      [ICmpImm(TextCode(f, c.id, p), 0), IJz(BlockStart(f, e) - here - 10), IJmp(BlockStart(f, b) - here - 15)]
    case CallPtr(_, _, _) => []
    case CallFunc(g, _, v) =>
      [IMovImm(RAX, TargetAddress(bases, g)), ICall(RAX)]
      + if f.voidCall(p) || TextCode(f, v.id, p + 1) == RAX then [] else [IMovReg(TextCode(f, v.id, p + 1), RAX)]
    case Ret(v) => (if TextCode(f, v.id, p) == RAX then [] else [IMovReg(RAX, TextCode(f, v.id, p))]) + [IRet]
    case RetVoid => [IRet]
  }

  /** The linked items for position p, with registers read off the text. */
  function TextItems(f: Source, bases: seq<Word>, p: nat): seq<Asm>
    requires p < Len(f)
  {
    match InsAt(f, p)
    case Const(kind, imm, g) => if kind.ConstI16? || kind.ConstI8? then [] else [MovImm(TextCode(f, g.id, p + 1), imm)]
    case Op(op, l, r, _) => if op == Add then [AddReg(TextCode(f, l.id, p), TextCode(f, r.id, p))] else []
    case Not(_, _) => []
    case Load(a, _, g) => [LoadMem(TextCode(f, a.id, p + 1), TextCode(f, g.id, p + 1))]
    case Store(a, v) => [StoreMem(TextCode(f, v.id, p), TextCode(f, a.id, p))]
    case Br(b) => [JmpTo(b)]
    case CondBr(c, b, e) => [CmpZero(TextCode(f, c.id, p)), JzTo(e), JmpTo(b)]
    case CallPtr(_, _, _) => []
    case CallFunc(g, _, v) =>
      [MovImm(RAX, TargetAddress(bases, g)), CallRax]
      + if f.voidCall(p) then [] else Emission.Move(RAX, TextCode(f, v.id, p + 1))
    case Ret(v) => Emission.Move(TextCode(f, v.id, p), RAX) + [Asm.Return]
    case RetVoid => [Asm.Return]
  }

  lemma AllocatingItems(f: Source, bases: seq<Word>, p: nat)
    requires p < Len(f) && FitsUpTo(f, p + 1, SLOTS) && Allocates(InsAt(f, p), f.voidCall(p))
    ensures LinkedItems(ItemsFor(f, p), bases) == TextItems(f, bases, p)
  {
    AllocatedIsResult(f, p);
    var i, t := InsAt(f, p), TableBefore(f, p);
    if i.Load? {
      TextCodeIsRight(f, i.addr.id, p + 1);
    }
    hide TextCode, AllocatedCode, Allocate, Lookup, Emit;
    if i.CallFunc? {
      assert LinkedItems(ItemsFor(f, p), bases)[0] == MovImm(RAX, TargetAddress(bases, i.func));
    }
  }

  /** Operands are looked up where the text says. */
  lemma TextOperands(f: Source, p: nat)
    requires p < Len(f) && FitsUpTo(f, p + 1, SLOTS)
    ensures var i, t := InsAt(f, p), TableBefore(f, p);
            && (i.Op? ==> Lookup(t, i.left.id) == TextCode(f, i.left.id, p) && Lookup(t, i.right.id) == TextCode(f, i.right.id, p))
            && (i.Store? ==> Lookup(t, i.addr.id) == TextCode(f, i.addr.id, p))
            && (i.Store? ==> Lookup(t, i.stored.id) == TextCode(f, i.stored.id, p))
            && (i.CondBr? ==> Lookup(t, i.cond.id) == TextCode(f, i.cond.id, p))
            && (i.Ret? ==> Lookup(t, i.result.id) == TextCode(f, i.result.id, p))
  {
    hide TextCode, Lookup, Emit;
    AllocationsGrow(f, p, p + 1);
    match InsAt(f, p)
    case Op(_, l, r, _) =>
      TextCodeIsRight(f, l.id, p);
      TextCodeIsRight(f, r.id, p);
    case Store(a, v) =>
      TextCodeIsRight(f, a.id, p);
      TextCodeIsRight(f, v.id, p);
    case CondBr(c, _, _) => TextCodeIsRight(f, c.id, p);
    case Ret(v) => TextCodeIsRight(f, v.id, p);
    case _ =>
  }

  lemma OtherItems(f: Source, bases: seq<Word>, p: nat)
    requires p < Len(f) && FitsUpTo(f, p + 1, SLOTS) && !Allocates(InsAt(f, p), f.voidCall(p))
    ensures LinkedItems(ItemsFor(f, p), bases) == TextItems(f, bases, p)
  {
    hide TextCode, AllocatedCode, Allocate, Lookup, Replace, Emit, FitsUpTo;
    TextOperands(f, p);
  }

  lemma TextTarget(f: Source, bin: Binary, b: nat)
    requires bin.offsets == BlockOffsets(f, |f.blocks|)
    ensures TargetOf(bin.offsets, b) == BlockStart(f, b)
  {
    if b < |f.blocks| {
      BlockOffsetAt(f, |f.blocks|, b);
    }
  }

  lemma TextMeanings(f: Source, bases: seq<Word>, bin: Binary, p: nat, k: nat)
    requires p < Len(f) && bin.offsets == BlockOffsets(f, |f.blocks|) && k < |TextItems(f, bases, p)|
    ensures |Expected(f, bases, p)| == |TextItems(f, bases, p)|
    ensures MeaningHere(bin, CodeOffset(f, p), TextItems(f, bases, p), k) == Expected(f, bases, p)[k]
  {
    hide TextCode, CodeOffset, TargetOf, BlockStart, BlockOffsets;
    var i, items := InsAt(f, p), TextItems(f, bases, p);
    if i.Br? {
      TextTarget(f, bin, i.target);
      SizeOfSmall(items[..1]);
    } else if i.CondBr? {
      TextTarget(f, bin, i.onTrue);
      TextTarget(f, bin, i.onFalse);
      SizeOfSmall(items[..k + 1]);
    }
  }

  lemma EncodableLinked(f: Source, bases: seq<Word>, p: nat)
    requires p < Len(f) && ItemsEncodable(f, p)
    ensures forall a :: a in LinkedItems(ItemsFor(f, p), bases) ==> a.Encodable()
  {
    hide EmitInstr;
    var items := ItemsFor(f, p);
    forall k | 0 <= k < |items|
      ensures LinkedItem(items[k], bases).Encodable()
    {
      assert items[k] in items;
    }
  }

  /**
    In any bytes that start with a function's linked code, the code of every position whose registers
    the encoders can name decodes, from its first byte to the next position's, to exactly the
    instructions that the text asks for.
  */
  lemma PositionDecodes(f: Source, bases: seq<Word>, region: seq<Byte>, p: nat)
    requires FitsIn(f, SLOTS) && SizeOf(AllItems(f)) < 0x8000_0000 && LinkedCodeOf(f, bases) <= region
    requires p < Len(f) && TextEncodable(f, p)
    ensures DecodesTo(region, CodeOffset(f, p), Expected(f, bases, p), CodeOffset(f, p + 1))
  {
    hide Expected, TextItems, TextEncodable, ItemsEncodable, CodeReads, MeaningHere, Resolved, Emit, FitsUpTo, DecodesTo;
    FitsBefore(f, p + 1, SLOTS);
    var bin := Binary(LinkedItems(AllItems(f), bases), BlockOffsets(f, |f.blocks|), region);
    var items := TextItems(f, bases, p);
    LinkedReads(f, bases, bin, p);
    if Allocates(InsAt(f, p), f.voidCall(p)) {
      AllocatingItems(f, bases, p);
    } else {
      OtherItems(f, bases, p);
    }
    PositionEncodes(f, p);
    EncodableLinked(f, bases, p);
    forall k | 0 <= k < |items|
      ensures |Expected(f, bases, p)| == |items| && MeaningHere(bin, CodeOffset(f, p), items, k) == Expected(f, bases, p)[k]
    {
      TextMeanings(f, bases, bin, p, k);
    }
    SameLength(f, bases, p);
    assert items[..0] == [];
    ReadsDecode(bin, CodeOffset(f, p), items, CodeOffset(f, p + 1), 0, Expected(f, bases, p));
  }

  lemma SameLength(f: Source, bases: seq<Word>, p: nat)
    requires p < Len(f)
    ensures |Expected(f, bases, p)| == |TextItems(f, bases, p)|
  {
  }

  // ----- direct calls -----

  lemma CallItems(t: Table, i: Instr, voidCall: bool, bases: seq<Word>)
    requires i.CallFunc?
    ensures var items := LinkedItems(EmitInstr(t, i, voidCall).items, bases);
            |items| >= 2 && items[0] == MovImm(RAX, TargetAddress(bases, i.func)) && items[1] == CallRax
  {
    hide AllocatedCode, Allocate;
  }

  /**
    In any bytes that start with the linked code, whatever registers are used, a CALL_FUNC is a load of
    the address of the function it names and a call through it.
  */
  lemma CallReachesTarget(f: Source, bases: seq<Word>, region: seq<Byte>, p: nat)
    requires Integral(f) && SizeOf(AllItems(f)) < 0x8000_0000 && LinkedCodeOf(f, bases) <= region
    requires p < Len(f) && InsAt(f, p).CallFunc?
    ensures var here, g := CodeOffset(f, p), InsAt(f, p).func;
            && Decode(region, here) == Some(Decoded(IMovImm(RAX, if g < |bases| then bases[g] else 0), here + 10))
            && Decode(region, here + 10) == Some(Decoded(ICall(RAX), here + 13))
  {
    hide Decode, CodeReads, Resolved, Emit, EmitInstr, CodeOffset;
    var bin := Binary(LinkedItems(AllItems(f), bases), BlockOffsets(f, |f.blocks|), region);
    var items := LinkedItems(ItemsFor(f, p), bases);
    LinkedReads(f, bases, bin, p);
    CallItems(TableBefore(f, p), InsAt(f, p), f.voidCall(p), bases);
    assert items[..0] == [];
    SizeOfSmall(items[..1]);
    SizeOfSmall(items[..2]);
    ItemDecodesHere(bin, CodeOffset(f, p), items, CodeOffset(f, p + 1), 0);
    ItemDecodesHere(bin, CodeOffset(f, p), items, CodeOffset(f, p + 1), 1);
  }

  /** Every direct call of the text to a function of the module carries that function's address. */
  ghost predicate CallsLinked(f: Source, bases: seq<Word>, region: seq<Byte>) {
    forall p :: 0 <= p < Len(f) && InsAt(f, p).CallFunc? && InsAt(f, p).func < |bases| ==>
      CarriesAddress(region, CodeOffset(f, p) + 2, bases[InsAt(f, p).func])
  }

  ghost predicate CarriesAddress(region: seq<Byte>, offset: nat, address: Word) {
    offset + 8 <= |region| && Address(region, offset) == address
  }

  lemma AddressInPrefix(bytes: seq<Byte>, region: seq<Byte>, offset: nat)
    requires bytes <= region && offset + 8 <= |bytes|
    ensures Address(region, offset) == Address(bytes, offset)
  {
    assert region[offset..offset + 8] == bytes[offset..offset + 8];
  }

  lemma LinkedCallsCarry(f: Source, bases: seq<Word>, region: seq<Byte>)
    requires LinkedCodeOf(f, bases) <= region
    ensures CallsLinked(f, bases, region)
  {
    hide Address, Emit, Resolved, LinkAll, CallSites, Flat;
    var items, calls := AllItems(f), CallSites(AllItems(f));
    AllFieldsDisjoint(items);
    LinkingResolvesCalls(items, BlockOffsets(f, |f.blocks|), bases);
    forall p | 0 <= p < Len(f) && InsAt(f, p).CallFunc? && InsAt(f, p).func < |bases|
      ensures CarriesAddress(region, CodeOffset(f, p) + 2, bases[InsAt(f, p).func])
    {
      var c := CallSite(CodeOffset(f, p) + 2, InsAt(f, p).func);
      RecordedIffCalled(f, c);
      var k :| 0 <= k < |calls| && calls[k] == c;
      LinkedAddress(CodeOf(f), calls, bases, k);
      AddressInPrefix(LinkedCodeOf(f, bases), region, c.offset);
    }
  }
}

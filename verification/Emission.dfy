/**
  What the code generator emits, as functions: the instruction list of a function in emission
  order, its bytes with empty branch fields, and the bytes after back-patching.
*/
module Emission {
  import opened Words
  import opened Ir
  import opened X86
  import opened Allocator
  import opened ByteWriter

  // ----- instruction selection -----

  datatype Emitted = Emitted(items: seq<Asm>, table: Table)

  /**
    The instructions for i with the register table t, and the table afterwards. A direct call reads
    its return type from memory nobody wrote: `voidCall` says whether that happens to read as void.
  */
  function EmitInstr(t: Table, i: Instr, voidCall: bool): Emitted {
    match i
    case Const(kind, imm, g) =>
      if kind.ConstI16? || kind.ConstI8? then Emitted([], t)
      else Emitted([MovImm(AllocatedCode(t), imm)], Allocate(t, g.id))
    case Op(op, l, r, g) =>
      if op != Add then Emitted([], t)
      else Emitted([AddReg(Lookup(t, l.id), Lookup(t, r.id))], Replace(t, Some(l.id), Some(g.id)))
    case Not(_, _) => Emitted([], t)
    case Load(a, _, g) =>
      var u := Allocate(t, g.id);
      Emitted([LoadMem(Lookup(u, a.id), AllocatedCode(t))], u)
    case Store(a, v) => Emitted([StoreMem(Lookup(t, v.id), Lookup(t, a.id))], t)
    case Br(b) => Emitted([JmpTo(b)], t)
    case CondBr(c, b, e) => Emitted([CmpZero(Lookup(t, c.id)), JzTo(e), JmpTo(b)], t)
    case CallPtr(_, _, _) => Emitted([], t)
    case CallFunc(f, _, g) =>
      if voidCall then Emitted([CallHole(f), CallRax], t)
      else Emitted([CallHole(f), CallRax] + Move(RAX, AllocatedCode(t)), Allocate(t, g.id))
    case Ret(v) => Emitted(Move(Lookup(t, v.id), RAX) + [Return], t)
    case RetVoid => Emitted([Return], t)
  }

  /** A register move to itself is not emitted. */
  function Move(src: nat, dst: nat): seq<Asm> {
    if src == dst then [] else [MovReg(src, dst)]
  }

  /** All instructions of a function, block after block. */
  function Flat(blocks: seq<seq<Instr>>): seq<Instr> {
    if |blocks| == 0 then [] else Flat(blocks[..|blocks| - 1]) + blocks[|blocks| - 1]
  }

  function FlatStart(blocks: seq<seq<Instr>>, b: nat): nat
    requires b <= |blocks|
  {
    |Flat(blocks[..b])|
  }

  lemma {:induction false} FlatPrefix(blocks: seq<seq<Instr>>, b: nat)
    requires b <= |blocks|
    ensures Flat(blocks[..b]) <= Flat(blocks)
    decreases |blocks| - b
  {
    if b < |blocks| {
      FlatPrefix(blocks, b + 1);
      assert blocks[..b + 1][..b] == blocks[..b];
    } else {
      assert blocks[..b] == blocks;
    }
  }

  lemma FlatAt(blocks: seq<seq<Instr>>, b: nat, j: nat)
    requires b < |blocks| && j <= |blocks[b]|
    ensures FlatStart(blocks, b + 1) == FlatStart(blocks, b) + |blocks[b]|
    ensures FlatStart(blocks, b) + j <= |Flat(blocks)|
    ensures j < |blocks[b]| ==> FlatStart(blocks, b) + j < |Flat(blocks)|
    ensures j < |blocks[b]| ==> Flat(blocks)[FlatStart(blocks, b) + j] == blocks[b][j]
  {
    FlatPrefix(blocks, b + 1);
    assert blocks[..b + 1][..b] == blocks[..b];
    var before, through := Flat(blocks[..b]), Flat(blocks[..b + 1]);
    assert through == before + blocks[b];
    if j < |blocks[b]| {
      assert Flat(blocks)[|before| + j] == through[|before| + j];
    }
  }

  /** A function as the generator sees it; voidCall gives the stray reading for each position. */
  datatype Source = Source(params: seq<DataType>, ret: DataType, blocks: seq<seq<Instr>>, voidCall: nat -> bool) {
    const args: nat := |params|
  }

  predicate IsSource(f: Source, g: Func) {
    f.blocks == g.blocks && f.params == g.args && f.ret == g.ret
  }

  /** An instruction without decimal operands that is not an indirect call: the model has its code. */
  predicate IntegralInstr(i: Instr) {
    match i
    case Const(_, _, g) => !g.ty.IsDecimal()
    case Op(op, l, _, _) => op == Add ==> !l.ty.IsDecimal()
    case CallPtr(_, _, _) => false
    case _ => true
  }

  predicate IntegralTypes(f: Source) {
    !f.ret.IsDecimal() && forall a :: 0 <= a < |f.params| ==> !f.params[a].IsDecimal()
  }

  /** Functions whose code the model has: integer arguments and result, and such instructions only. */
  ghost predicate Integral(f: Source) {
    && IntegralTypes(f)
    && forall b: nat, j: nat :: b < |f.blocks| && j < |f.blocks[b]| ==> IntegralInstr(f.blocks[b][j])
  }

  /** The float function of the sample program: 40 + 20 + 100. */
  function FloatSample(): Source {
    var k := [Value(1, F32), Value(2, F32), Value(3, F32)];
    Source([I64], F32,
           [[Const(ConstI32, 0x4220_0000, k[0]), Const(ConstI32, 0x41A0_0000, k[1]), Const(ConstI32, 0x42C8_0000, k[2]),
             Op(Add, k[0], k[1], Value(4, F32)), Op(Add, Value(4, F32), k[2], Value(5, F32)), Ret(Value(5, F32))]],
           _ => false)
  }

  /** It is left out for its return type, its constants and its additions alike. */
  lemma FloatSampleIsNotIntegral()
    ensures !Integral(FloatSample()) && !IntegralTypes(FloatSample())
    ensures forall j: nat :: j < 5 ==> !IntegralInstr(FloatSample().blocks[0][j])
  {
  }

  /** Items and table after the first p instructions. */
  function Emit(f: Source, p: nat): Emitted
    requires p <= |Flat(f.blocks)|
  {
    if p == 0 then Emitted([], AssignArgs(InitTable(), f.args))
    else
      var before := Emit(f, p - 1);
      var e := EmitInstr(before.table, Flat(f.blocks)[p - 1], f.voidCall(p - 1));
      Emitted(before.items + e.items, e.table)
  }

  function AllItems(f: Source): seq<Asm> {
    Emit(f, |Flat(f.blocks)|).items
  }

  // ----- bytes -----

  function SizeOf(items: seq<Asm>): nat {
    if |items| == 0 then 0 else SizeOf(items[..|items| - 1]) + items[|items| - 1].Size()
  }

  lemma {:induction false} SizeOfConcat(a: seq<Asm>, b: seq<Asm>)
    ensures SizeOf(a + b) == SizeOf(a) + SizeOf(b)
    decreases |b|
  {
    if |b| > 0 {
      SizeOfConcat(a, b[..|b| - 1]);
      assert (a + b)[..|a + b| - 1] == a + b[..|b| - 1];
    } else {
      assert a + b == a;
    }
  }

  /** The bytes as first written: branch fields are zero. */
  function Raw(items: seq<Asm>): (bytes: seq<Byte>)
    ensures |bytes| == SizeOf(items)
  {
    if |items| == 0 then [] else Raw(items[..|items| - 1]) + Encode(items[|items| - 1], 0)
  }

  datatype Site = Site(offset: nat, block: nat)

  /** The rel32 fields to patch, in emission order. */
  function Sites(items: seq<Asm>): seq<Site> {
    if |items| == 0 then []
    else
      var a := items[|items| - 1];
      var before := items[..|items| - 1];
      Sites(before) + if a.IsBranch() then [Site(SizeOf(before) + a.Hole(), a.block)] else []
  }

  datatype CallSite = CallSite(offset: nat, func: nat)

  /** The immediates that the link step fills in. */
  function CallSites(items: seq<Asm>): seq<CallSite> {
    if |items| == 0 then []
    else
      var a := items[|items| - 1];
      var before := items[..|items| - 1];
      CallSites(before) + if a.CallHole? then [CallSite(SizeOf(before) + 2, a.func)] else []
  }

  /** Code offsets of the blocks: the bytes emitted before each. */
  function BlockOffsets(f: Source, n: nat): (offsets: seq<nat>)
    requires n <= |f.blocks|
    ensures |offsets| == n
  {
    if n == 0 then []
    else
      FlatPrefix(f.blocks, n - 1);
      BlockOffsets(f, n - 1) + [SizeOf(Emit(f, FlatStart(f.blocks, n - 1)).items)]
  }

  function TargetOf(offsets: seq<nat>, block: nat): nat {
    if block < |offsets| then offsets[block] else 0
  }

  /** The displacement stored in the field at offset: relative to the end of the field. */
  function Displacement(offsets: seq<nat>, s: Site): int {
    TargetOf(offsets, s.block) - s.offset - 4
  }

  /** The bytes with every branch resolved. */
  function Resolved(items: seq<Asm>, offsets: seq<nat>): (bytes: seq<Byte>)
    ensures |bytes| == SizeOf(items)
  {
    if |items| == 0 then []
    else
      var a := items[|items| - 1];
      var before := items[..|items| - 1];
      Resolved(before, offsets) + Encode(a, ItemDisplacement(items, |items| - 1, offsets))
  }

  /** The finished code of a function. */
  function CodeOf(f: Source): (code: seq<Byte>)
    ensures |code| == SizeOf(AllItems(f))
  {
    Resolved(AllItems(f), BlockOffsets(f, |f.blocks|))
  }

  function ItemDisplacement(items: seq<Asm>, k: nat, offsets: seq<nat>): int
    requires k < |items|
  {
    if items[k].IsBranch()
    then Displacement(offsets, Site(SizeOf(items[..k]) + items[k].Hole(), items[k].block))
    else 0
  }

  // ----- back-patching -----

  ghost predicate SitesFit(sites: seq<Site>, size: nat) {
    forall k :: 0 <= k < |sites| ==> sites[k].offset + 4 <= size
  }

  /** The patch loop: the displacement of each site, truncated to 32 bits, over its field. */
  function PatchAll(bytes: seq<Byte>, sites: seq<Site>, offsets: seq<nat>): (r: seq<Byte>)
    requires SitesFit(sites, |bytes|)
    ensures |r| == |bytes|
  {
    if |sites| == 0 then bytes
    else
      var s := sites[|sites| - 1];
      Patched(PatchAll(bytes, sites[..|sites| - 1], offsets), s.offset, ToLE(4, Displacement(offsets, s)))
  }

  lemma {:induction false} SitesInside(items: seq<Asm>)
    ensures SitesFit(Sites(items), SizeOf(items))
  {
    if |items| > 0 {
      SitesInside(items[..|items| - 1]);
    }
  }

  /** Patches that fit a prefix leave the rest alone. */
  lemma {:induction false} PatchPrefix(bytes: seq<Byte>, tail: seq<Byte>, sites: seq<Site>, offsets: seq<nat>)
    requires SitesFit(sites, |bytes|)
    ensures PatchAll(bytes + tail, sites, offsets) == PatchAll(bytes, sites, offsets) + tail
    decreases |sites|
  {
    if |sites| > 0 {
      var before, s := sites[..|sites| - 1], sites[|sites| - 1];
      PatchPrefix(bytes, tail, before, offsets);
      PatchedHead(PatchAll(bytes, before, offsets), tail, s.offset, ToLE(4, Displacement(offsets, s)));
    }
  }

  lemma PatchLast(bytes: seq<Byte>, a: Asm, disp: int)
    requires a.IsBranch()
    ensures Patched(bytes + Encode(a, 0), |bytes| + a.Hole(), ToLE(4, disp)) == bytes + Encode(a, disp)
  {
    PatchedTail(bytes, Encode(a, 0), a.Hole(), ToLE(4, disp));
    assert Patched(Encode(a, 0), a.Hole(), ToLE(4, disp)) == Encode(a, disp);
  }

  /** Back-patching resolves every branch, forward or backward, and touches nothing else. */
  lemma {:induction false} PatchingResolves(items: seq<Asm>, offsets: seq<nat>)
    ensures SitesFit(Sites(items), SizeOf(items))
    ensures PatchAll(Raw(items), Sites(items), offsets) == Resolved(items, offsets)
  {
    SitesInside(items);
    if |items| > 0 {
      var n := |items| - 1;
      var before, a := items[..n], items[n];
      PatchingResolves(before, offsets);
      PatchPrefix(Raw(before), Encode(a, 0), Sites(before), offsets);
      if a.IsBranch() {
        var s := Site(SizeOf(before) + a.Hole(), a.block);
        assert Sites(items)[..|Sites(before)|] == Sites(before);
        PatchLast(Resolved(before, offsets), a, Displacement(offsets, s));
      } else {
        assert Sites(items) == Sites(before);
        assert Encode(a, 0) == Encode(a, ItemDisplacement(items, n, offsets));
      }
    }
  }

  // ----- the finished code decodes to the intended instructions -----

  lemma {:induction false} SizeOfPrefix(items: seq<Asm>, j: nat, k: nat)
    requires j <= k <= |items|
    ensures SizeOf(items[..j]) <= SizeOf(items[..k])
    decreases k - j
  {
    if j < k {
      SizeOfPrefix(items, j, k - 1);
      assert items[..k][..k - 1] == items[..k - 1];
    }
  }

  lemma {:induction false} ResolvedAt(items: seq<Asm>, offsets: seq<nat>, k: nat)
    requires k < |items|
    ensures SizeOf(items[..k]) + items[k].Size() <= SizeOf(items)
    ensures var p := SizeOf(items[..k]);
            Resolved(items, offsets)[p..p + items[k].Size()] == Encode(items[k], ItemDisplacement(items, k, offsets))
    decreases |items|
  {
    hide Encode;
    var n := |items| - 1;
    var p, before := SizeOf(items[..k]), items[..n];
    if k < n {
      ResolvedAt(before, offsets, k);
      assert before[..k] == items[..k] && before[k] == items[k];
      assert ItemDisplacement(before, k, offsets) == ItemDisplacement(items, k, offsets);
      SamePart(Resolved(before, offsets), Encode(items[n], ItemDisplacement(items, n, offsets)), p, p + items[k].Size());
    }
  }

  lemma SamePart(bytes: seq<Byte>, tail: seq<Byte>, p: nat, q: nat)
    requires p <= q <= |bytes|
    ensures (bytes + tail)[p..q] == bytes[p..q]
  {
  }

  /** The offset of item k, and where it sends control. */
  function OffsetOf(items: seq<Asm>, k: nat): nat
    requires k <= |items|
  {
    SizeOf(items[..k])
  }

  predicate SmallCode(items: seq<Asm>, offsets: seq<nat>) {
    SizeOf(items) < 0x8000_0000 && forall b :: 0 <= b < |offsets| ==> offsets[b] <= SizeOf(items)
  }

  /**
    In any bytes that start with the finished code, decoding at the offset of item k gives exactly the
    instruction meant, ending at the offset of item k+1; a branch leads to the offset of its block.
  */
  lemma DecodesItemIn(code: seq<Byte>, items: seq<Asm>, offsets: seq<nat>, k: nat)
    requires Resolved(items, offsets) <= code
    requires k < |items| && items[k].Encodable() && SmallCode(items, offsets)
    ensures var d := Decode(code, OffsetOf(items, k));
            && d == Some(Decoded(Meaning(items[k], ItemDisplacement(items, k, offsets)), OffsetOf(items, k + 1)))
            && (items[k].IsBranch() ==>
                  OffsetOf(items, k + 1) + ItemDisplacement(items, k, offsets) == TargetOf(offsets, items[k].block))
  {
    hide Decode, Resolved;
    assert items[..k + 1][..k] == items[..k];
    ResolvedAt(items, offsets, k);
    var p, q := OffsetOf(items, k), OffsetOf(items, k) + items[k].Size();
    assert code[p..q] == Resolved(items, offsets)[p..q];
    DecodesAt(code, p, items[k], ItemDisplacement(items, k, offsets));
  }

  lemma DecodesItem(items: seq<Asm>, offsets: seq<nat>, k: nat)
    requires k < |items| && items[k].Encodable() && SmallCode(items, offsets)
    ensures var d := Decode(Resolved(items, offsets), OffsetOf(items, k));
            && d == Some(Decoded(Meaning(items[k], ItemDisplacement(items, k, offsets)), OffsetOf(items, k + 1)))
            && (items[k].IsBranch() ==>
                  OffsetOf(items, k + 1) + ItemDisplacement(items, k, offsets) == TargetOf(offsets, items[k].block))
  {
    DecodesItemIn(Resolved(items, offsets), items, offsets, k);
  }

  // ----- a linear sweep over the finished code -----

  /** The instructions from p to the end of the code, each starting where the one before ends. */
  function Disassemble(code: seq<Byte>, p: nat): Option<seq<Ins>>
    decreases |code| - p
  {
    if p == |code| then Some([])
    else match Decode(code, p)
      case None => None
      case Some(d) =>
        if !(p < d.next <= |code|) then None
        else match Disassemble(code, d.next)
          case None => None
          case Some(rest) => Some([d.ins] + rest)
  }

  /** What the emitted instructions mean once every branch has its displacement. */
  function Meanings(items: seq<Asm>, offsets: seq<nat>): (r: seq<Ins>)
    ensures |r| == |items|
    ensures forall k :: 0 <= k < |items| ==> r[k] == Meaning(items[k], ItemDisplacement(items, k, offsets))
  {
    seq(|items|, k requires 0 <= k < |items| => Meaning(items[k], ItemDisplacement(items, k, offsets)))
  }

  lemma {:induction false} DisassemblesFrom(items: seq<Asm>, offsets: seq<nat>, k: nat)
    requires SmallCode(items, offsets) && k <= |items|
    requires forall a :: a in items ==> a.Encodable()
    ensures Disassemble(Resolved(items, offsets), OffsetOf(items, k)) == Some(Meanings(items, offsets)[k..])
    decreases |items| - k
  {
    hide Decode, Resolved, Meaning, SmallCode, ItemDisplacement;
    var code, meant := Resolved(items, offsets), Meanings(items, offsets);
    if k < |items| {
      DecodesItem(items, offsets, k);
      DisassemblesFrom(items, offsets, k + 1);
      SizeOfPrefix(items, k + 1, |items|);
      assert items[..|items|] == items && items[..k + 1][..k] == items[..k];
      assert OffsetOf(items, k) < OffsetOf(items, k + 1) <= |code|;
      assert meant[k..] == [meant[k]] + meant[k + 1..];
    } else {
      assert items[..k] == items;
      assert meant[k..] == [];
    }
  }

  /** Swept from its first byte, the finished code is exactly the emitted instructions: no gap, no overlap. */
  lemma DisassemblesWhole(items: seq<Asm>, offsets: seq<nat>)
    requires SmallCode(items, offsets) && forall a :: a in items ==> a.Encodable()
    ensures Disassemble(Resolved(items, offsets), 0) == Some(Meanings(items, offsets))
  {
    DisassemblesFrom(items, offsets, 0);
    assert OffsetOf(items, 0) == 0;
    assert Meanings(items, offsets)[0..] == Meanings(items, offsets);
  }

  lemma ItemMisread(items: seq<Asm>, offsets: seq<nat>, k: nat)
    requires k < |items| && items[k].Codes() && !items[k].Encodable()
    ensures Misread(Resolved(items, offsets), OffsetOf(items, k), Meanings(items, offsets)[k])
  {
    hide Decode, Resolved;
    ResolvedAt(items, offsets, k);
    DecodesExactly(Resolved(items, offsets), OffsetOf(items, k), items[k], ItemDisplacement(items, k, offsets));
  }

  /** Nothing is read past an instruction that the encoders cannot name. */
  lemma {:induction false} DisassemblyStops(items: seq<Asm>, offsets: seq<nat>, k: nat, bad: nat)
    requires SmallCode(items, offsets) && k <= bad < |items|
    requires items[bad].Codes() && !items[bad].Encodable() && forall j :: k <= j < bad ==> items[j].Encodable()
    ensures Disassemble(Resolved(items, offsets), OffsetOf(items, k)) != Some(Meanings(items, offsets)[k..])
    decreases bad - k
  {
    hide Decode, Resolved, Meaning, SmallCode, ItemDisplacement;
    var code, meant := Resolved(items, offsets), Meanings(items, offsets);
    assert meant[k..][0] == meant[k];
    if k == bad {
      ItemMisread(items, offsets, k);
    } else {
      DecodesItem(items, offsets, k);
      DisassemblyStops(items, offsets, k + 1, bad);
      assert meant[k..][1..] == meant[k + 1..];
    }
  }

  lemma {:induction false} FirstUnencodable(items: seq<Asm>) returns (bad: nat)
    requires exists a :: a in items && !a.Encodable()
    ensures bad < |items| && !items[bad].Encodable() && forall j :: 0 <= j < bad ==> items[j].Encodable()
  {
    var before := items[..|items| - 1];
    if exists a :: a in before && !a.Encodable() {
      bad := FirstUnencodable(before);
    } else {
      bad := |items| - 1;
      forall j | 0 <= j < bad
        ensures items[j].Encodable()
      {
        assert items[j] == before[j] && before[j] in before;
      }
      assert exists j :: 0 <= j < |items| && !items[j].Encodable();
    }
  }

  /** The sweep gives back what was emitted exactly when every emitted instruction is encodable. */
  lemma DisassemblesIff(items: seq<Asm>, offsets: seq<nat>)
    requires SmallCode(items, offsets) && forall a :: a in items ==> a.Codes()
    ensures Disassemble(Resolved(items, offsets), 0) == Some(Meanings(items, offsets)) <==>
            forall a :: a in items ==> a.Encodable()
  {
    hide Disassemble, Resolved, SmallCode;
    if forall a :: a in items ==> a.Encodable() {
      DisassemblesWhole(items, offsets);
    } else {
      var bad := FirstUnencodable(items);
      DisassemblyStops(items, offsets, 0, bad);
      assert OffsetOf(items, 0) == 0;
      assert Meanings(items, offsets)[0..] == Meanings(items, offsets);
    }
  }
}

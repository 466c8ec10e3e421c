/**
  The generated code does what the interpreter does, on functions of constants, additions, 64-bit
  loads and stores, branches and returns. `Live` certificates say which values each block may use
  and how a register represents the interpreter's slot.
*/
module Simulation {
  import opened Words
  import opened Ir
  import opened Interp
  import opened Activation
  import opened X86
  import opened Allocator
  import opened Emission

  // ----- how registers represent slots -----

  /** The register holds the slot, its low half zero-extended, or its low half sign-extended. */
  datatype Form = Exact | Zext | Sext

  function RegOf(c: Form, w: Word): Word {
    match c
    case Exact => w
    case Zext => w % W32
    case Sext => Wrap(SignedAt(Bits32, w))
  }

  /** Where a usable value is, and in what form. */
  datatype Place = Place(form: Form, reg: nat)

  type Places = map<nat, Place>

  /** A value written to a register displaces whatever was there. */
  function Put(c: Places, id: nat, place: Place): Places {
    (map v | v in c && c[v].reg != place.reg :: c[v])[id := place]
  }

  function Flow(c: Places, t: Table, i: Instr): Places {
    match i
    case Const(kind, _, g) => Put(c, g.id, Place(if kind.ConstI32? then Sext else Exact, AllocatedCode(t)))
    case Op(_, l, _, g) => Put(c, g.id, Place(Zext, Lookup(t, l.id)))
    case Load(_, _, g) => Put(c, g.id, Place(Exact, AllocatedCode(t)))
    case _ => c
  }

  // ----- the fragment -----

  function PositionOf(f: Source, b: nat, j: nat): nat
    requires b < |f.blocks| && j <= |f.blocks[b]|
    ensures PositionOf(f, b, j) <= |Flat(f.blocks)|
  {
    FlatAt(f.blocks, b, j);
    FlatStart(f.blocks, b) + j
  }

  function TableAt(f: Source, b: nat, j: nat): Table
    requires b < |f.blocks| && j <= |f.blocks[b]|
  {
    Emit(f, PositionOf(f, b, j)).table
  }

  /** What is where after the first j instructions of block b, given what is where at its start. */
  function PlacesAt(f: Source, entry: Places, b: nat, j: nat): Places
    requires b < |f.blocks| && j <= |f.blocks[b]|
  {
    if j == 0 then entry else Flow(PlacesAt(f, entry, b, j - 1), TableAt(f, b, j - 1), f.blocks[b][j - 1])
  }

  /** The block entered expects no value that is missing, represented differently or elsewhere. */
  ghost predicate Joins(live: seq<Places>, c: Places, target: nat) {
    target < |live| && forall id :: id in live[target] ==> id in c && c[id] == live[target][id]
  }

  /** The register the generator looks up for v is where v is. */
  predicate Usable(t: Table, c: Places, v: Value) {
    v.id in c && c[v.id].reg == Lookup(t, v.id) && c[v.id].reg < 8
  }

  /** An address register whose ModR/M encoding has no special meaning. */
  predicate Plain(reg: nat) {
    reg < 8 && reg != 4 && reg != 5
  }

  predicate Wide(ty: DataType) {
    ty == I64 || ty == Ptr
  }

  predicate SupportedData(t: Table, c: Places, i: Instr) {
    match i
    case Const(kind, imm, g) =>
      && !g.ty.IsDecimal() && AllocatedCode(t) < 8 && !kind.ConstI16? && !kind.ConstI8?
      && (kind.ConstI32? ==> imm == Wrap(SignedAt(Bits32, imm)))
    case Op(op, l, r, _) => op == Add && !l.ty.IsDecimal() && Usable(t, c, l) && Usable(t, c, r)
    case Load(a, ty, g) =>
      && Plain(AllocatedCode(t)) && Wide(ty)
      && Usable(Allocate(t, g.id), c, a) && c[a.id].form == Exact && Plain(c[a.id].reg)
    case Store(a, v) =>
      && Wide(v.ty) && Usable(t, c, a) && c[a.id].form == Exact && Plain(c[a.id].reg)
      && Usable(t, c, v) && c[v.id].form == Exact
    case _ => false
  }

  ghost predicate Supported(live: seq<Places>, t: Table, c: Places, i: Instr) {
    match i
    case Br(b) => Joins(live, c, b)
    case CondBr(v, b, e) => Usable(t, c, v) && Joins(live, c, b) && Joins(live, c, e)
    case Ret(v) => v.id in c && c[v.id].reg == Lookup(t, v.id) && c[v.id].reg < 16
    case _ => SupportedData(t, c, i)
  }

  ghost predicate JitOk(f: Source, live: seq<Places>) {
    && |live| == |f.blocks| && IntegralTypes(f)
    && (forall b: nat, j: nat :: b < |f.blocks| && j < |f.blocks[b]| ==>
          Supported(live, TableAt(f, b, j), PlacesAt(f, live[b], b, j), f.blocks[b][j]))
    && SizeOf(AllItems(f)) < 0x8000_0000
  }

  // ----- the finished code -----

  lemma {:induction false} EmitGrows(f: Source, p: nat, q: nat)
    requires p <= q <= |Flat(f.blocks)|
    ensures Emit(f, p).items <= Emit(f, q).items
    decreases q - p
  {
    hide EmitInstr, Flat;
    if p < q {
      EmitGrows(f, p, q - 1);
    }
  }

  lemma InstrSize(t: Table, i: Instr, voidCall: bool)
    ensures SizeOf(EmitInstr(t, i, voidCall).items) <= 16
  {
    hide Lookup, Allocate, AllocatedCode, Replace;
    var items := EmitInstr(t, i, voidCall).items;
    if |items| > 0 {
      SizeOfSmall(items);
    }
  }

  lemma SizeOfSmall(items: seq<Asm>)
    requires 1 <= |items| <= 3
    ensures SizeOf(items) == items[0].Size() + (if |items| > 1 then items[1].Size() else 0)
                             + (if |items| > 2 then items[2].Size() else 0)
  {
    if |items| > 1 {
      SizeOfSmall(items[..|items| - 1]);
    }
  }

  /** No instruction takes more than 16 bytes of code. */
  lemma {:induction false} CodeSize(f: Source, p: nat)
    requires p <= |Flat(f.blocks)|
    ensures SizeOf(Emit(f, p).items) <= 16 * p
  {
    if p > 0 {
      CodeSize(f, p - 1);
      var e := EmitInstr(Emit(f, p - 1).table, Flat(f.blocks)[p - 1], f.voidCall(p - 1));
      InstrSize(Emit(f, p - 1).table, Flat(f.blocks)[p - 1], f.voidCall(p - 1));
      SizeOfConcat(Emit(f, p - 1).items, e.items);
    }
  }

  /** The code offset of position p. */
  function CodeOffset(f: Source, p: nat): nat
    requires p <= |Flat(f.blocks)|
  {
    SizeOf(Emit(f, p).items)
  }

  /** The items emitted for position p. */
  function ItemsFor(f: Source, p: nat): seq<Asm>
    requires p < |Flat(f.blocks)|
  {
    EmitInstr(Emit(f, p).table, Flat(f.blocks)[p], f.voidCall(p)).items
  }

  lemma ItemsArePlaced(f: Source, p: nat)
    requires p < |Flat(f.blocks)|
    ensures Emit(f, p).items + ItemsFor(f, p) <= AllItems(f)
    ensures CodeOffset(f, p + 1) == CodeOffset(f, p) + SizeOf(ItemsFor(f, p))
  {
    EmitGrows(f, p + 1, |Flat(f.blocks)|);
    assert Emit(f, p + 1).items == Emit(f, p).items + ItemsFor(f, p);
    SizeOfConcat(Emit(f, p).items, ItemsFor(f, p));
  }

  lemma PlacedAt(all: seq<Asm>, before: seq<Asm>, items: seq<Asm>, n: nat)
    requires before + items <= all && n <= |items|
    ensures |before| + n <= |all| && OffsetOf(all, |before| + n) == SizeOf(before) + SizeOf(items[..n])
    ensures n < |items| ==> |before| + n < |all| && all[|before| + n] == items[n]
  {
    assert all[..|before| + n] == before + items[..n];
    SizeOfConcat(before, items[..n]);
    if n < |items| {
      assert (before + items)[|before| + n] == items[n];
    }
  }

  lemma {:induction false} BlockOffsetAt(f: Source, n: nat, b: nat)
    requires b < n <= |f.blocks|
    ensures FlatStart(f.blocks, b) <= |Flat(f.blocks)|
    ensures BlockOffsets(f, n)[b] == CodeOffset(f, FlatStart(f.blocks, b)) <= SizeOf(AllItems(f))
  {
    if b < n - 1 {
      BlockOffsetAt(f, n - 1, b);
    } else {
      FlatPrefix(f.blocks, b);
      var p := FlatStart(f.blocks, b);
      EmitGrows(f, p, |Flat(f.blocks)|);
      SizeOfPrefix(AllItems(f), |Emit(f, p).items|, |AllItems(f)|);
      assert AllItems(f)[..|Emit(f, p).items|] == Emit(f, p).items;
      assert AllItems(f)[..|AllItems(f)|] == AllItems(f);
    }
  }

  lemma CodeIsSmall(f: Source)
    requires SizeOf(AllItems(f)) < 0x8000_0000
    ensures SmallCode(AllItems(f), BlockOffsets(f, |f.blocks|))
  {
    forall b | 0 <= b < |f.blocks|
      ensures BlockOffsets(f, |f.blocks|)[b] <= SizeOf(AllItems(f))
    {
      BlockOffsetAt(f, |f.blocks|, b);
    }
  }

  /** The instructions of a function, its block offsets, and bytes that start with its finished code. */
  datatype Binary = Binary(items: seq<Asm>, offsets: seq<nat>, code: seq<Byte>)

  ghost predicate BuiltFrom(bin: Binary, f: Source) {
    && bin.items == AllItems(f)
    && bin.offsets == BlockOffsets(f, |f.blocks|)
    && Resolved(bin.items, bin.offsets) <= bin.code
  }

  lemma BinaryExists(f: Source, code: seq<Byte>) returns (bin: Binary)
    requires CodeOf(f) <= code
    ensures BuiltFrom(bin, f) && bin.code == code
  {
    bin := Binary(AllItems(f), BlockOffsets(f, |f.blocks|), code);
  }

  /** From byte offset `start`, the code decodes to `items` one after the other, and then is at `end`. */
  ghost predicate CodeReads(bin: Binary, start: nat, items: seq<Asm>, end: nat) {
    && end == start + SizeOf(items)
    && forall n :: 0 <= n < |items| && items[n].Encodable() ==> ItemReads(bin, start, items, n)
  }

  ghost predicate ItemReads(bin: Binary, start: nat, items: seq<Asm>, n: nat)
    requires n < |items|
  {
    exists rel: int :: ItemDecodes(bin, start, items, n, rel)
  }

  ghost predicate ItemDecodes(bin: Binary, start: nat, items: seq<Asm>, n: nat, rel: int)
    requires n < |items|
  {
    var next := start + SizeOf(items[..n + 1]);
    && Decode(bin.code, start + SizeOf(items[..n])) == Some(Decoded(Meaning(items[n], rel), next))
    && (items[n].IsBranch() ==> next + rel == TargetOf(bin.offsets, items[n].block))
  }

  lemma ItemReadsAt(bin: Binary, start: nat, items: seq<Asm>, n: nat, k: nat)
    requires Resolved(bin.items, bin.offsets) <= bin.code && SmallCode(bin.items, bin.offsets)
    requires n < |items| && k < |bin.items| && bin.items[k] == items[n] && items[n].Encodable()
    requires OffsetOf(bin.items, k) == start + SizeOf(items[..n])
    requires OffsetOf(bin.items, k + 1) == start + SizeOf(items[..n + 1])
    ensures ItemReads(bin, start, items, n)
  {
    hide Decode, Resolved, Meaning, ItemDisplacement;
    var p, next := start + SizeOf(items[..n]), start + SizeOf(items[..n + 1]);
    var rel := ItemDisplacement(bin.items, k, bin.offsets);
    DecodesThere(bin, items[n], k, p, next, rel);
    assert ItemDecodes(bin, start, items, n, rel);
  }

  lemma DecodesThere(bin: Binary, a: Asm, k: nat, p: nat, next: nat, rel: int)
    requires Resolved(bin.items, bin.offsets) <= bin.code && SmallCode(bin.items, bin.offsets)
    requires k < |bin.items| && bin.items[k] == a && a.Encodable()
    requires p == OffsetOf(bin.items, k) && next == OffsetOf(bin.items, k + 1)
    requires rel == ItemDisplacement(bin.items, k, bin.offsets)
    ensures Decode(bin.code, p) == Some(Decoded(Meaning(a, rel), next))
    ensures a.IsBranch() ==> next + rel == TargetOf(bin.offsets, a.block)
  {
    DecodesItemIn(bin.code, bin.items, bin.offsets, k);
  }

  lemma ItemReadsFrom(bin: Binary, before: seq<Asm>, items: seq<Asm>, n: nat)
    requires before + items <= bin.items && Resolved(bin.items, bin.offsets) <= bin.code
    requires SmallCode(bin.items, bin.offsets) && n < |items| && items[n].Encodable()
    ensures ItemReads(bin, SizeOf(before), items, n)
  {
    hide SmallCode, Resolved, ItemReads;
    PlacedAt(bin.items, before, items, n);
    PlacedAt(bin.items, before, items, n + 1);
    assert bin.items[|before| + n] == (before + items)[|before| + n];
    ItemReadsAt(bin, SizeOf(before), items, n, |before| + n);
  }

  lemma ReadsFrom(bin: Binary, before: seq<Asm>, items: seq<Asm>)
    requires before + items <= bin.items && Resolved(bin.items, bin.offsets) <= bin.code
    requires SmallCode(bin.items, bin.offsets)
    ensures CodeReads(bin, SizeOf(before), items, SizeOf(before) + SizeOf(items))
  {
    hide SmallCode, Resolved, ItemReads;
    forall n | 0 <= n < |items| && items[n].Encodable()
      ensures ItemReads(bin, SizeOf(before), items, n)
    {
      ItemReadsFrom(bin, before, items, n);
    }
  }

  /** At the offset of position p the code reads as what the generator emitted for p. */
  lemma PositionReads(f: Source, bin: Binary, p: nat)
    requires BuiltFrom(bin, f) && SizeOf(AllItems(f)) < 0x8000_0000 && p < |Flat(f.blocks)|
    ensures CodeReads(bin, CodeOffset(f, p), ItemsFor(f, p), CodeOffset(f, p + 1))
  {
    hide EmitInstr, Emit, CodeReads, SmallCode, Flat, SizeOf, Resolved, BlockOffsets;
    ItemsArePlaced(f, p);
    CodeIsSmall(f);
    ReadsFrom(bin, Emit(f, p).items, ItemsFor(f, p));
  }

  lemma BlockStarts(f: Source, bin: Binary, b: nat)
    requires BuiltFrom(bin, f) && b < |f.blocks|
    ensures TargetOf(bin.offsets, b) == CodeOffset(f, PositionOf(f, b, 0))
  {
    BlockOffsetAt(f, |f.blocks|, b);
  }

  // ----- registers against slots -----

  /** Every usable value is in its register, in the form its class says. */
  ghost predicate RegsMatch(c: Places, regs: map<nat, Word>, cpu: seq<Word>) {
    |cpu| == 16 && forall id :: id in c ==>
      id in regs && c[id].reg < 16 && cpu[c[id].reg] == RegOf(c[id].form, regs[id])
  }

  lemma RegOfLow(c: Form, w: Word)
    ensures RegOf(c, w) % W32 == w % W32
  {
    if c.Sext? {
      WrapAgrees(Bits32, SignedAt(Bits32, w));
      ModShift(w % W32, W32, -1);
    }
  }

  lemma PutMatches(c: Places, regs: map<nat, Word>, cpu: seq<Word>, id: nat, place: Place, w: Word)
    requires RegsMatch(c, regs, cpu) && place.reg < 16
    ensures RegsMatch(Put(c, id, place), regs[id := w], cpu[place.reg := RegOf(place.form, w)])
  {
  }

  function Sum64(a: Word, b: Word): Word {
    Wrap(a + b)
  }

  /** A 32-bit addition of the registers is the low half of the 64-bit sum of the slots. */
  lemma SumMatches(j: Form, k: Form, a: Word, b: Word)
    ensures (RegOf(j, a) % W32 + RegOf(k, b) % W32) % W32 == RegOf(Zext, Sum64(a, b))
  {
    RegOfLow(j, a);
    RegOfLow(k, b);
    ModAdd(W32, a, b);
    WrapAgrees(Bits32, a + b);
  }

  // ----- one data instruction -----

  lemma ItemSteps(bin: Binary, start: nat, items: seq<Asm>, end: nat, n: nat, cpu: Cpu) returns (rel: int)
    requires CodeReads(bin, start, items, end) && n < |items| && items[n].Encodable() && HasRegisters(cpu)
    requires cpu.pc == start + SizeOf(items[..n])
    ensures var next := start + SizeOf(items[..n + 1]);
            && CpuStep(bin.code, cpu) == Execute(cpu, Decoded(Meaning(items[n], rel), next))
            && (items[n].IsBranch() ==> next + rel == TargetOf(bin.offsets, items[n].block))
  {
    hide Meaning, Execute, SizeOf, Decode;
    assert ItemReads(bin, start, items, n);
    rel :| ItemDecodes(bin, start, items, n, rel);
  }

  lemma OneStepRun(code: seq<Byte>, cpu: Cpu)
    requires HasRegisters(cpu)
    ensures CpuRun(code, cpu, 1) == CpuStep(code, cpu)
  {
    var o := CpuStep(code, cpu);
    if o.Executing? {
      assert CpuRun(code, o.cpu, 0) == o;
    }
  }

  /** A single non-branching item. */
  lemma SingleRuns(bin: Binary, start: nat, a: Asm, end: nat, cpu: Cpu)
    requires CodeReads(bin, start, [a], end) && a.Encodable() && !a.IsBranch() && HasRegisters(cpu) && cpu.pc == start
    ensures CpuRun(bin.code, cpu, 1) == Execute(cpu, Decoded(Meaning(a, 0), end))
  {
    hide Execute, Decode;
    var items := [a];
    assert items[..0] == [] && items[..1] == items && items[0] == a;
    var rel := ItemSteps(bin, start, items, end, 0, cpu);
    assert Meaning(a, rel) == Meaning(a, 0);
    OneStepRun(bin.code, cpu);
  }

  /** The processor reaches the end of the item with these registers and memory. */
  ghost predicate Reaches(bin: Binary, cpu: Cpu, end: nat, c: Places, regs: map<nat, Word>, mem: Memory)
    requires HasRegisters(cpu)
  {
    var o := CpuRun(bin.code, cpu, 1);
    o.Executing? && o.cpu.pc == end && o.cpu.mem == mem && RegsMatch(c, regs, o.cpu.regs)
  }

  lemma ConstRuns(bin: Binary, t: Table, c: Places, i: Instr, regs: map<nat, Word>, cpu: Cpu, start: nat, end: nat, w: Word)
    requires i.Const? && SupportedData(t, c, i)
    requires HasRegisters(cpu) && cpu.pc == start && RegsMatch(c, regs, cpu.regs)
    requires CodeReads(bin, start, EmitInstr(t, i, false).items, end)
    requires w % i.kind.Determines().Modulus() == i.imm % i.kind.Determines().Modulus()
    ensures Reaches(bin, cpu, end, Flow(c, t, i), regs[i.gen.id := w], cpu.mem)
  {
    hide Decode, CodeReads, Put;
    var k := if i.kind.ConstI32? then Sext else Exact;
    assert i.imm == RegOf(k, w);
    PutMatches(c, regs, cpu.regs, i.gen.id, Place(k, AllocatedCode(t)), w);
    SingleRuns(bin, start, MovImm(AllocatedCode(t), i.imm), end, cpu);
  }

  lemma AddRuns(bin: Binary, t: Table, c: Places, i: Instr, regs: map<nat, Word>, cpu: Cpu, start: nat, end: nat)
    requires i.Op? && SupportedData(t, c, i)
    requires HasRegisters(cpu) && cpu.pc == start && RegsMatch(c, regs, cpu.regs)
    requires CodeReads(bin, start, EmitInstr(t, i, false).items, end)
    ensures Reaches(bin, cpu, end, Flow(c, t, i), regs[i.gen.id := Sum64(regs[i.left.id], regs[i.right.id])], cpu.mem)
  {
    hide Decode, CpuRun, CodeReads;
    var l, r := i.left.id, i.right.id;
    SumMatches(c[l].form, c[r].form, regs[l], regs[r]);
    PutMatches(c, regs, cpu.regs, i.gen.id, Place(Zext, Lookup(t, l)), Sum64(regs[l], regs[r]));
    SingleRuns(bin, start, AddReg(Lookup(t, l), Lookup(t, r)), end, cpu);
  }

  lemma LoadRuns(bin: Binary, t: Table, c: Places, i: Instr, regs: map<nat, Word>, cpu: Cpu, start: nat, end: nat)
    requires i.Load? && SupportedData(t, c, i)
    requires HasRegisters(cpu) && cpu.pc == start && RegsMatch(c, regs, cpu.regs)
    requires CodeReads(bin, start, EmitInstr(t, i, false).items, end)
    requires Mapped(cpu.mem, regs[i.addr.id], 8)
    ensures Reaches(bin, cpu, end, Flow(c, t, i), regs[i.gen.id := Read8(cpu.mem, regs[i.addr.id])], cpu.mem)
  {
    hide Decode, CodeReads;
    PutMatches(c, regs, cpu.regs, i.gen.id, Place(Exact, AllocatedCode(t)), Read8(cpu.mem, regs[i.addr.id]));
    SingleRuns(bin, start, LoadMem(Lookup(Allocate(t, i.gen.id), i.addr.id), AllocatedCode(t)), end, cpu);
  }

  lemma StoreRuns(bin: Binary, t: Table, c: Places, i: Instr, regs: map<nat, Word>, cpu: Cpu, start: nat, end: nat)
    requires i.Store? && SupportedData(t, c, i)
    requires HasRegisters(cpu) && cpu.pc == start && RegsMatch(c, regs, cpu.regs)
    requires CodeReads(bin, start, EmitInstr(t, i, false).items, end)
    requires Mapped(cpu.mem, regs[i.addr.id], 8)
    ensures Reaches(bin, cpu, end, c, regs, WriteBytes(cpu.mem, regs[i.addr.id], ToLE(8, regs[i.stored.id])))
  {
    hide Decode, CodeReads;
    SingleRuns(bin, start, StoreMem(Lookup(t, i.stored.id), Lookup(t, i.addr.id)), end, cpu);
  }

  /** A data instruction reads set registers only, and where it goes on the processor follows. */
  ghost predicate Follows(bin: Binary, c: Places, act: Act, d: Activation.Move, cpu: Cpu, end: nat)
    requires HasRegisters(cpu)
  {
    && d != Traps(Uninit) && !d.Calls? && !d.Returns? && !d.ReturnsVoid?
    && (d.Goes? ==>
          && d.act == act.(index := act.index + 1, regs := d.act.regs)
          && Reaches(bin, cpu, end, c, d.act.regs, d.mem))
  }

  lemma DataSim(bin: Binary, t: Table, c: Places, i: Instr, voidCall: bool, act: Act, mem: Memory, junk: Word,
                cpu: Cpu, start: nat, end: nat)
    requires i.IsData() && SupportedData(t, c, i)
    requires HasRegisters(cpu) && cpu.pc == start && cpu.mem == mem && RegsMatch(c, act.regs, cpu.regs)
    requires CodeReads(bin, start, EmitInstr(t, i, voidCall).items, end)
    ensures Follows(bin, Flow(c, t, i), act, DecideData(i, act, mem, junk), cpu, end)
  {
    hide CodeReads, Decode, CpuRun, Reaches;
    match i
    case Const(kind, imm, g) =>
      assert ReadRegs(act, DataUses(i)) == Got([]) by { assert DataUses(i) == []; }
      ConstRuns(bin, t, c, i, act.regs, cpu, start, end, Narrow(kind.Determines(), imm, junk));
    case Op(op, l, r, g) =>
      AddRuns(bin, t, c, i, act.regs, cpu, start, end);
      OpReads(act, i);
    case Load(a, ty, g) => LoadSim(bin, t, c, i, voidCall, act, mem, junk, cpu, start, end);
    case Store(a, v) => StoreSim(bin, t, c, i, voidCall, act, mem, junk, cpu, start, end);
  }

  lemma OpReads(act: Act, i: Instr)
    requires i.Op? && i.left.id in act.regs && i.right.id in act.regs
    ensures var r := ReadRegs(act, DataUses(i));
            r == Bad(PoolOverflow) || r == Got([act.regs[i.left.id], act.regs[i.right.id]])
  {
    assert DataUses(i)[0] == i.left.id && DataUses(i)[1] == i.right.id;
  }

  lemma LoadSim(bin: Binary, t: Table, c: Places, i: Instr, voidCall: bool, act: Act, mem: Memory, junk: Word,
                cpu: Cpu, start: nat, end: nat)
    requires i.Load? && SupportedData(t, c, i)
    requires HasRegisters(cpu) && cpu.pc == start && cpu.mem == mem && RegsMatch(c, act.regs, cpu.regs)
    requires CodeReads(bin, start, EmitInstr(t, i, voidCall).items, end)
    ensures Follows(bin, Flow(c, t, i), act, DecideData(i, act, mem, junk), cpu, end)
  {
    hide CodeReads, Decode, CpuRun, Flow, Reaches;
    assert DataUses(i)[0] == i.addr.id;
    var r := ReadRegs(act, DataUses(i));
    assert r == Bad(PoolOverflow) || r == Got([act.regs[i.addr.id]]);
    if r.Got? && Mapped(mem, act.regs[i.addr.id], 8) {
      LoadRuns(bin, t, c, i, act.regs, cpu, start, end);
      assert LoadFrom(mem, act.regs[i.addr.id], i.ty, junk) == Wrote(Read8(mem, act.regs[i.addr.id]));
    }
  }

  lemma StoreSim(bin: Binary, t: Table, c: Places, i: Instr, voidCall: bool, act: Act, mem: Memory, junk: Word,
                 cpu: Cpu, start: nat, end: nat)
    requires i.Store? && SupportedData(t, c, i)
    requires HasRegisters(cpu) && cpu.pc == start && cpu.mem == mem && RegsMatch(c, act.regs, cpu.regs)
    requires CodeReads(bin, start, EmitInstr(t, i, voidCall).items, end)
    ensures Follows(bin, Flow(c, t, i), act, DecideData(i, act, mem, junk), cpu, end)
  {
    hide CodeReads, Decode, CpuRun;
    assert DataUses(i)[0] == i.addr.id && DataUses(i)[1] == i.stored.id;
    var r := ReadRegs(act, DataUses(i));
    assert r == Bad(PoolOverflow) || r == Got([act.regs[i.addr.id], act.regs[i.stored.id]]);
    if r.Got? && Mapped(mem, act.regs[i.addr.id], 8) {
      StoreRuns(bin, t, c, i, act.regs, cpu, start, end);
    }
  }

  // ----- branches and returns -----

  lemma StepsJoin(code: seq<Byte>, cpu: Cpu, next: Cpu, k: nat)
    requires HasRegisters(cpu) && CpuStep(code, cpu) == Executing(next)
    ensures CpuRun(code, cpu, k + 1) == CpuRun(code, next, k)
  {
  }

  lemma JumpRuns(bin: Binary, start: nat, block: nat, end: nat, cpu: Cpu)
    requires CodeReads(bin, start, [JmpTo(block)], end) && HasRegisters(cpu) && cpu.pc == start
    ensures CpuRun(bin.code, cpu, 1) == Executing(cpu.(pc := TargetOf(bin.offsets, block)))
  {
    hide Decode, CodeReads, CpuStep;
    var items := [JmpTo(block)];
    assert items[..0] == [] && items[..1] == items;
    var rel := ItemSteps(bin, start, items, end, 0, cpu);
    StepsJoin(bin.code, cpu, cpu.(pc := TargetOf(bin.offsets, block)), 0);
  }

  /** After n steps the processor is at an instruction strictly between two code offsets. */
  ghost predicate InBetween(bin: Binary, cpu: Cpu, n: nat, start: nat, end: nat)
    requires HasRegisters(cpu)
  {
    var q := CpuRun(bin.code, cpu, n);
    q.Executing? && start < q.cpu.pc < end
  }

  ghost predicate StaysBetween(bin: Binary, cpu: Cpu, k: nat, start: nat, end: nat)
    requires HasRegisters(cpu)
  {
    forall n :: 0 < n < k ==> InBetween(bin, cpu, n, start, end)
  }

  lemma CompareSteps(bin: Binary, start: nat, items: seq<Asm>, end: nat, reg: nat, cpu: Cpu)
    requires CodeReads(bin, start, items, end) && |items| > 0 && items[0] == CmpZero(reg)
    requires reg < 8 && HasRegisters(cpu) && cpu.pc == start
    ensures CpuStep(bin.code, cpu) == Executing(cpu.(pc := start + SizeOf(items[..1]), zf := cpu.regs[reg] == 0))
  {
    assert items[..0] == [];
    var rel := ItemSteps(bin, start, items, end, 0, cpu);
  }

  /** The three instructions of a conditional branch and where they start. */
  function BranchItems(reg: nat, onTrue: nat, onFalse: nat): (items: seq<Asm>)
    ensures |items| == 3 && items[0] == CmpZero(reg) && items[1] == JzTo(onFalse) && items[2] == JmpTo(onTrue)
    ensures SizeOf(items[..1]) == 4 && SizeOf(items[..2]) == 10 && SizeOf(items) == 15
  {
    var items := [CmpZero(reg), JzTo(onFalse), JmpTo(onTrue)];
    SizeOfSmall(items[..1]);
    SizeOfSmall(items[..2]);
    SizeOfSmall(items);
    items
  }

  lemma JzSteps(bin: Binary, start: nat, items: seq<Asm>, end: nat, n: nat, onFalse: nat, cpu: Cpu)
    requires CodeReads(bin, start, items, end) && n < |items| && items[n] == JzTo(onFalse)
    requires HasRegisters(cpu) && cpu.pc == start + SizeOf(items[..n])
    ensures CpuStep(bin.code, cpu) ==
            Executing(cpu.(pc := if cpu.zf then TargetOf(bin.offsets, onFalse) else start + SizeOf(items[..n + 1])))
  {
    hide Decode;
    var rel := ItemSteps(bin, start, items, end, n, cpu);
  }

  lemma JmpSteps(bin: Binary, start: nat, items: seq<Asm>, end: nat, n: nat, target: nat, cpu: Cpu)
    requires CodeReads(bin, start, items, end) && n < |items| && items[n] == JmpTo(target)
    requires HasRegisters(cpu) && cpu.pc == start + SizeOf(items[..n])
    ensures CpuStep(bin.code, cpu) == Executing(cpu.(pc := TargetOf(bin.offsets, target)))
  {
    hide Decode;
    var rel := ItemSteps(bin, start, items, end, n, cpu);
  }

  /** The jump to the false block: the comparison and the JZ. */
  lemma FalseBranchRuns(bin: Binary, start: nat, reg: nat, onTrue: nat, onFalse: nat, end: nat, cpu: Cpu)
    requires CodeReads(bin, start, BranchItems(reg, onTrue, onFalse), end) && end == start + 15
    requires reg < 8 && HasRegisters(cpu) && cpu.pc == start && cpu.regs[reg] == 0
    ensures StaysBetween(bin, cpu, 2, start, end)
    ensures CpuRun(bin.code, cpu, 2) == Executing(cpu.(pc := TargetOf(bin.offsets, onFalse), zf := true))
  {
    hide CodeReads, CpuStep, BranchItems, CpuRun, SizeOf;
    var items := BranchItems(reg, onTrue, onFalse);
    CompareSteps(bin, start, items, end, reg, cpu);
    var c1 := cpu.(pc := start + 4, zf := true);
    JzSteps(bin, start, items, end, 1, onFalse, c1);
    var c2 := c1.(pc := TargetOf(bin.offsets, onFalse));
    NoSteps(bin.code, c1);
    NoSteps(bin.code, c2);
    StepsJoin(bin.code, cpu, c1, 0);
    assert InBetween(bin, cpu, 1, start, end);
    StepsJoin(bin.code, c1, c2, 0);
    StepsJoin(bin.code, cpu, c1, 1);
  }

  lemma NoSteps(code: seq<Byte>, cpu: Cpu)
    requires HasRegisters(cpu)
    ensures CpuRun(code, cpu, 0) == Executing(cpu)
  {
  }

  /** The jump to the true block: the comparison, the JZ not taken and the JMP. */
  lemma TrueBranchRuns(bin: Binary, start: nat, reg: nat, onTrue: nat, onFalse: nat, end: nat, cpu: Cpu)
    requires CodeReads(bin, start, BranchItems(reg, onTrue, onFalse), end) && end == start + 15
    requires reg < 8 && HasRegisters(cpu) && cpu.pc == start && cpu.regs[reg] != 0
    ensures StaysBetween(bin, cpu, 3, start, end)
    ensures CpuRun(bin.code, cpu, 3) == Executing(cpu.(pc := TargetOf(bin.offsets, onTrue), zf := false))
  {
    hide CodeReads, CpuStep, BranchItems, CpuRun, SizeOf;
    var items := BranchItems(reg, onTrue, onFalse);
    CompareSteps(bin, start, items, end, reg, cpu);
    var c1 := cpu.(pc := start + 4, zf := false);
    JzSteps(bin, start, items, end, 1, onFalse, c1);
    var c2 := c1.(pc := start + 10);
    JmpSteps(bin, start, items, end, 2, onTrue, c2);
    var c3 := c2.(pc := TargetOf(bin.offsets, onTrue));
    NoSteps(bin.code, c1);
    NoSteps(bin.code, c2);
    NoSteps(bin.code, c3);
    StepsJoin(bin.code, cpu, c1, 0);
    assert InBetween(bin, cpu, 1, start, end);
    StepsJoin(bin.code, c1, c2, 0);
    StepsJoin(bin.code, cpu, c1, 1);
    assert InBetween(bin, cpu, 2, start, end);
    StepsJoin(bin.code, c2, c3, 0);
    StepsJoin(bin.code, c1, c2, 1);
    StepsJoin(bin.code, cpu, c1, 2);
  }

  lemma CondBranchRuns(bin: Binary, start: nat, reg: nat, onTrue: nat, onFalse: nat, end: nat, cpu: Cpu) returns (k: nat)
    requires CodeReads(bin, start, [CmpZero(reg), JzTo(onFalse), JmpTo(onTrue)], end)
    requires reg < 8 && HasRegisters(cpu) && cpu.pc == start
    ensures k >= 1 && StaysBetween(bin, cpu, k, start, end)
    ensures CpuRun(bin.code, cpu, k) ==
            Executing(cpu.(pc := TargetOf(bin.offsets, if cpu.regs[reg] == 0 then onFalse else onTrue),
                           zf := cpu.regs[reg] == 0))
  {
    assert BranchItems(reg, onTrue, onFalse) == [CmpZero(reg), JzTo(onFalse), JmpTo(onTrue)];
    assert end == start + 15;
    hide CodeReads, StaysBetween, CpuRun, BranchItems;
    if cpu.regs[reg] == 0 {
      FalseBranchRuns(bin, start, reg, onTrue, onFalse, end, cpu);
      k := 2;
    } else {
      TrueBranchRuns(bin, start, reg, onTrue, onFalse, end, cpu);
      k := 3;
    }
  }

  lemma ReturnRuns(bin: Binary, start: nat, reg: nat, end: nat, cpu: Cpu) returns (k: nat)
    requires CodeReads(bin, start, Emission.Move(reg, RAX) + [Asm.Return], end)
    requires reg < 16 && HasRegisters(cpu) && cpu.pc == start
    ensures k >= 1 && CpuRun(bin.code, cpu, k) == Halted(cpu.regs[reg], cpu.mem)
  {
    hide Decode, CodeReads;
    if reg == RAX {
      assert Emission.Move(reg, RAX) + [Asm.Return] == [Asm.Return];
      SingleRuns(bin, start, Asm.Return, end, cpu);
      k := 1;
    } else {
      var items := [MovReg(reg, RAX), Asm.Return];
      assert Emission.Move(reg, RAX) + [Asm.Return] == items;
      assert items[..0] == [];
      var rel1 := ItemSteps(bin, start, items, end, 0, cpu);
      var c1 := cpu.(pc := start + SizeOf(items[..1]), regs := cpu.regs[RAX := cpu.regs[reg]]);
      var rel2 := ItemSteps(bin, start, items, end, 1, c1);
      assert CpuRun(bin.code, c1, 1) == Halted(cpu.regs[reg], cpu.mem);
      StepsJoin(bin.code, cpu, c1, 1);
      k := 2;
    }
  }
}

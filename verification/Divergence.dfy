/** Programs on which the two engines disagree, one for each condition of the general results. */
module Divergence {
  import opened Words
  import opened Ir
  import opened Interp
  import opened Activation
  import opened X86
  import opened Allocator
  import opened Emission
  import opened Definite
  import opened RegisterPass
  import opened Simulation
  import opened JitCorrectness
  import opened Fragment
  import opened Fixed
  import opened FragmentRuns

  // ----- a slot that is true in one engine and false in the other -----

  /** Branches on the constant 256: its low byte is 0, the register is not. */
  function WideTest(): seq<seq<Instr>> {
    [[Const(ConstI64, 256, I64Value(0)), CondBr(I64Value(0), 1, 2)],
     [Const(ConstI64, 1, I64Value(1)), Ret(I64Value(1))],
     [Const(ConstI64, 0, I64Value(2)), Ret(I64Value(2))]]
  }

  function WideModule(): Module {
    [Func([], I64, WideTest(), [I64Value(0), I64Value(1), I64Value(2)])]
  }

  function WideSource(): Source {
    Source([], I64, WideTest(), _ => false)
  }

  function WideFlat(): seq<Instr> {
    [Const(ConstI64, 256, I64Value(0)), CondBr(I64Value(0), 1, 2), Const(ConstI64, 1, I64Value(1)), Ret(I64Value(1)),
     Const(ConstI64, 0, I64Value(2)), Ret(I64Value(2))]
  }

  lemma WideFlattens()
    ensures Flat(WideTest()) == WideFlat()
  {
    var b := WideTest();
    assert b[..2][..1] == b[..1] && b[..1][..0] == [];
    assert Flat(b[..1]) == b[0];
    assert Flat(b[..2]) == b[0] + b[1];
  }

  lemma WidePathsDefine(b: nat, j: nat)
    requires b < 3 && j < 2
    ensures PathsDefine(WideSource(), [{}, {}, {}], b, j)
  {
    var f := WideSource();
    if j == 1 {
      assert DefinedAfter({}, f.blocks[b], 1) == {f.blocks[b][0].gen.id};
    }
  }

  lemma WideReads(p: nat, v: nat)
    requires p < 6 && Reads(WideFlat()[p], v)
    ensures Known(WideSource(), v, p)
  {
    WideFlattens();
    assert Generates(WideSource(), p - 1, v);
  }

  lemma WideAllocations()
    ensures Len(WideSource()) == 6 && Allocations(WideSource(), 6) == 3
  {
    WideFlattens();
    assert Allocations(WideSource(), 3) == 2;
  }

  lemma WideGenerates(p: nat, v: nat)
    requires Generates(WideSource(), p, v)
    ensures p == 2 * v
  {
    WideFlattens();
  }

  lemma WideAssignsOnce()
    ensures SingleAssignment(WideSource())
  {
    hide Generates;
    forall p: nat, v: nat | Generates(WideSource(), p, v)
      ensures p == 2 * v
    {
      WideGenerates(p, v);
    }
  }

  lemma WideInFragment()
    ensures InFragment(WideSource(), [{}, {}, {}])
  {
    hide Known, PathsDefine, Allocations, SingleAssignment;
    var f := WideSource();
    WideFlattens();
    WideAllocations();
    WideAssignsOnce();
    forall p, v: nat | 0 <= p < Len(f) && Reads(InsAt(f, p), v)
      ensures Known(f, v, p)
    {
      WideReads(p, v);
    }
    forall b: nat, j: nat | b < |f.blocks| && j < |f.blocks[b]|
      ensures PathsDefine(f, [{}, {}, {}], b, j)
    {
      WidePathsDefine(b, j);
    }
  }

  /** The interpreter takes the false branch and returns 0. */
  lemma WideInterpreted(env: Env, pool: seq<Word>, mem: Memory)
    requires env.m == WideModule() && |pool| >= 3
    ensures EvalFunc(env, 0, [], pool, mem, 4) == Returned(0, mem)
  {
    var s0 := State(0, 0, 0, 0, [], pool, mem, 0);
    assert Start(env, 0, [], pool, mem) == Running(s0) by {
      assert [][..0] + pool[0..] == pool;
    }
    var s1 := State(0, 0, 1, 0, [], pool[0 := 256], mem, 1);
    assert Step(env, s0) == Running(s1);
    var s2 := State(0, 2, 0, 0, [], s1.pool, mem, 2);
    assert Step(env, s1) == Running(s2);
    var s3 := State(0, 2, 1, 0, [], s1.pool[2 := 0], mem, 3);
    assert Step(env, s2) == Running(s3);
    assert Step(env, s3) == Returned(0, mem);
    assert Run(env, s3, 4) == Returned(0, mem);
    assert Run(env, s2, 4) == Run(env, s3, 4);
    assert Run(env, s1, 4) == Run(env, s2, 4);
  }

  lemma WideTrueSteps(env: Env, r: Stack)
    requires env.m == WideModule() && r == Stack(Act(0, 1, 0, map[0 := 256], r.cur.room), [], r.mem, 2) && r.cur.room >= 3
    ensures var r1 := Stack(Act(0, 1, 1, map[0 := 256, 1 := 1], r.cur.room), [], r.mem, 3);
            StackStep(env, r) == Running(r1) && StackStep(env, r1) == Returned(1, r.mem)
  {
    var r1 := Stack(Act(0, 1, 1, map[0 := 256, 1 := 1], r.cur.room), [], r.mem, 3);
    assert ReadRegs(r1.cur, [1]) == Got([1]);
  }

  /** From the true branch on the processor returns 1. */
  lemma WideTrueBranch(env: Env, f: Source, bin: Binary, live: seq<Places>, r: Stack, cpu: Cpu) returns (k: nat)
    requires env.m == WideModule() && Compiled(env, 0, f, bin, live)
    requires r == Stack(Act(0, 1, 0, map[0 := 256], r.cur.room), [], r.mem, 2) && r.cur.room >= 3
    requires Related(f, live, r.cur, r.mem, cpu)
    ensures CpuRun(bin.code, cpu, k) == Halted(1, r.mem)
  {
    hide Decide, PlacesAt, Decode, CpuRun, StackStep, JitOk, BuiltFrom, Emit;
    WideTrueSteps(env, r);
    var r1 := StackStep(env, r).s;
    var k1 := StepPace(env, 0, f, bin, live, r, cpu);
    var next := CpuRun(bin.code, cpu, k1).cpu;
    var k2 := StepPace(env, 0, f, bin, live, r1, next);
    assert RegOf(Exact, 1) == RegOf(Zext, 1) == RegOf(Sext, 1) == 1;
    CpuRunSplit(bin.code, cpu, k1, k2);
    k := k1 + k2;
  }

  lemma WideFirstStep(env: Env, room: nat, mem: Memory)
    requires env.m == WideModule() && room >= 3
    ensures StackStep(env, Stack(Act(0, 0, 0, map[], room), [], mem, 0)) ==
            Running(Stack(Act(0, 0, 1, map[0 := 256], room), [], mem, 1))
  {
  }

  /** The processor's branch lands on the true block. */
  lemma WideBranch(env: Env, f: Source, bin: Binary, live: seq<Places>, act: Act, mem: Memory, cpu: Cpu) returns (k: nat)
    requires env.m == WideModule() && Compiled(env, 0, f, bin, live)
    requires act == Act(0, 0, 1, map[0 := 256], act.room) && Related(f, live, act, mem, cpu)
    ensures CpuRun(bin.code, cpu, k).Executing?
    ensures Related(f, live, Act(0, 1, 0, map[0 := 256], act.room), mem, CpuRun(bin.code, cpu, k).cpu)
  {
    k := CondBranchLands(env, 0, f, bin, live, act, mem, cpu);
    assert RegOf(LiveAt(f, live, 0, 1)[0].form, 256) == 256;
  }

  lemma RunsJoin(code: seq<Byte>, cpu: Cpu, j: nat, k: nat, o: CpuOutcome)
    requires HasRegisters(cpu) && CpuRun(code, cpu, j).Executing? && CpuRun(code, CpuRun(code, cpu, j).cpu, k) == o
    ensures CpuRun(code, cpu, j + k) == o
  {
    CpuRunSplit(code, cpu, j, k);
  }

  /** From the branch on. */
  lemma WideFromBranch(env: Env, f: Source, bin: Binary, live: seq<Places>, act: Act, mem: Memory, cpu: Cpu) returns (k: nat)
    requires env.m == WideModule() && Compiled(env, 0, f, bin, live) && act.room >= 3
    requires act == Act(0, 0, 1, map[0 := 256], act.room) && Related(f, live, act, mem, cpu)
    ensures CpuRun(bin.code, cpu, k) == Halted(1, mem)
  {
    hide Compiled, CpuRun;
    assert HasRegisters(cpu);
    hide Related;
    var k1 := WideBranch(env, f, bin, live, act, mem, cpu);
    var r := Stack(Act(0, 1, 0, map[0 := 256], act.room), [], mem, 2);
    var k2 := WideTrueBranch(env, f, bin, live, r, CpuRun(bin.code, cpu, k1).cpu);
    RunsJoin(bin.code, cpu, k1, k2, Halted(1, mem));
    k := k1 + k2;
  }

  lemma WideCompiledRun(env: Env, f: Source, bin: Binary, live: seq<Places>, room: nat, mem: Memory, cpu: Cpu) returns (k: nat)
    requires env.m == WideModule() && Compiled(env, 0, f, bin, live) && room >= 3
    requires Related(f, live, Act(0, 0, 0, map[], room), mem, cpu)
    ensures CpuRun(bin.code, cpu, k) == Halted(1, mem)
  {
    hide CpuRun, Decide, JitOk, BuiltFrom, StackStep, RegsMatch, CodeOffset;
    var r := Stack(Act(0, 0, 0, map[], room), [], mem, 0);
    WideFirstStep(env, room, mem);
    var k1 := StepPace(env, 0, f, bin, live, r, cpu);
    var k2 := WideFromBranch(env, f, bin, live, StackStep(env, r).s.cur, mem, CpuRun(bin.code, cpu, k1).cpu);
    RunsJoin(bin.code, cpu, k1, k2, Halted(1, mem));
    k := k1 + k2;
  }

  /** The generated code takes the true branch and returns 1. */
  lemma WideCompiled(env: Env, mem: Memory, cpu: Cpu) returns (k: nat)
    requires env.m == WideModule() && CalledWith(WideSource(), [], mem, cpu)
    ensures CpuRun(CodeOf(WideSource()), cpu, k) == Halted(1, mem)
  {
    hide InFragment, JitOk, Decode, CpuRun, Resolved, Emit;
    var f, entries := WideSource(), [{}, {}, {}];
    WideInFragment();
    FragmentIsSimulated(f, entries);
    var bin := BinaryExists(f, CodeOf(f));
    EntryRelated(f, LiveOf(f, entries), Act(0, 0, 0, map[], 3), [], mem, cpu);
    k := WideCompiledRun(env, f, bin, LiveOf(f, entries), 3, mem, cpu);
  }

  /** On this program, which is in the fragment, the engines disagree: 0 from the interpreter, 1 from the code. */
  lemma EnginesDisagree(env: Env, pool: seq<Word>, mem: Memory, cpu: Cpu) returns (k: nat)
    requires env.m == WideModule() && |pool| >= 3 && CalledWith(WideSource(), [], mem, cpu)
    ensures InFragment(WideSource(), [{}, {}, {}])
    ensures EvalFunc(env, 0, [], pool, mem, 4) == Returned(0, mem)
    ensures CpuRun(CodeOf(WideSource()), cpu, k) == Halted(1, mem)
  {
    WideInFragment();
    WideInterpreted(env, pool, mem);
    k := WideCompiled(env, mem, cpu);
  }

  // ----- a sum that does not fit 32 bits -----

  /** Returns 2^32 - 1 plus 1. */
  function BigSum(): seq<Instr> {
    [Const(ConstI64, 0xFFFF_FFFF, I64Value(0)), Const(ConstI64, 1, I64Value(1)),
     Op(Add, I64Value(0), I64Value(1), I64Value(2)), Ret(I64Value(2))]
  }

  function BigSumModule(): Module {
    [Func([], I64, [BigSum()], [I64Value(0), I64Value(1), I64Value(2)])]
  }

  function BigSumSource(): Source {
    Source([], I64, [BigSum()], _ => false)
  }

  lemma BigSumFlattens()
    ensures Flat([BigSum()]) == BigSum()
  {
    assert [BigSum()][..0] == [];
  }

  lemma BigSumPaths(j: nat)
    requires j < 4
    ensures PathsDefine(BigSumSource(), [{}], 0, j)
  {
    var b := BigSum();
    assert DefinedAfter({}, b, 1) == {0};
    assert DefinedAfter({}, b, 2) == {0, 1};
    assert DefinedAfter({}, b, 3) == {0, 1, 2};
  }

  lemma BigSumReads(p: nat, v: nat)
    requires p < 4 && Reads(BigSum()[p], v)
    ensures Known(BigSumSource(), v, p)
  {
    BigSumFlattens();
    assert Generates(BigSumSource(), v, v);
  }

  lemma BigSumLeft(p: nat)
    ensures LeftIsLocal(BigSumSource(), p)
  {
    BigSumFlattens();
    if p == 2 {
      assert Generates(BigSumSource(), 0, 0);
    }
  }

  lemma BigSumAllocations()
    ensures Len(BigSumSource()) == 4 && Allocations(BigSumSource(), 4) == 2
  {
    BigSumFlattens();
    assert Allocations(BigSumSource(), 2) == 2;
  }

  lemma BigSumGenerates(p: nat, v: nat)
    requires Generates(BigSumSource(), p, v)
    ensures v == p
  {
    BigSumFlattens();
  }

  lemma BigSumAssignsOnce()
    ensures SingleAssignment(BigSumSource())
  {
    hide Generates;
    forall p: nat, v: nat | Generates(BigSumSource(), p, v)
      ensures v == p
    {
      BigSumGenerates(p, v);
    }
  }

  lemma BigSumInFragment()
    ensures InFragment(BigSumSource(), [{}])
  {
    hide Known, PathsDefine, Allocations, LeftIsLocal, SingleAssignment;
    var f := BigSumSource();
    BigSumFlattens();
    BigSumAssignsOnce();
    BigSumAllocations();
    forall p, v: nat | 0 <= p < Len(f) && Reads(InsAt(f, p), v)
      ensures Known(f, v, p)
    {
      BigSumReads(p, v);
    }
    forall b: nat, j: nat | b < |f.blocks| && j < |f.blocks[b]|
      ensures PathsDefine(f, [{}], b, j)
    {
      BigSumPaths(j);
    }
    forall p: nat
      ensures LeftIsLocal(f, p)
    {
      BigSumLeft(p);
    }
  }

  lemma BigSumInterpreted(env: Env, pool: seq<Word>, mem: Memory)
    requires env.m == BigSumModule() && |pool| >= 3
    ensures EvalFunc(env, 0, [], pool, mem, 4) == Returned(W32, mem)
  {
    var s0 := State(0, 0, 0, 0, [], pool, mem, 0);
    assert Start(env, 0, [], pool, mem) == Running(s0) by {
      assert [][..0] + pool[0..] == pool;
    }
    var s1 := State(0, 0, 1, 0, [], pool[0 := 0xFFFF_FFFF], mem, 1);
    assert Step(env, s0) == Running(s1);
    var s2 := State(0, 0, 2, 0, [], s1.pool[1 := 1], mem, 2);
    assert Step(env, s1) == Running(s2);
    var s3 := State(0, 0, 3, 0, [], s2.pool[2 := W32], mem, 3);
    assert Step(env, s2) == Running(s3);
    assert Step(env, s3) == Returned(W32, mem);
    assert Run(env, s3, 4) == Returned(W32, mem);
    assert Run(env, s2, 4) == Run(env, s3, 4);
    assert Run(env, s1, 4) == Run(env, s2, 4);
  }

  lemma BigSumReturns(block: nat, index: nat, rax: Word)
    requires ComputesValue(BigSumSource(), [], block, index, rax, W32) && SingleAssignment(BigSumSource())
    ensures rax == 0
  {
    BigSumFlattens();
    assert Generates(BigSumSource(), 2, 2);
    FormOfGenerated(BigSumSource(), 2, 2);
  }

  lemma BigSumMeetsConditions()
    ensures var f, m := BigSumSource(), BigSumModule();
            && |m| == 1 && IsSource(f, m[0]) && InFragment(f, [{}]) && ResultsFit(m[0])
            && f.args == 0 && WalkAgrees(f, [], 0, 0, 4)
  {
    hide InFragment, WalkAgrees;
    BigSumInFragment();
    AllWalksAgree(BigSumSource(), [], 0, 0, 4);
  }

  lemma BigSumRuns(env: Env, pool: seq<Word>, mem: Memory, cpu: Cpu) returns (k: nat)
    requires env.m == BigSumModule() && |pool| >= 3 && CalledWith(BigSumSource(), [], mem, cpu)
    requires EvalFunc(env, 0, [], pool, mem, 4) == Returned(W32, mem)
    ensures FinalState(env, 0, [], pool, mem, 4).Some?
    ensures var last, o := FinalState(env, 0, [], pool, mem, 4).value, CpuRun(CodeOf(BigSumSource()), cpu, k);
            o.Halted? && o.mem == mem && ComputesValue(BigSumSource(), [], last.block, last.index, o.rax, W32)
  {
    hide *;
    BigSumMeetsConditions();
    var f := BigSumSource();
    k := FragmentComputes(env, 0, f, [{}], [], pool, mem, CodeOf(f), cpu, 4);
  }

  /** The generated code loses the upper half: 0 where the interpreter returns 2^32. */
  lemma UpperHalfIsLost(env: Env, pool: seq<Word>, mem: Memory, cpu: Cpu) returns (k: nat)
    requires env.m == BigSumModule() && |pool| >= 3 && CalledWith(BigSumSource(), [], mem, cpu)
    ensures InFragment(BigSumSource(), [{}])
    ensures EvalFunc(env, 0, [], pool, mem, 4) == Returned(W32, mem)
    ensures CpuRun(CodeOf(BigSumSource()), cpu, k) == Halted(0, mem)
  {
    hide InFragment, CpuRun, CodeOf, ComputesValue, EvalFunc, FinalState;
    var f := BigSumSource();
    BigSumInFragment();
    BigSumInterpreted(env, pool, mem);
    k := BigSumRuns(env, pool, mem, cpu);
    var last := FinalState(env, 0, [], pool, mem, 4).value;
    BigSumReturns(last.block, last.index, CpuRun(CodeOf(f), cpu, k).rax);
  }

  // ----- an argument the encoders cannot name -----

  /** Adds its third argument to 7. */
  function ThirdBlock(): seq<Instr> {
    [Const(ConstI64, 7, I64Value(3)), Op(Add, I64Value(3), I64Value(2), I64Value(4)), Ret(I64Value(4))]
  }

  function ThirdModule(): Module {
    [Func([I64, I64, I64], I64, [ThirdBlock()], [I64Value(0), I64Value(1), I64Value(2), I64Value(3), I64Value(4)])]
  }

  function ThirdSource(): Source {
    Source([I64, I64, I64], I64, [ThirdBlock()], _ => false)
  }

  lemma ThirdInterpreted(env: Env, values: seq<Word>, pool: seq<Word>, mem: Memory)
    requires env.m == ThirdModule() && |values| >= 3 && |pool| >= 5
    ensures EvalFunc(env, 0, values, pool, mem, 3) == Returned(Sum64(7, values[2]), mem)
  {
    var p0 := values[..3] + pool[3..];
    var s0 := State(0, 0, 0, 0, [], p0, mem, 0);
    assert Start(env, 0, values, pool, mem) == Running(s0);
    var s1 := State(0, 0, 1, 0, [], p0[3 := 7], mem, 1);
    assert Step(env, s0) == Running(s1);
    var s2 := State(0, 0, 2, 0, [], s1.pool[4 := Sum64(7, values[2])], mem, 2);
    assert Step(env, s1) == Running(s2);
    assert Step(env, s2) == Returned(Sum64(7, values[2]), mem);
    assert Run(env, s2, 3) == Returned(Sum64(7, values[2]), mem);
    assert Run(env, s1, 3) == Run(env, s2, 3);
  }

  /** The register table before the constant. */
  function ThirdTable(): Table {
    AssignArgs(InitTable(), 3)
  }

  /** The constant gets the third slot, and the sum takes it over. */
  function ThirdHolds(t: Table, v: nat): Table
    requires |t| > 2
  {
    t[2 := Slot(3, Some(v))]
  }

  lemma ThirdArguments()
    ensures var t := ThirdTable();
            && Consistent(t) && First(t, None) == 2
            && t[0].holder == Some(0) && t[1].holder == Some(1) && t[2].holder == None && t[5].holder == Some(2)
            && forall k :: 0 <= k < SLOTS && t[k].holder.Some? ==> t[k].holder.value < 3
  {
    hide AssignArgs, FirstFrom;
    ArgsTable(3);
    var t := ThirdTable();
    assert t[0].holder == Some(0) && t[1].holder == Some(1) && t[5].holder == Some(2);
    assert t[2].holder == None;
  }

  lemma ThirdHeld(t: Table, v: nat)
    requires Consistent(t) && v >= 3 && t[5].holder == Some(2)
    requires forall k :: 0 <= k < SLOTS && t[k].holder.Some? && k != 2 ==> t[k].holder.value < 3
    ensures var u := ThirdHolds(t, v);
            Consistent(u) && First(u, Some(v)) == 2 && Lookup(u, v) == 3 && Lookup(u, 2) == 8
  {
    hide FirstFrom;
    var u := ThirdHolds(t, v);
    HeldAt(u, v, 2);
    HeldAt(u, 2, 5);
  }

  lemma ThirdRegisters()
    ensures var t := ThirdTable();
            && |t| == SLOTS && AllocatedCode(t) == 3 && Allocate(t, 3) == ThirdHolds(t, 3)
            && Replace(ThirdHolds(t, 3), Some(3), Some(4)) == ThirdHolds(t, 4)
            && Lookup(ThirdHolds(t, 3), 3) == 3 && Lookup(ThirdHolds(t, 3), 2) == 8 && Lookup(ThirdHolds(t, 4), 4) == 3
  {
    hide AssignArgs, FirstFrom, Lookup;
    ThirdArguments();
    ThirdHeld(ThirdTable(), 3);
    ThirdHeld(ThirdTable(), 4);
  }

  /** The third argument is in R8 (code 8), the constant and the sum in RBX (code 3). */
  lemma ThirdTables()
    ensures var f := ThirdSource();
            && Flat(f.blocks) == ThirdBlock()
            && AllocatedCode(Emit(f, 0).table) == 3
            && Lookup(Emit(f, 1).table, 3) == 3 && Lookup(Emit(f, 1).table, 2) == 8
            && Lookup(Emit(f, 2).table, 4) == 3
  {
    hide AssignArgs, Lookup, Allocate, AllocatedCode, Replace;
    var f := ThirdSource();
    assert f.blocks[..0] == [];
    ThirdRegisters();
    assert Emit(f, 1).table == ThirdHolds(ThirdTable(), 3);
    assert Emit(f, 2).table == ThirdHolds(ThirdTable(), 4);
  }

  lemma ThirdItems()
    ensures AllItems(ThirdSource()) == [MovImm(3, 7), AddReg(3, 8), MovReg(3, RAX), Asm.Return]
  {
    hide Lookup, AllocatedCode, Replace, AssignArgs;
    var f := ThirdSource();
    ThirdTables();
    assert Emit(f, 1).items == [MovImm(3, 7)];
    assert Emit(f, 2).items == [MovImm(3, 7), AddReg(3, 8)];
  }

  /** The two bytes of the addition mean EAX where R8 was meant. */
  lemma ThirdAddReadsRax(code: seq<Byte>, p: nat)
    requires p + 2 <= |code| && code[p..p + 2] == Encode(AddReg(3, 8), 0)
    ensures code[p..p + 2] == [0x01, 0xC3] && Decode(code, p) == Some(Decoded(IAdd32(3, RAX), p + 2))
  {
    AddBytes(code, p, 3, 8);
    DecodesPlain(code, p, 3, 0, 3);
  }

  lemma ThirdAddRuns(f: Source, bin: Binary, cpu: Cpu)
    requires f == ThirdSource() && BuiltFrom(bin, f) && HasRegisters(cpu) && cpu.pc == 10
    ensures var sum := (cpu.regs[3] % W32 + cpu.regs[RAX] % W32) % W32;
            CpuStep(bin.code, cpu) == Executing(cpu.(pc := 12, regs := cpu.regs[3 := sum], zf := sum == 0))
  {
    hide Decode, Encode, Emit, EmitInstr;
    ThirdItems();
    var items := AllItems(f);
    SizeOfSmall(items[..1]);
    assert items[..1][0] == items[0];
    ResolvedAt(items, bin.offsets, 1);
    assert bin.code[10..12] == Encode(AddReg(3, 8), 0);
    ThirdAddReadsRax(bin.code, 10);
  }

  lemma ThirdItemsFor()
    ensures var f := ThirdSource();
            && |Flat(f.blocks)| == 3
            && ItemsFor(f, 0) == [MovImm(3, 7)] && ItemsFor(f, 1) == [AddReg(3, 8)]
            && ItemsFor(f, 2) == Emission.Move(3, RAX) + [Asm.Return]
  {
    hide Lookup, AllocatedCode, Replace, AssignArgs, Emit;
    ThirdTables();
  }

  lemma TwoOffsets(f: Source, a: Asm, b: Asm)
    requires |Flat(f.blocks)| >= 2 && ItemsFor(f, 0) == [a] && ItemsFor(f, 1) == [b]
    ensures CodeOffset(f, 0) == 0 && CodeOffset(f, 1) == a.Size() && CodeOffset(f, 2) == a.Size() + b.Size()
  {
    ItemsArePlaced(f, 0);
    ItemsArePlaced(f, 1);
    SizeOfSmall([a]);
    SizeOfSmall([b]);
  }

  lemma SmallSource(f: Source)
    requires |Flat(f.blocks)| < 0x800_0000
    ensures SizeOf(AllItems(f)) < 0x8000_0000
  {
    CodeSize(f, |Flat(f.blocks)|);
  }

  lemma ThirdOffsets()
    ensures var f := ThirdSource();
            && |Flat(f.blocks)| == 3 && SizeOf(AllItems(f)) < 0x8000_0000
            && ItemsFor(f, 0) == [MovImm(3, 7)] && ItemsFor(f, 2) == Emission.Move(3, RAX) + [Asm.Return]
            && CodeOffset(f, 0) == 0 && CodeOffset(f, 1) == 10 && CodeOffset(f, 2) == 12
  {
    hide ThirdSource, Flat, ItemsFor, CodeOffset, AllItems, SizeOf;
    ThirdItemsFor();
    SmallSource(ThirdSource());
    TwoOffsets(ThirdSource(), MovImm(3, 7), AddReg(3, 8));
  }

  /** The constant is moved as meant. */
  lemma ThirdConstRuns(f: Source, bin: Binary, cpu: Cpu)
    requires f == ThirdSource() && BuiltFrom(bin, f) && HasRegisters(cpu) && cpu.pc == 0
    ensures CpuRun(bin.code, cpu, 1) == Executing(cpu.(pc := 10, regs := cpu.regs[3 := 7]))
  {
    hide BuiltFrom, CpuRun, CodeReads, CodeOffset, ItemsFor, Emit;
    ThirdOffsets();
    PositionReads(f, bin, 0);
    SingleRuns(bin, 0, MovImm(3, 7), 10, cpu);
  }

  /** The sum is returned as meant. */
  lemma ThirdReturnRuns(f: Source, bin: Binary, cpu: Cpu) returns (k: nat)
    requires f == ThirdSource() && BuiltFrom(bin, f) && HasRegisters(cpu) && cpu.pc == 12
    ensures CpuRun(bin.code, cpu, k) == Halted(cpu.regs[3], cpu.mem)
  {
    hide BuiltFrom, CpuRun, CodeReads, CodeOffset, ItemsFor, Emit;
    ThirdOffsets();
    PositionReads(f, bin, 2);
    k := ReturnRuns(bin, 12, 3, CodeOffset(f, 3), cpu);
  }

  lemma ThirdCompiledRun(f: Source, bin: Binary, cpu: Cpu) returns (k: nat)
    requires f == ThirdSource() && BuiltFrom(bin, f) && HasRegisters(cpu) && cpu.pc == 0
    ensures CpuRun(bin.code, cpu, k) == Halted((7 + cpu.regs[RAX] % W32) % W32, cpu.mem)
  {
    hide BuiltFrom, CpuRun, CpuStep, ThirdSource;
    var sum := (7 + cpu.regs[RAX] % W32) % W32;
    var c1 := cpu.(pc := 10, regs := cpu.regs[3 := 7]);
    var c2 := c1.(pc := 12, regs := c1.regs[3 := sum], zf := sum == 0);
    ThirdConstRuns(f, bin, cpu);
    ThirdAddRuns(f, bin, c1);
    OneStepRun(bin.code, c1);
    k := ThirdReturnRuns(f, bin, c2);
    RunsJoin(bin.code, c1, 1, k, Halted(sum, cpu.mem));
    RunsJoin(bin.code, cpu, 1, 1 + k, Halted(sum, cpu.mem));
    k := 1 + (1 + k);
  }

  /**
    With three arguments the sum is taken with whatever RAX holds: the third argument, which the
    interpreter adds, has no influence on what the generated code returns.
  */
  lemma ThirdArgumentIsIgnored(env: Env, values: seq<Word>, pool: seq<Word>, mem: Memory, cpu: Cpu) returns (k: nat)
    requires env.m == ThirdModule() && |pool| >= 5 && CalledWith(ThirdSource(), values, mem, cpu)
    ensures EvalFunc(env, 0, values, pool, mem, 3) == Returned(Sum64(7, values[2]), mem)
    ensures CpuRun(CodeOf(ThirdSource()), cpu, k) == Halted((7 + cpu.regs[RAX] % W32) % W32, mem)
  {
    hide CpuRun, CodeOf, BuiltFrom;
    ThirdInterpreted(env, values, pool, mem);
    var bin := BinaryExists(ThirdSource(), CodeOf(ThirdSource()));
    k := ThirdCompiledRun(ThirdSource(), bin, cpu);
  }
}

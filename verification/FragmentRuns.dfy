/** The two engines on whole runs of a function of the fragment. */
module FragmentRuns {
  import opened Words
  import opened Ir
  import opened Interp
  import opened Activation
  import opened Refinement
  import opened Interpretation
  import opened X86
  import opened Emission
  import opened RegisterPass
  import opened Simulation
  import opened Leaf
  import opened JitCorrectness
  import opened Paths
  import opened Fragment
  import opened Fixed

  /** Every result is one of the function's values. */
  ghost predicate ResultsFit(f: Func) {
    forall b: nat, j: nat :: b < |f.blocks| && j < |f.blocks[b]| ==> ResultFits(f, f.blocks[b][j])
  }

  lemma FragmentIsLeaf(g: Func, f: Source, entries: seq<set<nat>>)
    requires IsSource(f, g) && InFragment(f, entries) && ResultsFit(g)
    ensures IsLeaf(g)
  {
    forall b: nat, j: nat | b < |g.blocks| && j < |g.blocks[b]|
      ensures LeafInstr(g, g.blocks[b][j])
    {
      BlockOfPosition(f, b, j);
      assert Simple(InsAt(f, PositionOf(f, b, j)));
    }
  }

  /** rax is w in the form of the value that the RET at that position returns. */
  ghost predicate ReturnsInForm(f: Source, block: nat, index: nat, rax: Word, w: Word) {
    && block < |f.blocks| && index < |f.blocks[block]|
    && var i := f.blocks[block][index];
       i.Ret? && rax == RegOf(FormOf(f, i.result.id), w) && (rax == w <==> KeepsWord(FormOf(f, i.result.id), w))
  }

  lemma ReturnForm(f: Source, entries: seq<set<nat>>, block: nat, index: nat, rax: Word, w: Word)
    requires InFragment(f, entries) && ReturnsAt(f, LiveOf(f, entries), block, index, rax, w)
    ensures ReturnsInForm(f, block, index, rax, w)
  {
    ReadIsUsable(f, entries, block, index, f.blocks[block][index].result.id);
    FormIsExact(FormOf(f, f.blocks[block][index].result.id), w);
  }

  /**
    A function of the fragment, called with its arguments in registers: as long as its branches
    test slots on which both tests agree, the generated code follows the interpreter block by
    block and returns its result in the form of the value returned, which keeps the whole word
    exactly when that form is exact or the upper half is the extension.
  */
  lemma FragmentMatchesInterpreter(env: Env, fi: nat, f: Source, entries: seq<set<nat>>,
                                   values: seq<Word>, pool: seq<Word>, mem: Memory, code: seq<Byte>, cpu: Cpu, limit: nat)
    returns (k: nat)
    requires fi < |env.m| && IsSource(f, env.m[fi]) && InFragment(f, entries)
    requires ResultsFit(env.m[fi]) && f.args <= |env.m[fi].values|
    requires CodeOf(f) <= code && CalledWith(f, values, mem, cpu)
    requires RunTestsAgree(env, f, LiveOf(f, entries), Stack(FirstAct(env.m, fi, values, |pool|), [], mem, 0), limit)
    ensures var q := CpuRun(code, cpu, k);
            match EvalFunc(env, fi, values, pool, mem, limit)
            case Running(s) => k >= limit && q.Executing? && Abreast(f, LiveOf(f, entries), fi, s, q.cpu)
            case Returned(w, after) =>
              && q.Halted? && q.mem == after && q.rax % W32 == w % W32
              && var last := FinalState(env, fi, values, pool, mem, limit);
                 last.Some? && ReturnsInForm(f, last.value.block, last.value.index, q.rax, w)
            case Stop(_) => true
  {
    FragmentIsSimulated(f, entries);
    FragmentIsLeaf(env.m[fi], f, entries);
    var bin := BinaryExists(f, code);
    k := JitMatchesInterpreter(env, fi, f, bin, LiveOf(f, entries), values, pool, mem, cpu, limit);
    var o := EvalFunc(env, fi, values, pool, mem, limit);
    if o.Returned? {
      var last := FinalState(env, fi, values, pool, mem, limit).value;
      ReturnForm(f, entries, last.block, last.index, CpuRun(code, cpu, k).rax, o.w);
    }
  }

  // ----- conditions on constants and arguments alone -----

  lemma FragmentHasSingleAssignment(f: Source, entries: seq<set<nat>>)
    requires InFragment(f, entries)
    ensures SingleAssignment(f)
  {
  }

  /** How the stack machine's run of an interpretation without fault begins and ends. */
  lemma FragmentOnStack(env: Env, fi: nat, f: Source, entries: seq<set<nat>>,
                        values: seq<Word>, pool: seq<Word>, mem: Memory, limit: nat)
    requires fi < |env.m| && IsSource(f, env.m[fi]) && InFragment(f, entries) && f.args <= |values|
    requires ResultsFit(env.m[fi]) && f.args <= |env.m[fi].values|
    requires !EvalFunc(env, fi, values, pool, mem, limit).Stop?
    ensures IsLeaf(env.m[fi]) && |LiveOf(f, entries)| == |f.blocks|
    ensures RegsFixed(f, values, FirstAct(env.m, fi, values, |pool|).regs)
    ensures !StackRun(AloneIn(env, fi), Stack(FirstAct(env.m, fi, values, |pool|), [], mem, 0), limit).Stop?
  {
    hide InFragment, EntryOk, SingleAssignment, RegsFixed, StackRun, EvalFunc, IsLeaf, ResultsFit;
    FragmentIsSimulated(f, entries);
    FragmentHasLive(f, entries);
    hide JitOk;
    FragmentIsLeaf(env.m[fi], f, entries);
    FragmentHasSingleAssignment(f, entries);
    NoFaultOnStack(env, fi, f, LiveOf(f, entries), values, pool, mem, limit);
    EntryFixed(f, values, FirstAct(env.m, fi, values, |pool|).regs);
  }

  /** The tests of an interpretation without fault agree exactly when they agree on the way determined. */
  lemma WalkMeansRun(env: Env, fi: nat, f: Source, entries: seq<set<nat>>,
                     values: seq<Word>, pool: seq<Word>, mem: Memory, limit: nat)
    requires fi < |env.m| && IsSource(f, env.m[fi]) && InFragment(f, entries) && f.args <= |values|
    requires ResultsFit(env.m[fi]) && f.args <= |env.m[fi].values|
    requires !EvalFunc(env, fi, values, pool, mem, limit).Stop?
    ensures |LiveOf(f, entries)| == |f.blocks|
    ensures RunTestsAgree(env, f, LiveOf(f, entries), Stack(FirstAct(env.m, fi, values, |pool|), [], mem, 0), limit) <==>
            WalkAgrees(f, values, 0, 0, limit)
  {
    hide InFragment, RegsFixed, RunTestsAgree, WalkAgrees, StackRun, EvalFunc, IsLeaf, ResultsFit;
    FragmentOnStack(env, fi, f, entries, values, pool, mem, limit);
    var live, r := LiveOf(f, entries), Stack(FirstAct(env.m, fi, values, |pool|), [], mem, 0);
    LeafTests(env, fi, f, live, r, limit);
    RunAgreesIffWalk(AloneIn(env, fi), fi, f, entries, values, r, limit);
  }

  /**
    As long as the interpreter meets no fault, the code takes its path up to the limit exactly when
    both tests agree at every conditional branch on the way that constants and arguments determine.
  */
  lemma FragmentPathsAgreeIff(env: Env, fi: nat, f: Source, entries: seq<set<nat>>,
                              values: seq<Word>, pool: seq<Word>, mem: Memory, code: seq<Byte>, cpu: Cpu, limit: nat)
    requires fi < |env.m| && IsSource(f, env.m[fi]) && InFragment(f, entries) && NoEmptyBlocks(f)
    requires ResultsFit(env.m[fi]) && f.args <= |env.m[fi].values|
    requires CodeOf(f) <= code && CalledWith(f, values, mem, cpu) && !EvalFunc(env, fi, values, pool, mem, limit).Stop?
    ensures Takes(f, code, cpu, PathOf(env, fi, f, values, pool, mem, limit)) <==>
            WalkAgrees(f, values, 0, 0, limit)
  {
    FragmentIsSimulated(f, entries);
    FragmentIsLeaf(env.m[fi], f, entries);
    var bin := BinaryExists(f, code);
    JitPathsAgreeIff(env, fi, f, bin, LiveOf(f, entries), values, pool, mem, cpu, limit);
    WalkMeansRun(env, fi, f, entries, values, pool, mem, limit);
  }

  lemma {:induction false} ReturnedHolds(env: Env, fi: nat, f: Source, entries: seq<set<nat>>, values: seq<Word>, r: Stack,
                                         limit: nat)
    requires fi < |env.m| && IsSource(f, env.m[fi]) && InFragment(f, entries)
    requires r.callers == [] && r.cur.func == fi && RegsFixed(f, values, r.cur.regs) && StackRun(env, r, limit).Returned?
    ensures ReturnsValue(f, values, LastAct(env, r, limit).block, LastAct(env, r, limit).index, StackRun(env, r, limit).w)
    decreases limit - r.clock
  {
    hide InFragment, RegsFixed, StackStep, ReturnsValue;
    StepHolds(env, fi, f, entries, values, r);
    if StackStep(env, r).Running? {
      ReturnedHolds(env, fi, f, entries, values, StackStep(env, r).s, limit);
    } else {
      LastHolds(env, fi, f, entries, values, r);
    }
  }

  /** The RET at that position returns w, which is the value of its operand up to its form. */
  ghost predicate ReturnsValue(f: Source, values: seq<Word>, block: nat, index: nat, w: Word) {
    && block < |f.blocks| && index < |f.blocks[block]|
    && var i := f.blocks[block][index];
       i.Ret? && HoldsValue(f, values, i.result.id, w)
  }

  lemma LastHolds(env: Env, fi: nat, f: Source, entries: seq<set<nat>>, values: seq<Word>, r: Stack)
    requires fi < |env.m| && IsSource(f, env.m[fi]) && InFragment(f, entries)
    requires r.callers == [] && r.cur.func == fi && RegsFixed(f, values, r.cur.regs) && StackStep(env, r).Returned?
    ensures ReturnsValue(f, values, r.cur.block, r.cur.index, StackStep(env, r).w)
  {
    BlockOfPosition(f, r.cur.block, r.cur.index);
    var i := InsAt(f, PositionOf(f, r.cur.block, r.cur.index));
    assert Simple(i);
    if i.Ret? {
      assert [i.result.id][0] == i.result.id;
    } else if i.IsData() {
      DataMoves(i, r.cur, r.mem, env.junk(r.clock));
    }
  }

  /** A form sees the value only. */
  lemma FormSeesValue(f: Source, values: seq<Word>, v: nat, w: Word)
    requires HoldsValue(f, values, v, w)
    ensures RegOf(FormOf(f, v), w) == RegOf(FormOf(f, v), ValueOf(f, values, v))
  {
  }

  /**
    rax is the fixed value of the RET's operand, in its form. Where no CONST_I32 enters that value it
    is what the interpreter returns, and rax is all of it exactly when the form keeps it.
  */
  ghost predicate ComputesValue(f: Source, values: seq<Word>, block: nat, index: nat, rax: Word, w: Word) {
    && ReturnsValue(f, values, block, index, w) && ReturnsInForm(f, block, index, rax, w)
    && var v := f.blocks[block][index].result.id;
       && rax == RegOf(FormOf(f, v), ValueOf(f, values, v))
       && (WholeOf(f, v) ==> w == ValueOf(f, values, v) && (rax == w <==> KeepsWord(FormOf(f, v), ValueOf(f, values, v))))
  }

  /**
    A condition the caller can evaluate from the constants and the arguments: if both tests agree at
    every conditional branch on the way these determine, the generated code does what the interpreter
    does, and what it returns is the fixed value of the result.
  */
  lemma FragmentComputes(env: Env, fi: nat, f: Source, entries: seq<set<nat>>,
                         values: seq<Word>, pool: seq<Word>, mem: Memory, code: seq<Byte>, cpu: Cpu, limit: nat)
    returns (k: nat)
    requires fi < |env.m| && IsSource(f, env.m[fi]) && InFragment(f, entries)
    requires ResultsFit(env.m[fi]) && f.args <= |env.m[fi].values|
    requires CodeOf(f) <= code && CalledWith(f, values, mem, cpu) && WalkAgrees(f, values, 0, 0, limit)
    ensures var q := CpuRun(code, cpu, k);
            match EvalFunc(env, fi, values, pool, mem, limit)
            case Running(s) => k >= limit && q.Executing? && Abreast(f, LiveOf(f, entries), fi, s, q.cpu)
            case Returned(w, after) =>
              && q.Halted? && q.mem == after
              && var last := FinalState(env, fi, values, pool, mem, limit);
                 last.Some? && ComputesValue(f, values, last.value.block, last.value.index, q.rax, w)
            case Stop(_) => true
  {
    k := 0;
    if EvalFunc(env, fi, values, pool, mem, limit).Stop? {
      return;
    }
    WalkMeansRun(env, fi, f, entries, values, pool, mem, limit);
    k := FragmentMatchesInterpreter(env, fi, f, entries, values, pool, mem, code, cpu, limit);
    var o := EvalFunc(env, fi, values, pool, mem, limit);
    if o.Returned? {
      ResultHolds(env, fi, f, entries, values, pool, mem, limit);
      var last := FinalState(env, fi, values, pool, mem, limit).value;
      FormSeesValue(f, values, f.blocks[last.block][last.index].result.id, o.w);
    }
  }

  /** What the interpreter returns is the fixed value of the result, up to its form. */
  lemma ResultHolds(env: Env, fi: nat, f: Source, entries: seq<set<nat>>,
                    values: seq<Word>, pool: seq<Word>, mem: Memory, limit: nat)
    requires fi < |env.m| && IsSource(f, env.m[fi]) && InFragment(f, entries)
    requires ResultsFit(env.m[fi]) && f.args <= |values|
    requires f.args <= |env.m[fi].values| && EvalFunc(env, fi, values, pool, mem, limit).Returned?
    ensures var last := FinalState(env, fi, values, pool, mem, limit);
            last.Some? && ReturnsValue(f, values, last.value.block, last.value.index,
                                       EvalFunc(env, fi, values, pool, mem, limit).w)
  {
    hide Flat, Emit;
    var alone := AloneIn(env, fi);
    FragmentIsSimulated(f, entries);
    FragmentIsLeaf(env.m[fi], f, entries);
    AloneIsWindowed(env.m, fi);
    LeafEvaluation(env, fi, values, pool, mem, limit);
    var s := Start(alone, fi, values, pool, mem).s;
    var r := Stack(FirstAct(env.m, fi, values, |pool|), [], mem, 0);
    EntryFixed(f, values, r.cur.regs);
    NeverUnset(env, fi, f, LiveOf(f, entries), values, pool, mem, limit);
    hide Step, StackStep, InFragment, JitOk, EntryOk, RegsFixed, ReturnsValue;
    RunRefines(alone, s, r, limit);
    LastMatches(alone, s, r, limit);
    ReturnedHolds(alone, fi, f, entries, values, r, limit);
  }
}

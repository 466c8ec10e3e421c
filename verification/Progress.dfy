/**
  Termination and resource bounds. A ranking of the functions along calls (its existence means
  there is no recursion) bounds the frames and the pool; with forward branches it also bounds
  the number of iterations.
*/
module Progress {
  import opened Words
  import opened Ir
  import opened Interp
  import opened Refinement
  import opened Frames

  type Ranking = seq<nat>

  /** Every call goes to a function of smaller rank. */
  ghost predicate Ranked(m: Module, rank: Ranking) {
    && |rank| == |m|
    && forall f: nat, b: nat, j: nat :: At(m, f, b, j) ==> CallsDown(m, rank, f, InstrAt(m, f, b, j))
  }

  predicate CallsDown(m: Module, rank: Ranking, f: nat, i: Instr)
    requires |rank| == |m| && f < |m|
  {
    i.CallFunc? && i.func < |m| ==> rank[i.func] < rank[f]
  }

  predicate GoesForward(b: nat, i: Instr) {
    match i
    case Br(t) => t > b
    case CondBr(_, t, f) => t > b && f > b
    case _ => true
  }

  ghost predicate Forward(m: Module) {
    forall f: nat, b: nat, j: nat :: At(m, f, b, j) ==> GoesForward(b, InstrAt(m, f, b, j))
  }

  // ----- iterations -----

  /** Iterations for one instruction: itself plus, for a call, all of the callee. */
  function Cost(m: Module, rank: Ranking, r: nat, i: Instr): (c: nat)
    requires |rank| == |m|
    ensures c >= 1
    decreases r, 0
  {
    1 + if i.CallFunc? && i.func < |m| && rank[i.func] < r then Work(m, rank, i.func, 0) else 0
  }

  /** Iterations for the rest of a block. */
  function BlockWork(m: Module, rank: Ranking, f: nat, b: nat, j: nat): nat
    requires |rank| == |m| && f < |m| && b < |m[f].blocks|
    decreases rank[f], 1, |m[f].blocks[b]| - j
  {
    if j >= |m[f].blocks[b]| then 0
    else Cost(m, rank, rank[f], m[f].blocks[b][j]) + BlockWork(m, rank, f, b, j + 1)
  }

  /** Iterations for all blocks from b on. */
  function Work(m: Module, rank: Ranking, f: nat, b: nat): nat
    requires |rank| == |m| && f < |m|
    decreases rank[f], 2, |m[f].blocks| - b
  {
    if b >= |m[f].blocks| then 0 else BlockWork(m, rank, f, b, 0) + Work(m, rank, f, b + 1)
  }

  /** Iterations left in an activation: the rest of its block and every later block. */
  function Left(m: Module, rank: Ranking, f: nat, b: nat, j: nat): nat
    requires |rank| == |m|
  {
    if f >= |m| || b >= |m[f].blocks| then 0 else BlockWork(m, rank, f, b, j) + Work(m, rank, f, b + 1)
  }

  function LeftInFrames(m: Module, rank: Ranking, frames: seq<Frame>): nat
    requires |rank| == |m|
  {
    if |frames| == 0 then 0
    else
      var f := frames[|frames| - 1];
      LeftInFrames(m, rank, frames[..|frames| - 1]) + Left(m, rank, f.func, f.block, f.index + 1)
  }

  function Measure(m: Module, rank: Ranking, s: State): nat
    requires |rank| == |m|
  {
    Left(m, rank, s.func, s.block, s.index) + LeftInFrames(m, rank, s.frames)
  }

  lemma {:induction false} LaterBlocksLess(m: Module, rank: Ranking, f: nat, b: nat, c: nat)
    requires |rank| == |m| && f < |m| && b <= c
    ensures Work(m, rank, f, c) <= Work(m, rank, f, b)
    decreases c - b
  {
    if b < c {
      LaterBlocksLess(m, rank, f, b + 1, c);
    }
  }

  lemma LeftAtBlock(m: Module, rank: Ranking, f: nat, b: nat)
    requires |rank| == |m| && f < |m|
    ensures Left(m, rank, f, b, 0) == Work(m, rank, f, b)
  {
  }

  lemma LeftAtInstr(m: Module, rank: Ranking, f: nat, b: nat, j: nat)
    requires |rank| == |m| && At(m, f, b, j)
    ensures Left(m, rank, f, b, j) == Cost(m, rank, rank[f], InstrAt(m, f, b, j)) + Left(m, rank, f, b, j + 1)
    ensures Left(m, rank, f, b, j + 1) >= Work(m, rank, f, b + 1)
  {
  }

  lemma JumpLess(m: Module, rank: Ranking, f: nat, b: nat, j: nat, t: nat)
    requires |rank| == |m| && At(m, f, b, j) && t > b
    ensures Left(m, rank, f, t, 0) < Left(m, rank, f, b, j)
  {
    LeftAtInstr(m, rank, f, b, j);
    LeftAtBlock(m, rank, f, t);
    LaterBlocksLess(m, rank, f, b + 1, t);
  }

  /** Where an instruction other than a call or a return leads. */
  lemma PlainLeads(env: Env, s: State)
    requires Step(env, s).Running?
    requires var i := InstrAt(env.m, s.func, s.block, s.index); !i.CallFunc? && !i.Ret?
    ensures var i := InstrAt(env.m, s.func, s.block, s.index);
            var t := Step(env, s).s;
            && t.func == s.func && t.frames == s.frames
            && match i
               case Br(b) => t.block == b && t.index == 0
               case CondBr(_, b, e) => (t.block == b || t.block == e) && t.index == 0
               case _ => t.block == s.block && t.index == s.index + 1
  {
  }

  lemma CallDrops(env: Env, rank: Ranking, s: State)
    requires Ranked(env.m, rank) && Step(env, s).Running?
    requires InstrAt(env.m, s.func, s.block, s.index).CallFunc?
    ensures Measure(env.m, rank, Step(env, s).s) < Measure(env.m, rank, s)
  {
    var t := Step(env, s).s;
    var i := InstrAt(env.m, s.func, s.block, s.index);
    hide Step;
    CallStep(env, s);
    assert CallsDown(env.m, rank, s.func, i);
    LeftAtInstr(env.m, rank, s.func, s.block, s.index);
    assert t.frames[..|s.frames|] == s.frames;
    LeftAtBlock(env.m, rank, t.func, 0);
  }

  lemma RetDrops(env: Env, rank: Ranking, s: State)
    requires |rank| == |env.m| && Step(env, s).Running?
    requires InstrAt(env.m, s.func, s.block, s.index).Ret?
    ensures Measure(env.m, rank, Step(env, s).s) < Measure(env.m, rank, s)
  {
    var i := InstrAt(env.m, s.func, s.block, s.index);
    hide Step;
    RetStep(env, s);
    LeftAtInstr(env.m, rank, s.func, s.block, s.index);
  }

  lemma PlainDrops(env: Env, rank: Ranking, s: State)
    requires |rank| == |env.m| && Forward(env.m) && Step(env, s).Running?
    requires var i := InstrAt(env.m, s.func, s.block, s.index); !i.CallFunc? && !i.Ret?
    ensures Measure(env.m, rank, Step(env, s).s) < Measure(env.m, rank, s)
  {
    var i := InstrAt(env.m, s.func, s.block, s.index);
    hide Step;
    PlainLeads(env, s);
    assert GoesForward(s.block, i);
    if i.Br? || i.CondBr? {
      JumpLess(env.m, rank, s.func, s.block, s.index, Step(env, s).s.block);
    } else {
      LeftAtInstr(env.m, rank, s.func, s.block, s.index);
    }
  }

  /** Every iteration uses up some of the work that was left. */
  lemma MeasureDrops(env: Env, rank: Ranking, s: State)
    requires Ranked(env.m, rank) && Forward(env.m) && Step(env, s).Running?
    ensures Measure(env.m, rank, Step(env, s).s) < Measure(env.m, rank, s)
  {
    hide Measure;
    var i := InstrAt(env.m, s.func, s.block, s.index);
    if i.CallFunc? {
      CallDrops(env, rank, s);
    } else if i.Ret? {
      RetDrops(env, rank, s);
    } else {
      PlainDrops(env, rank, s);
    }
  }

  lemma {:induction false} RunEnds(env: Env, rank: Ranking, s: State, limit: nat)
    requires Ranked(env.m, rank) && Forward(env.m)
    requires limit > s.clock + Measure(env.m, rank, s)
    ensures !Run(env, s, limit).Running?
    decreases limit - s.clock
  {
    if Step(env, s).Running? {
      MeasureDrops(env, rank, s);
      RunEnds(env, rank, Step(env, s).s, limit);
    }
  }

  // ----- frames and pool -----

  ghost predicate ValuesAtMost(m: Module, v: nat) {
    forall f :: 0 <= f < |m| ==> |m[f].values| <= v
  }

  /** Depth plus remaining rank never exceeds k, and each frame costs at most v slots. */
  ghost predicate WithinBudget(m: Module, rank: Ranking, k: nat, v: nat, s: State)
    requires |rank| == |m|
  {
    && s.func < |m|
    && |s.frames| + rank[s.func] <= k
    && s.base <= |s.frames| * v
    && (forall n :: 0 <= n < |s.frames| ==> FrameWithinBudget(m, rank, k, v, s.frames[n], n))
  }

  ghost predicate FrameWithinBudget(m: Module, rank: Ranking, k: nat, v: nat, f: Frame, n: nat)
    requires |rank| == |m|
  {
    f.func < |m| && n + rank[f.func] <= k && f.base <= n * v
  }

  lemma BudgetStep(env: Env, rank: Ranking, k: nat, v: nat, s: State)
    requires Ranked(env.m, rank) && ValuesAtMost(env.m, v) && WithinBudget(env.m, rank, k, v, s)
    requires Step(env, s).Running?
    ensures WithinBudget(env.m, rank, k, v, Step(env, s).s)
  {
    var t := Step(env, s).s;
    var i := InstrAt(env.m, s.func, s.block, s.index);
    hide Step;
    if i.CallFunc? {
      CallStep(env, s);
      assert CallsDown(env.m, rank, s.func, i);
      assert (|s.frames| + 1) * v == |s.frames| * v + v;
      assert FrameWithinBudget(env.m, rank, k, v, t.frames[|s.frames|], |s.frames|);
    } else if i.Ret? {
      RetStep(env, s);
      assert FrameWithinBudget(env.m, rank, k, v, s.frames[|s.frames| - 1], |s.frames| - 1);
    } else {
      PlainStep(env, s);
    }
  }

  /**
    If the longest call chain from the entry function has k calls and no function has more than v
    values, every reachable state has at most k frames and every slot of the current function lies
    below (k+1)*v.
  */
  lemma {:induction false} RunWithinBudget(env: Env, rank: Ranking, k: nat, v: nat, s: State, limit: nat)
    requires Ranked(env.m, rank) && ValuesAtMost(env.m, v) && WithinBudget(env.m, rank, k, v, s)
    requires Run(env, s, limit).Running?
    ensures var t := Run(env, s, limit).s;
            && WithinBudget(env.m, rank, k, v, t)
            && |t.frames| <= k
            && t.base + |env.m[t.func].values| <= (k + 1) * v
    decreases limit - s.clock
  {
    if s.clock < limit {
      BudgetStep(env, rank, k, v, s);
      RunWithinBudget(env, rank, k, v, Step(env, s).s, limit);
    } else {
      SlotsBelow(env.m, rank, k, v, s);
    }
  }

  lemma OneWindowFits(n: nat, k: nat, v: nat, base: nat, size: nat)
    requires n <= k && base <= n * v && size <= v
    ensures base + size <= (k + 1) * v
  {
    MulMonotone(n + 1, k + 1, v);
    assert (n + 1) * v == n * v + v;
  }

  lemma SlotsBelow(m: Module, rank: Ranking, k: nat, v: nat, s: State)
    requires |rank| == |m| && ValuesAtMost(m, v) && WithinBudget(m, rank, k, v, s)
    ensures s.base + |m[s.func].values| <= (k + 1) * v
  {
    OneWindowFits(|s.frames|, k, v, s.base, |m[s.func].values|);
  }

  // ----- nothing but arithmetic, memory and missing results can go wrong -----

  /** Operands and results are ids of the function itself, and calls do not shrink the window. */
  predicate InsideInstr(m: Module, f: Func, i: Instr) {
    WindowInstr(m, f, i) && OwnOperands(f, i)
  }

  /** Control can only reach existing instructions. */
  predicate LinkedInstr(m: Module, f: Func, b: nat, j: nat, i: Instr)
    requires b < |f.blocks|
  {
    && (j + 1 < |f.blocks[b]| || i.IsTerminator())
    && match i
       case Br(t) => t < |f.blocks| && |f.blocks[t]| > 0
       case CondBr(_, t, e) => t < |f.blocks| && |f.blocks[t]| > 0 && e < |f.blocks| && |f.blocks[e]| > 0
       case CallFunc(g, args, _) =>
         g < |m| && |m[g].args| <= |args| && |m[g].blocks| > 0 && |m[g].blocks[0]| > 0
       case _ => true
  }

  ghost predicate Linked(m: Module) {
    forall f: nat, b: nat, j: nat :: At(m, f, b, j) ==>
      var i := InstrAt(m, f, b, j);
      InsideInstr(m, m[f], i) && LinkedInstr(m, m[f], b, j, i)
  }

  ghost predicate Positioned(m: Module, s: State) {
    && At(m, s.func, s.block, s.index)
    && (forall n :: 0 <= n < |s.frames| ==> FramePositioned(m, s.frames[n]))
  }

  ghost predicate FramePositioned(m: Module, f: Frame) {
    At(m, f.func, f.block, f.index + 1) && f.gen < |m[f.func].values|
  }

  /** The faults that depend on the data rather than on the machine's arrays. */
  predicate DataFault(f: Fault) {
    f == DivideTrap || f == BadAddress || f == BadBool || f == VoidResult
  }

  lemma DataStaysInside(i: Instr, s: State, junk: Word, m: Module, f: Func)
    requires i.IsData() && InsideInstr(m, f, i) && s.base + |f.values| <= |s.pool|
    ensures var o := StepData(i, s, junk);
            if o.Stop? then DataFault(o.fault) else o.Running? && o.s.index == s.index + 1 && o.s.block == s.block
  {
    var v := ReadPool(s.pool, s.base, DataUses(i));
    assert v.Some?;
    DataFaultsOnly(i, v.value, s.mem, junk);
  }

  lemma DataFaultsOnly(i: Instr, v: seq<Word>, mem: Memory, junk: Word)
    requires i.IsData() && |v| == |DataUses(i)|
    ensures var d := DataStep(i, v, mem, junk);
            && (d.Trapped? ==> DataFault(d.fault))
            && (d.Wrote? ==> i.HasGen())
  {
  }

  lemma FrameSlotsBelow(m: Module, rank: Ranking, k: nat, v: nat, f: Frame, n: nat)
    requires |rank| == |m| && ValuesAtMost(m, v) && FrameWithinBudget(m, rank, k, v, f, n)
    ensures f.base + |m[f.func].values| <= (k + 1) * v
  {
    OneWindowFits(n, k, v, f.base, |m[f.func].values|);
  }

  lemma CallProgress(env: Env, s: State)
    requires Linked(env.m) && Positioned(env.m, s) && InstrAt(env.m, s.func, s.block, s.index).CallFunc?
    requires |s.frames| < env.frameCap && s.base + |env.m[s.func].values| <= |s.pool|
    requires var g := InstrAt(env.m, s.func, s.block, s.index).func;
             g < |env.m| ==> s.base + |env.m[g].values| + |env.m[g].values| <= |s.pool|
    ensures Step(env, s).Running? && Positioned(env.m, Step(env, s).s)
  {
    var i := InstrAt(env.m, s.func, s.block, s.index);
    assert InsideInstr(env.m, env.m[s.func], i) && LinkedInstr(env.m, env.m[s.func], s.block, s.index, i);
    var ids := Ids(i.args[..|env.m[i.func].args|]);
    var base := s.base + |env.m[i.func].values|;
    CopyInside(s.pool, s.base, base, ids);
    CallStep(env, s);
    assert FramePositioned(env.m, Frame(s.func, s.block, s.index, i.gen.id, s.base));
  }

  lemma RetProgress(env: Env, s: State)
    requires Linked(env.m) && Positioned(env.m, s) && InstrAt(env.m, s.func, s.block, s.index).Ret?
    requires s.base + |env.m[s.func].values| <= |s.pool|
    requires |s.frames| > 0 ==> var f := s.frames[|s.frames| - 1];
             f.func < |env.m| && f.base + |env.m[f.func].values| <= |s.pool|
    ensures var o := Step(env, s);
            !o.Stop? && (o.Running? ==> Positioned(env.m, o.s))
  {
    var i := InstrAt(env.m, s.func, s.block, s.index);
    assert InsideInstr(env.m, env.m[s.func], i);
    if |s.frames| > 0 {
      assert FramePositioned(env.m, s.frames[|s.frames| - 1]);
    }
  }

  lemma PlainProgress(env: Env, s: State)
    requires Linked(env.m) && Positioned(env.m, s)
    requires var i := InstrAt(env.m, s.func, s.block, s.index); !i.CallFunc? && !i.Ret?
    requires s.base + |env.m[s.func].values| <= |s.pool|
    ensures var o := Step(env, s);
            if o.Stop? then DataFault(o.fault) else o.Running? ==> Positioned(env.m, o.s)
  {
    hide DataStep;
    var i := InstrAt(env.m, s.func, s.block, s.index);
    assert InsideInstr(env.m, env.m[s.func], i) && LinkedInstr(env.m, env.m[s.func], s.block, s.index, i);
    if i.IsData() {
      DataStaysInside(i, s, env.junk(s.clock), env.m, env.m[s.func]);
    }
  }

  lemma CalleeSlotsBelow(m: Module, rank: Ranking, k: nat, v: nat, s: State)
    requires Linked(m) && Ranked(m, rank) && ValuesAtMost(m, v) && WithinBudget(m, rank, k, v, s)
    requires Positioned(m, s) && InstrAt(m, s.func, s.block, s.index).CallFunc?
    ensures var g := InstrAt(m, s.func, s.block, s.index).func;
            && |s.frames| < k && g < |m|
            && s.base + |m[g].values| + |m[g].values| <= (k + 1) * v
  {
    var i := InstrAt(m, s.func, s.block, s.index);
    assert LinkedInstr(m, m[s.func], s.block, s.index, i);
    assert CallsDown(m, rank, s.func, i);
    TwoWindowsFit(|s.frames|, k, v, s.base, |m[i.func].values|);
  }

  lemma TwoWindowsFit(n: nat, k: nat, v: nat, base: nat, size: nat)
    requires n < k && base <= n * v && size <= v
    ensures base + size + size <= (k + 1) * v
  {
    MulMonotone(n + 2, k + 1, v);
    assert (n + 2) * v == n * v + v + v;
  }

  /** Within the budget a step never leaves the arrays or the code. */
  lemma StepProgress(env: Env, rank: Ranking, k: nat, v: nat, s: State)
    requires Linked(env.m) && Ranked(env.m, rank) && ValuesAtMost(env.m, v) && WithinBudget(env.m, rank, k, v, s)
    requires Positioned(env.m, s) && k <= env.frameCap && (k + 1) * v <= |s.pool|
    ensures var o := Step(env, s);
            if o.Stop? then DataFault(o.fault) else o.Running? ==> Positioned(env.m, o.s)
  {
    var i := InstrAt(env.m, s.func, s.block, s.index);
    SlotsBelow(env.m, rank, k, v, s);
    if i.CallFunc? {
      CalleeSlotsBelow(env.m, rank, k, v, s);
      CallProgress(env, s);
    } else if i.Ret? {
      if |s.frames| > 0 {
        FrameSlotsBelow(env.m, rank, k, v, s.frames[|s.frames| - 1], |s.frames| - 1);
      }
      RetProgress(env, s);
    } else {
      PlainProgress(env, s);
    }
  }

  lemma {:induction false} RunProgress(env: Env, rank: Ranking, k: nat, v: nat, s: State, limit: nat)
    requires Linked(env.m) && Ranked(env.m, rank) && ValuesAtMost(env.m, v) && WithinBudget(env.m, rank, k, v, s)
    requires Positioned(env.m, s) && k <= env.frameCap && (k + 1) * v <= |s.pool|
    ensures var o := Run(env, s, limit);
            o.Stop? ==> DataFault(o.fault)
    decreases limit - s.clock
  {
    if s.clock < limit {
      StepProgress(env, rank, k, v, s);
      if Step(env, s).Running? {
        BudgetStep(env, rank, k, v, s);
        RunProgress(env, rank, k, v, Step(env, s).s, limit);
      }
    }
  }

  /**
    A linked module without recursion and with forward branches always finishes: after at most
    Work iterations the entry function has returned or hit a fault of its data, provided the frame
    array holds the longest call chain k and the pool holds k+1 windows of v values.
  */
  lemma AlwaysFinishes(env: Env, rank: Ranking, k: nat, v: nat,
                       func: nat, values: seq<Word>, pool: seq<Word>, mem: Memory, limit: nat)
    requires Linked(env.m) && Forward(env.m) && Ranked(env.m, rank) && ValuesAtMost(env.m, v)
    requires At(env.m, func, 0, 0) && |env.m[func].args| <= |values| && |env.m[func].args| <= v
    requires rank[func] <= k <= env.frameCap && (k + 1) * v <= |pool|
    requires limit > Work(env.m, rank, func, 0)
    ensures var o := EvalFunc(env, func, values, pool, mem, limit);
            o.Returned? || (o.Stop? && DataFault(o.fault))
  {
    assert (k + 1) * v == k * v + v;
    var s := Start(env, func, values, pool, mem).s;
    LeftAtBlock(env.m, rank, func, 0);
    RunEnds(env, rank, s, limit);
    RunProgress(env, rank, k, v, s, limit);
  }
}

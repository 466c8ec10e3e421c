/**
  The pool machine is the recursive evaluator: register windows of live activations never
  overlap as long as no call goes to a function with fewer values than its caller.
*/
module Refinement {
  import opened Words
  import opened Ir
  import opened Interp
  import opened Activation

  // ----- what a module must satisfy -----

  /** Results stay inside the function's window and calls never shrink the window. */
  predicate WindowInstr(m: Module, f: Func, i: Instr) {
    && ResultFits(f, i)
    && (i.CallFunc? && i.func < |m| ==>
          && |f.values| <= |m[i.func].values|
          && |m[i.func].args| <= |m[i.func].values|)
  }

  ghost predicate Windowed(m: Module) {
    forall f: nat, b: nat, j: nat :: At(m, f, b, j) ==> WindowInstr(m, m[f], InstrAt(m, f, b, j))
  }

  // ----- representation -----

  /** The registers of an activation, found in the window at base. */
  ghost predicate InWindow(m: Module, act: Act, base: nat, pool: seq<Word>) {
    && act.func < |m|
    && act.room == |pool| - base
    && (forall k :: k in act.regs ==>
          k < |m[act.func].values| && base + k < |pool| && pool[base + k] == act.regs[k])
  }

  /** The window of act ends before position `next`. */
  ghost predicate EndsBefore(m: Module, act: Act, base: nat, next: nat) {
    act.func < |m| && base + |m[act.func].values| <= next
  }

  ghost predicate FrameOf(m: Module, c: Caller, f: Frame, pool: seq<Word>) {
    && f.func == c.act.func && f.block == c.act.block && f.index == c.act.index && f.gen == c.gen
    && InWindow(m, c.act, f.base, pool)
    && c.gen < |m[c.act.func].values|
  }

  ghost predicate Represents(m: Module, s: State, r: Stack) {
    && s.func == r.cur.func && s.block == r.cur.block && s.index == r.cur.index
    && s.mem == r.mem && s.clock == r.clock
    && |s.frames| == |r.callers|
    && InWindow(m, r.cur, s.base, s.pool)
    && (forall k :: 0 <= k < |s.frames| ==>
          && FrameOf(m, r.callers[k], s.frames[k], s.pool)
          && EndsBefore(m, r.callers[k].act, s.frames[k].base, s.base))
    && (forall j, k :: 0 <= j < k < |s.frames| ==>
          EndsBefore(m, r.callers[j].act, s.frames[j].base, s.frames[k].base))
  }

  /** Same end up to representation; no claim once the evaluator read an unset register. */
  ghost predicate StepMatches(m: Module, o: Outcome<State>, p: Outcome<Stack>) {
    match p
    case Running(r) => o.Running? && Represents(m, o.s, r)
    case Returned(w, mem) => o == Returned(w, mem)
    case Stop(f) => f == Uninit || o == Stop(f)
  }

  lemma ReadsMatch(m: Module, act: Act, base: nat, pool: seq<Word>, ids: seq<nat>)
    requires InWindow(m, act, base, pool)
    ensures match ReadRegs(act, ids)
            case Got(v) => ReadPool(pool, base, ids) == Some(v)
            case Bad(f) => f == Uninit || (f == PoolOverflow && ReadPool(pool, base, ids) == None)
  {
    match ReadRegs(act, ids)
    case Got(v) =>
      assert forall k :: 0 <= k < |ids| ==> ids[k] in act.regs;
      assert ReadPool(pool, base, ids).value == v;
    case Bad(f) =>
  }

  /** Writing inside the current window leaves every suspended window as it was. */
  lemma WriteKeepsFrames(m: Module, s: State, r: Stack, id: nat, w: Word, next: Act)
    requires Represents(m, s, r) && s.base + id < |s.pool| && id < |m[r.cur.func].values|
    requires next == r.cur.(index := next.index, regs := r.cur.regs[id := w])
    ensures Represents(m, Next(s).(pool := s.pool[s.base + id := w], index := next.index),
                       Stack(next, r.callers, r.mem, r.clock + 1))
  {
    var pool := s.pool[s.base + id := w];
    forall k | 0 <= k < |s.frames|
      ensures FrameOf(m, r.callers[k], s.frames[k], pool)
    {
      assert EndsBefore(m, r.callers[k].act, s.frames[k].base, s.base);
      assert FrameOf(m, r.callers[k], s.frames[k], s.pool);
    }
  }

  lemma CommitMatches(m: Module, s: State, r: Stack, i: Instr, d: DataResult)
    requires Represents(m, s, r) && d != Trapped(Uninit)
    requires ResultFits(m[s.func], i)
    ensures StepMatches(m, Commit(i, s, d), Follow(r, CommitAct(i, r.cur, r.mem, d)))
  {
    if d.Wrote? && i.HasGen() && i.gen.id < r.cur.room {
      var next := r.cur.(index := r.cur.index + 1, regs := r.cur.regs[i.gen.id := d.w]);
      WriteKeepsFrames(m, s, r, i.gen.id, d.w, next);
    }
  }

  lemma DataMatches(m: Module, s: State, r: Stack, i: Instr, junk: Word)
    requires Represents(m, s, r) && i.IsData() && WindowInstr(m, m[s.func], i)
    ensures StepMatches(m, StepData(i, s, junk), Follow(r, DecideData(i, r.cur, r.mem, junk)))
  {
    ReadsMatch(m, r.cur, s.base, s.pool, DataUses(i));
    match ReadRegs(r.cur, DataUses(i))
    case Bad(f) =>
    case Got(v) => CommitMatches(m, s, r, i, DataStep(i, v, s.mem, junk));
  }

  /** Copying into a window above the source window is a simultaneous copy. */
  lemma {:induction false} CopyIsSimultaneous(pool: seq<Word>, from: nat, to: nat, size: nat, ids: seq<nat>)
    requires from + size <= to
    requires forall k :: 0 <= k < |ids| ==> ids[k] < size && from + ids[k] < |pool|
    requires |ids| > 0 ==> to + |ids| <= |pool|
    ensures CopyArgs(pool, from, to, ids).Some?
    ensures var p := CopyArgs(pool, from, to, ids).value;
            && (forall k :: 0 <= k < |ids| ==> p[to + k] == pool[from + ids[k]])
            && (forall k :: 0 <= k < |pool| && !(to <= k < to + |ids|) ==> p[k] == pool[k])
    decreases |ids|
  {
    if |ids| > 0 {
      CopyIsSimultaneous(pool, from, to, size, ids[..|ids| - 1]);
    }
  }

  lemma {:induction false} CopyOverflows(pool: seq<Word>, from: nat, to: nat, ids: seq<nat>, k: nat)
    requires k < |ids| && (from + ids[k] >= |pool| || to + k >= |pool|)
    ensures CopyArgs(pool, from, to, ids) == None
    decreases |ids|
  {
    if k < |ids| - 1 {
      CopyOverflows(pool, from, to, ids[..|ids| - 1], k);
    }
  }

  lemma {:induction false} CopyInside(pool: seq<Word>, from: nat, to: nat, ids: seq<nat>)
    requires forall k :: 0 <= k < |ids| ==> from + ids[k] < |pool| && to + k < |pool|
    ensures CopyArgs(pool, from, to, ids).Some?
    decreases |ids|
  {
    if |ids| > 0 {
      var before := ids[..|ids| - 1];
      forall k | 0 <= k < |before|
        ensures from + before[k] < |pool| && to + k < |pool|
      {
        assert before[k] == ids[k];
        assert from + ids[k] < |pool| && to + k < |pool|;
      }
      CopyInside(pool, from, to, before);
    }
  }

  lemma {:induction false} CopyTouches(pool: seq<Word>, from: nat, to: nat, ids: seq<nat>, k: nat)
    requires CopyArgs(pool, from, to, ids).Some? && k < |pool| && k < to
    ensures CopyArgs(pool, from, to, ids).value[k] == pool[k]
    decreases |ids|
  {
    if |ids| > 0 {
      CopyTouches(pool, from, to, ids[..|ids| - 1], k);
    }
  }

  /** The argument loop succeeds exactly when the caller's slots and the callee's slots exist. */
  lemma ArgumentsMatch(m: Module, act: Act, base: nat, pool: seq<Word>, ids: seq<nat>, size: nat)
    requires InWindow(m, act, base, pool) && |m[act.func].values| <= size
    ensures var to := base + size;
            var copied := CopyArgs(pool, base, to, ids);
            if |ids| > 0 && |ids| > act.room - size then copied == None
            else match ReadRegs(act, ids)
              case Bad(f) =>
                if f == PoolOverflow then copied == None
                else
                  && f == Uninit && copied.Some?
                  && (forall k :: 0 <= k < to && k < |pool| ==> copied.value[k] == pool[k])
              case Got(v) =>
                && copied.Some?
                && (forall k :: 0 <= k < |ids| ==> copied.value[to + k] == v[k])
                && (forall k :: 0 <= k < to && k < |pool| ==> copied.value[k] == pool[k])
  {
    hide CopyArgs;
    var to := base + size;
    if |ids| > 0 && |ids| > act.room - size {
      CopyOverflows(pool, base, to, ids, |ids| - 1);
    } else {
      match ReadRegs(act, ids)
      case Bad(f) =>
        if k :| 0 <= k < |ids| && ids[k] >= act.room {
          CopyOverflows(pool, base, to, ids, k);
        } else {
          CopyInside(pool, base, to, ids);
          forall k | 0 <= k < to && k < |pool|
            ensures CopyArgs(pool, base, to, ids).value[k] == pool[k]
          {
            CopyTouches(pool, base, to, ids, k);
          }
        }
      case Got(v) =>
        assert forall k :: 0 <= k < |ids| ==> ids[k] in act.regs;
        CopyIsSimultaneous(pool, base, to, |m[act.func].values|, ids);
    }
  }

  lemma EnterMatches(m: Module, s: State, r: Stack, i: Instr, ids: seq<nat>)
    requires Represents(m, s, r) && i.CallFunc? && i.func < |m| && WindowInstr(m, m[s.func], i)
    requires |ids| == |m[i.func].args|
    ensures var size := |m[i.func].values|;
            var base := s.base + size;
            var move := if |ids| > 0 && |ids| > r.cur.room - size then Traps(PoolOverflow)
                        else Enter(i, r.cur.room - size, ReadRegs(r.cur, ids));
            StepMatches(m, Push(i, s, base, CopyArgs(s.pool, s.base, base, ids)), Follow(r, move))
  {
    hide CopyArgs, ReadRegs;
    var size := |m[i.func].values|;
    ArgumentsMatch(m, r.cur, s.base, s.pool, ids, size);
    if (|ids| == 0 || |ids| <= r.cur.room - size) && ReadRegs(r.cur, ids).Got? {
      PushMatches(m, s, r, i, ReadRegs(r.cur, ids).v, CopyArgs(s.pool, s.base, s.base + size, ids).value);
    }
  }

  lemma CallMatches(env: Env, s: State, r: Stack, i: Instr)
    requires Represents(env.m, s, r) && i.CallFunc? && WindowInstr(env.m, env.m[s.func], i)
    ensures StepMatches(env.m, StepCall(env, i, s), Follow(r, DecideCall(env, |r.callers|, i, r.cur)))
  {
    if |s.frames| < env.frameCap && i.func < |env.m| && |env.m[i.func].args| <= |i.args| {
      EnterMatches(env.m, s, r, i, Ids(i.args[..|env.m[i.func].args|]));
    }
  }

  lemma PushMatches(m: Module, s: State, r: Stack, i: Instr, v: seq<Word>, pool: seq<Word>)
    requires Represents(m, s, r) && i.CallFunc? && i.func < |m| && WindowInstr(m, m[s.func], i)
    requires |v| == |m[i.func].args| && |pool| == |s.pool|
    requires |v| > 0 ==> s.base + |m[i.func].values| + |v| <= |pool|
    requires forall k :: 0 <= k < |v| ==> pool[s.base + |m[i.func].values| + k] == v[k]
    requires forall k :: 0 <= k < |pool| && k < s.base + |m[i.func].values| ==> pool[k] == s.pool[k]
    ensures var size := |m[i.func].values|;
            StepMatches(m, Push(i, s, s.base + size, Some(pool)), Follow(r, Enter(i, r.cur.room - size, Got(v))))
  {
    forall k | 0 <= k < |s.frames|
      ensures FrameOf(m, r.callers[k], s.frames[k], pool)
    {
      assert FrameOf(m, r.callers[k], s.frames[k], s.pool);
      assert EndsBefore(m, r.callers[k].act, s.frames[k].base, s.base);
    }
  }

  lemma ReadsOne(m: Module, act: Act, base: nat, pool: seq<Word>, id: nat)
    requires InWindow(m, act, base, pool)
    ensures match ReadRegs(act, [id])
            case Got(v) => base + id < |pool| && v[0] == pool[base + id]
            case Bad(f) => f == Uninit || (f == PoolOverflow && base + id >= |pool|)
  {
    assert [id][0] == id;
    ReadsMatch(m, act, base, pool, [id]);
  }

  lemma RetMatches(m: Module, s: State, r: Stack, w: Word)
    requires Represents(m, s, r)
    ensures var o :=
              if |s.frames| == 0 then Returned(w, s.mem)
              else
                var n := |s.frames| - 1;
                var f := s.frames[n];
                if f.base + f.gen >= |s.pool| then Stop(PoolOverflow)
                else Running(State(f.func, f.block, f.index + 1, f.base, s.frames[..n],
                                   s.pool[f.base + f.gen := w], s.mem, s.clock + 1));
            StepMatches(m, o, Follow(r, Returns(w)))
  {
    var n := |s.frames|;
    if n > 0 {
      assert FrameOf(m, r.callers[n - 1], s.frames[n - 1], s.pool);
      if s.frames[n - 1].base + s.frames[n - 1].gen < |s.pool| {
        PopMatches(m, s, r, w);
      }
    }
  }

  lemma PopMatches(m: Module, s: State, r: Stack, w: Word)
    requires Represents(m, s, r) && |s.frames| > 0
    requires var f := s.frames[|s.frames| - 1]; f.base + f.gen < |s.pool|
    ensures var n := |s.frames| - 1;
            var f, c := s.frames[n], r.callers[n];
            Represents(m,
              State(f.func, f.block, f.index + 1, f.base, s.frames[..n], s.pool[f.base + f.gen := w], s.mem, s.clock + 1),
              Stack(Deliver(c.act, c.gen, w), r.callers[..n], r.mem, r.clock + 1))
  {
    var n := |s.frames| - 1;
    var f, c := s.frames[n], r.callers[n];
    assert FrameOf(m, c, f, s.pool);
    forall k | 0 <= k < n
      ensures FrameOf(m, r.callers[k], s.frames[k], s.pool[f.base + f.gen := w])
      ensures EndsBefore(m, r.callers[k].act, s.frames[k].base, f.base)
    {
      assert FrameOf(m, r.callers[k], s.frames[k], s.pool);
      assert EndsBefore(m, r.callers[k].act, s.frames[k].base, f.base);
    }
  }

  lemma CondBrRefines(env: Env, s: State, r: Stack)
    requires Represents(env.m, s, r) && At(env.m, s.func, s.block, s.index)
    requires InstrAt(env.m, s.func, s.block, s.index).CondBr?
    ensures StepMatches(env.m, Step(env, s), StackStep(env, r))
  {
    ReadsOne(env.m, r.cur, s.base, s.pool, InstrAt(env.m, s.func, s.block, s.index).cond.id);
  }

  lemma RetRefines(env: Env, s: State, r: Stack)
    requires Represents(env.m, s, r) && At(env.m, s.func, s.block, s.index)
    requires InstrAt(env.m, s.func, s.block, s.index).Ret?
    ensures StepMatches(env.m, Step(env, s), StackStep(env, r))
  {
    hide FrameOf;
    var id := InstrAt(env.m, s.func, s.block, s.index).result.id;
    ReadsOne(env.m, r.cur, s.base, s.pool, id);
    if s.base + id < |s.pool| {
      RetMatches(env.m, s, r, s.pool[s.base + id]);
    }
  }

  lemma StepRefines(env: Env, s: State, r: Stack)
    requires Windowed(env.m) && Represents(env.m, s, r)
    ensures StepMatches(env.m, Step(env, s), StackStep(env, r))
  {
    if At(env.m, s.func, s.block, s.index) {
      var i := InstrAt(env.m, s.func, s.block, s.index);
      assert WindowInstr(env.m, env.m[s.func], i);
      match i
      case CallFunc(_, _, _) => CallMatches(env, s, r, i);
      case Ret(_) => RetRefines(env, s, r);
      case Br(_) =>
      case CondBr(_, _, _) => CondBrRefines(env, s, r);
      case RetVoid =>
      case _ => DataMatches(env.m, s, r, i, env.junk(s.clock));
    }
  }

  /** Any run of the pool machine is matched by the stack machine with separate maps. */
  lemma {:induction false} RunRefines(env: Env, s: State, r: Stack, limit: nat)
    requires Windowed(env.m) && Represents(env.m, s, r)
    ensures StepMatches(env.m, Run(env, s, limit), StackRun(env, r, limit))
    decreases limit - s.clock
  {
    if s.clock < limit {
      StepRefines(env, s, r);
      if StackStep(env, r).Running? {
        RunRefines(env, Step(env, s).s, StackStep(env, r).s, limit);
      }
    }
  }

  /** Both runs take their last step at the same position. */
  lemma {:induction false} LastMatches(env: Env, s: State, r: Stack, limit: nat)
    requires Windowed(env.m) && Represents(env.m, s, r) && StackRun(env, r, limit) != Stop(Uninit)
    ensures var a, b := LastState(env, s, limit), LastAct(env, r, limit);
            a.func == b.func && a.block == b.block && a.index == b.index
    decreases limit - s.clock
  {
    hide Step, Decide;
    if s.clock < limit {
      StepRefines(env, s, r);
      if StackStep(env, r).Running? {
        LastMatches(env, Step(env, s).s, StackStep(env, r).s, limit);
      }
    }
  }
}

module Interpretation {
  import opened Words
  import opened Ir
  import opened Interp
  import opened Activation
  import opened Definite
  import opened Refinement

  /** The activation an interpretation starts with: a map holding the arguments and nothing else. */
  function FirstAct(m: Module, func: nat, values: seq<Word>, poolSize: nat): Act
    requires func < |m| && |m[func].args| <= |values|
  {
    Act(func, 0, 0, map k: nat | k < |m[func].args| :: values[k], poolSize)
  }

  /** The recursive counterpart of an interpretation with poolSize slots. */
  function EvalRecursively(env: Env, func: nat, values: seq<Word>, poolSize: nat, mem: Memory, limit: nat): Result {
    if func >= |env.m| then Fails(BadTarget)
    else if |values| < |env.m[func].args| then Fails(MissingArg)
    else if poolSize < |env.m[func].args| then Fails(PoolOverflow)
    else Eval(env, 0, FirstAct(env.m, func, values, poolSize), mem, 0, limit)
  }

  ghost predicate ArgsFit(m: Module) {
    forall f :: 0 <= f < |m| ==> |m[f].args| <= |m[f].values|
  }

  /**
    Within any number of iterations the pool machine ends exactly as the recursive evaluator
    with fresh register maps does: same value and memory, same fault, or both still running.
  */
  lemma InterpreterIsRecursive(env: Env, cert: Cert, func: nat, values: seq<Word>, pool: seq<Word>, mem: Memory, limit: nat)
    requires Windowed(env.m) && ArgsFit(env.m) && Certified(env.m, cert)
    ensures SameEnd(EvalFunc(env, func, values, pool, mem, limit),
                    EvalRecursively(env, func, values, |pool|, mem, limit))
  {
    var start := Start(env, func, values, pool, mem);
    if start.Running? {
      var r := Stack(FirstAct(env.m, func, values, |pool|), [], mem, 0);
      RunRefines(env, start.s, r, limit);
      NeverUninit(env, cert, r, limit);
      StackIsRecursion(env, r, limit);
    }
  }

  // ----- why calls must not shrink the window -----

  function Slot(id: nat): Value {
    Value(id, I64)
  }

  function Slots(n: nat): (vs: seq<Value>)
    ensures |vs| == n
  {
    seq(n, k requires 0 <= k < n => Slot(k))
  }

  /** A caller with n values keeps 5 in slot k across a call to a function with k values. */
  function ShrinkingModule(n: nat, k: nat): Module {
    [Func([], I64, [[Const(ConstI64, 5, Slot(k)), CallFunc(1, [], Slot(0)), Ret(Slot(k))]], Slots(n)),
     Func([], I64, [[Const(ConstI64, 9, Slot(0)), Ret(Slot(0))]], Slots(k))]
  }

  /**
    The size condition on calls cannot be relaxed: for every caller size n and smaller callee
    size k there is a module of these sizes where the machine loses a live register of the caller.
  */
  lemma ShrinkingCallClobbers(env: Env, n: nat, k: nat, pool: seq<Word>)
    requires 1 <= k < n <= |pool| && env.m == ShrinkingModule(n, k) && env.frameCap >= 1
    ensures EvalFunc(env, 0, [], pool, map[], 5) == Returned(9, map[])
    ensures EvalRecursively(env, 0, [], |pool|, map[], 5) == Gives(5, map[], 5)
  {
    ShrinkingRun(env, n, k, pool);
    ShrinkingEval(env, n, k, |pool|);
  }

  lemma ShrinkingRun(env: Env, n: nat, k: nat, pool: seq<Word>)
    requires 1 <= k < n <= |pool| && env.m == ShrinkingModule(n, k) && env.frameCap >= 1
    ensures EvalFunc(env, 0, [], pool, map[], 5) == Returned(9, map[])
  {
    var s0 := State(0, 0, 0, 0, [], pool, map[], 0);
    assert Start(env, 0, [], pool, map[]) == Running(s0) by {
      assert [][..0] + pool[0..] == pool;
    }
    var p1 := pool[k := 5];
    var s1 := State(0, 0, 1, 0, [], p1, map[], 1);
    assert Step(env, s0) == Running(s1);
    var frame := Frame(0, 0, 1, 0, 0);
    var s2 := State(1, 0, 0, k, [frame], p1, map[], 2);
    var call := InstrAt(env.m, 0, 0, 1);
    assert CopyArgs(p1, 0, k, Ids(call.args[..0])) == Some(p1);
    assert [] + [frame] == [frame];
    assert StepCall(env, call, s1) == Running(s2);
    assert Step(env, s1) == Running(s2);
    var p3 := p1[k := 9];
    var s3 := State(1, 0, 1, k, [frame], p3, map[], 3);
    assert Step(env, s2) == Running(s3);
    var s4 := State(0, 0, 2, 0, [], p3[0 := 9], map[], 4);
    assert Step(env, s3) == Running(s4);
    assert Step(env, s4) == Returned(9, map[]);
    assert Run(env, s4, 5) == Returned(9, map[]);
    assert Run(env, s3, 5) == Run(env, s4, 5);
    assert Run(env, s2, 5) == Run(env, s3, 5);
    assert Run(env, s1, 5) == Run(env, s2, 5);
  }

  lemma ShrinkingEval(env: Env, n: nat, k: nat, room: nat)
    requires 1 <= k < n <= room && env.m == ShrinkingModule(n, k) && env.frameCap >= 1
    ensures EvalRecursively(env, 0, [], room, map[], 5) == Gives(5, map[], 5)
  {
    var a0 := Act(0, 0, 0, map[], room);
    assert FirstAct(env.m, 0, [], room) == a0;
    var a1 := Act(0, 0, 1, map[k := 5], room);
    assert Decide(env, 0, a0, map[], env.junk(0)) == Goes(a1, map[]);
    var b0 := Act(1, 0, 0, map[], room - k);
    assert Decide(env, 0, a1, map[], env.junk(1)) == Calls(b0, 0);
    var b1 := Act(1, 0, 1, map[0 := 9], room - k);
    assert Decide(env, 1, b0, map[], env.junk(2)) == Goes(b1, map[]);
    assert Decide(env, 1, b1, map[], env.junk(3)) == Returns(9);
    assert Eval(env, 1, b1, map[], 3, 5) == Gives(9, map[], 4);
    assert Eval(env, 1, b0, map[], 2, 5) == Gives(9, map[], 4);
    var a2 := Deliver(a1, 0, 9);
    assert Decide(env, 0, a2, map[], env.junk(4)) == Returns(5);
    assert Eval(env, 0, a2, map[], 4, 5) == Gives(5, map[], 5);
    assert Eval(env, 0, a1, map[], 1, 5) == Gives(5, map[], 5);
  }
}

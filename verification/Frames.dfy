/** What every step keeps about the frame stack, and what a call leaves untouched until it returns. */
module Frames {
  import opened Words
  import opened Ir
  import opened Interp
  import opened Refinement

  /** The window start that a frame stack implies: the value counts of all functions called along it. */
  function Height(m: Module, frames: seq<Frame>, func: nat): nat {
    if |frames| == 0 then 0
    else
      var n := |frames| - 1;
      Height(m, frames[..n], frames[n].func) + if func < |m| then |m[func].values| else 0
  }

  /** f stopped at a call of `callee` whose result goes to slot f.gen. */
  predicate StoppedAtCall(m: Module, f: Frame, callee: nat) {
    && At(m, f.func, f.block, f.index)
    && var i := InstrAt(m, f.func, f.block, f.index);
       i.CallFunc? && i.func == callee && i.gen.id == f.gen
  }

  function CalledFrom(s: State, k: nat): nat
    requires k < |s.frames|
  {
    if k + 1 < |s.frames| then s.frames[k + 1].func else s.func
  }

  ghost predicate StackInvariant(m: Module, s: State) {
    && s.func < |m|
    && s.base == Height(m, s.frames, s.func)
    && (forall k :: 0 <= k < |s.frames| ==> FrameFits(m, s, k))
  }

  /** Frame k stopped at the call of the next activation, and its base is the height below it. */
  ghost predicate FrameFits(m: Module, s: State, k: nat)
    requires k < |s.frames|
  {
    && StoppedAtCall(m, s.frames[k], CalledFrom(s, k))
    && s.frames[k].base == Height(m, s.frames[..k], s.frames[k].func)
  }

  predicate SameActivation(s: State, t: State) {
    t.func == s.func && t.base == s.base && t.frames == s.frames
  }

  /** A step that neither calls nor returns stays in its window and writes at most one slot of it. */
  lemma PlainStep(env: Env, s: State)
    requires Step(env, s).Running?
    requires var i := InstrAt(env.m, s.func, s.block, s.index); !i.CallFunc? && !i.Ret?
    ensures var t := Step(env, s).s;
            && SameActivation(s, t)
            && (forall k :: 0 <= k < |s.pool| && k < s.base ==> t.pool[k] == s.pool[k])
  {
  }

  lemma CallStep(env: Env, s: State)
    requires Step(env, s).Running?
    requires InstrAt(env.m, s.func, s.block, s.index).CallFunc?
    ensures var i := InstrAt(env.m, s.func, s.block, s.index);
            var t := Step(env, s).s;
            && i.func < |env.m| && t.func == i.func && t.block == 0 && t.index == 0
            && t.base == s.base + |env.m[i.func].values|
            && t.frames == s.frames + [Frame(s.func, s.block, s.index, i.gen.id, s.base)]
            && |i.args| >= |env.m[i.func].args|
            && CopyArgs(s.pool, s.base, t.base, Ids(i.args[..|env.m[i.func].args|])) == Some(t.pool)
  {
  }

  lemma RetStep(env: Env, s: State)
    requires Step(env, s).Running?
    requires InstrAt(env.m, s.func, s.block, s.index).Ret?
    ensures var id := InstrAt(env.m, s.func, s.block, s.index).result.id;
            var t := Step(env, s).s;
            && |s.frames| > 0
            && var f := s.frames[|s.frames| - 1];
            && t.func == f.func && t.block == f.block && t.index == f.index + 1 && t.base == f.base
            && t.frames == s.frames[..|s.frames| - 1]
            && f.base + f.gen < |s.pool| && s.base + id < |s.pool|
            && t.pool == s.pool[f.base + f.gen := s.pool[s.base + id]]
  {
  }

  lemma StackInvariantStep(env: Env, s: State)
    requires StackInvariant(env.m, s) && Step(env, s).Running?
    ensures StackInvariant(env.m, Step(env, s).s)
  {
    var t := Step(env, s).s;
    var i := InstrAt(env.m, s.func, s.block, s.index);
    if i.CallFunc? {
      CallStep(env, s);
      PushKeepsInvariant(env.m, s, t, i);
    } else if i.Ret? {
      RetStep(env, s);
      PopKeepsInvariant(env.m, s, t);
    } else {
      PlainStep(env, s);
      PlainKeepsInvariant(env.m, s, t);
    }
  }

  lemma PlainKeepsInvariant(m: Module, s: State, t: State)
    requires StackInvariant(m, s) && SameActivation(s, t)
    ensures StackInvariant(m, t)
  {
    forall k | 0 <= k < |t.frames|
      ensures FrameFits(m, t, k)
    {
      assert FrameFits(m, s, k);
    }
  }

  lemma PushKeepsInvariant(m: Module, s: State, t: State, i: Instr)
    requires StackInvariant(m, s) && At(m, s.func, s.block, s.index)
    requires i == InstrAt(m, s.func, s.block, s.index) && i.CallFunc? && i.func < |m|
    requires t.func == i.func && t.base == s.base + |m[i.func].values|
    requires t.frames == s.frames + [Frame(s.func, s.block, s.index, i.gen.id, s.base)]
    ensures StackInvariant(m, t)
  {
    assert t.frames[..|s.frames|] == s.frames;
    forall k | 0 <= k < |t.frames|
      ensures FrameFits(m, t, k)
    {
      if k < |s.frames| {
        assert FrameFits(m, s, k);
        assert t.frames[..k] == s.frames[..k];
      }
    }
  }

  lemma PopKeepsInvariant(m: Module, s: State, t: State)
    requires StackInvariant(m, s) && |s.frames| > 0
    requires var f := s.frames[|s.frames| - 1]; t.func == f.func && t.base == f.base
    requires t.frames == s.frames[..|s.frames| - 1]
    ensures StackInvariant(m, t)
  {
    assert FrameFits(m, s, |s.frames| - 1);
    forall k | 0 <= k < |t.frames|
      ensures FrameFits(m, t, k)
    {
      assert FrameFits(m, s, k);
      assert t.frames[..k] == s.frames[..k];
    }
  }

  /** In every reachable state the frames are at their calls and the base is the stack's height. */
  lemma {:induction false} StackInvariantRun(env: Env, s: State, limit: nat)
    requires StackInvariant(env.m, s) && Run(env, s, limit).Running?
    ensures StackInvariant(env.m, Run(env, s, limit).s)
    decreases limit - s.clock
  {
    if s.clock < limit {
      StackInvariantStep(env, s);
      StackInvariantRun(env, Step(env, s).s, limit);
    }
  }

  lemma ReachableStackInvariant(env: Env, func: nat, values: seq<Word>, pool: seq<Word>, mem: Memory, limit: nat)
    requires EvalFunc(env, func, values, pool, mem, limit).Running?
    ensures StackInvariant(env.m, EvalFunc(env, func, values, pool, mem, limit).s)
  {
    StackInvariantRun(env, Start(env, func, values, pool, mem).s, limit);
  }

  // ----- isolation of suspended windows -----

  /** The window start of the activation with d frames below it. */
  function BaseAt(s: State, d: nat): nat
    requires d <= |s.frames|
  {
    if d == |s.frames| then s.base else s.frames[d].base
  }

  /** Every state from s up to the limit has at least d frames. */
  ghost predicate StaysAbove(env: Env, s: State, d: nat, limit: nat)
    decreases limit - s.clock
  {
    && |s.frames| >= d
    && (s.clock < limit && Step(env, s).Running? ==> StaysAbove(env, Step(env, s).s, d, limit))
  }

  lemma NextBase(m: Module, s: State, k: nat)
    requires StackInvariant(m, s) && k < |s.frames|
    ensures CalledFrom(s, k) < |m|
    ensures BaseAt(s, k + 1) == s.frames[k].base + |m[CalledFrom(s, k)].values|
  {
    assert FrameFits(m, s, k);
    if k + 1 == |s.frames| {
      assert s.frames[..k + 1] == s.frames;
    } else {
      assert FrameFits(m, s, k + 1);
      assert StoppedAtCall(m, s.frames[k + 1], CalledFrom(s, k + 1));
    }
    assert s.frames[..k + 1][..k] == s.frames[..k];
  }

  lemma {:induction false} BasesAscend(m: Module, s: State, d: nat)
    requires StackInvariant(m, s) && d <= |s.frames|
    ensures BaseAt(s, d) <= s.base
    decreases |s.frames| - d
  {
    if d < |s.frames| {
      NextBase(m, s, d);
      BasesAscend(m, s, d + 1);
    }
  }

  /** Below the floor two pools hold the same words. */
  ghost predicate SameBelow(p: seq<Word>, q: seq<Word>, floor: nat) {
    |p| == |q| && forall k :: 0 <= k < |p| && k < floor ==> p[k] == q[k]
  }

  /** A step that stays at depth d or deeper writes nothing below that activation's window. */
  lemma StepAbove(env: Env, s: State, d: nat)
    requires StackInvariant(env.m, s) && Step(env, s).Running?
    requires d <= |s.frames| && d <= |Step(env, s).s.frames|
    ensures var t := Step(env, s).s;
            && t.frames[..d] == s.frames[..d] && BaseAt(t, d) == BaseAt(s, d)
            && SameBelow(s.pool, t.pool, BaseAt(s, d))
  {
    BasesAscend(env.m, s, d);
    var t := Step(env, s).s;
    var i := InstrAt(env.m, s.func, s.block, s.index);
    if i.CallFunc? {
      CallStep(env, s);
      CallWritesAbove(env, s, t);
    } else if i.Ret? {
      RetStep(env, s);
      StackInvariantStep(env, s);
      BasesAscend(env.m, t, d);
      assert t.frames[..d] == s.frames[..d];
    } else {
      PlainStep(env, s);
    }
  }

  lemma CallWritesAbove(env: Env, s: State, t: State)
    requires At(env.m, s.func, s.block, s.index) && InstrAt(env.m, s.func, s.block, s.index).CallFunc?
    requires Step(env, s) == Running(t)
    ensures SameBelow(s.pool, t.pool, t.base)
  {
    CallStep(env, s);
    var call := InstrAt(env.m, s.func, s.block, s.index);
    forall k | 0 <= k < |s.pool| && k < t.base
      ensures t.pool[k] == s.pool[k]
    {
      CopyTouches(s.pool, s.base, t.base, Ids(call.args[..|env.m[call.func].args|]), k);
    }
  }

  lemma {:induction false} RunAbove(env: Env, s: State, d: nat, limit: nat)
    requires StackInvariant(env.m, s) && StaysAbove(env, s, d, limit) && Run(env, s, limit).Running?
    ensures var t := Run(env, s, limit).s;
            && d <= |t.frames| && StackInvariant(env.m, t)
            && t.frames[..d] == s.frames[..d] && BaseAt(t, d) == BaseAt(s, d)
            && SameBelow(s.pool, t.pool, BaseAt(s, d))
    decreases limit - s.clock
  {
    if s.clock < limit {
      StackInvariantStep(env, s);
      StepAbove(env, s, d);
      RunAbove(env, Step(env, s).s, d, limit);
    }
  }

  /**
    From a call at s to its matching return: while the callee and everything it calls run, no slot
    below the callee's window changes; the return resumes after the call in the old window, where
    only the call's own result slot is new and holds the returned register.
  */
  lemma CallIsIsolated(env: Env, s: State, first: State, last: nat, t: State, u: State)
    requires StackInvariant(env.m, s) && At(env.m, s.func, s.block, s.index)
    requires InstrAt(env.m, s.func, s.block, s.index).CallFunc? && Step(env, s) == Running(first)
    requires StaysAbove(env, first, |s.frames| + 1, last) && Run(env, first, last) == Running(t)
    requires Step(env, t) == Running(u) && |u.frames| <= |s.frames|
    ensures SameBelow(s.pool, t.pool, first.base)
    ensures SameActivation(s, u) && u.block == s.block && u.index == s.index + 1
    ensures At(env.m, t.func, t.block, t.index) && InstrAt(env.m, t.func, t.block, t.index).Ret?
    ensures var slot := s.base + InstrAt(env.m, s.func, s.block, s.index).gen.id;
            var from := t.base + InstrAt(env.m, t.func, t.block, t.index).result.id;
            slot < |t.pool| && from < |t.pool| && u.pool == t.pool[slot := t.pool[from]]
  {
    hide StackInvariant, Run, StaysAbove, SameBelow;
    CalleeIsIsolated(env, s, first, last, t);
    ReturnsFrom(env, t, |s.frames| + 1);
    assert t.frames[..|s.frames|] == s.frames;
  }

  lemma CalleeIsIsolated(env: Env, s: State, first: State, last: nat, t: State)
    requires StackInvariant(env.m, s) && At(env.m, s.func, s.block, s.index)
    requires InstrAt(env.m, s.func, s.block, s.index).CallFunc? && Step(env, s) == Running(first)
    requires StaysAbove(env, first, |s.frames| + 1, last) && Run(env, first, last) == Running(t)
    ensures SameBelow(s.pool, t.pool, first.base)
    ensures |t.frames| > |s.frames|
    ensures t.frames[..|s.frames| + 1] ==
            s.frames + [Frame(s.func, s.block, s.index, InstrAt(env.m, s.func, s.block, s.index).gen.id, s.base)]
  {
    hide Step, StackInvariant;
    CallStep(env, s);
    CallWritesAbove(env, s, first);
    StackInvariantStep(env, s);
    RunAbove(env, first, |s.frames| + 1, last);
  }

  /** Only a nested return lowers the frame count, and by one. */
  lemma ReturnsFrom(env: Env, t: State, d: nat)
    requires Step(env, t).Running? && d <= |t.frames| && |Step(env, t).s.frames| < d
    ensures |t.frames| == d && InstrAt(env.m, t.func, t.block, t.index).Ret?
    ensures var u := Step(env, t).s;
            var f := t.frames[d - 1];
            var id := InstrAt(env.m, t.func, t.block, t.index).result.id;
            && u.func == f.func && u.block == f.block && u.index == f.index + 1 && u.base == f.base
            && u.frames == t.frames[..d - 1]
            && f.base + f.gen < |t.pool| && t.base + id < |t.pool|
            && u.pool == t.pool[f.base + f.gen := t.pool[t.base + id]]
  {
    var i := InstrAt(env.m, t.func, t.block, t.index);
    if i.CallFunc? {
      CallStep(env, t);
    } else if i.Ret? {
      RetStep(env, t);
    } else {
      PlainStep(env, t);
    }
  }

  /** With no shrinking calls every suspended window lies entirely below the next one. */
  lemma SuspendedWindowIsBelow(m: Module, s: State, k: nat)
    requires Windowed(m) && StackInvariant(m, s) && k < |s.frames|
    ensures s.frames[k].func < |m| && s.frames[k].base + |m[s.frames[k].func].values| <= BaseAt(s, k + 1)
  {
    var f := s.frames[k];
    assert FrameFits(m, s, k);
    assert WindowInstr(m, m[f.func], InstrAt(m, f.func, f.block, f.index));
    NextBase(m, s, k);
  }
}

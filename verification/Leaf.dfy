/** A function without calls runs the same whatever the other functions of its module are. */
module Leaf {
  import opened Words
  import opened Ir
  import opened Interp
  import opened Activation
  import opened Refinement

  /** No calls, and every result has a slot. */
  ghost predicate IsLeaf(f: Func) {
    forall b: nat, j: nat :: b < |f.blocks| && j < |f.blocks[b]| ==> LeafInstr(f, f.blocks[b][j])
  }

  predicate LeafInstr(f: Func, i: Instr) {
    !i.CallFunc? && ResultFits(f, i)
  }

  /** The module with every other function emptied. */
  function Alone(m: Module, fi: nat): (n: Module)
    requires fi < |m|
    ensures |n| == |m| && n[fi] == m[fi]
  {
    seq(|m|, k requires 0 <= k < |m| => if k == fi then m[k] else m[k].(blocks := []))
  }

  function AloneIn(env: Env, fi: nat): Env
    requires fi < |env.m|
  {
    env.(m := Alone(env.m, fi))
  }

  lemma AloneIsWindowed(m: Module, fi: nat)
    requires fi < |m| && IsLeaf(m[fi])
    ensures Windowed(Alone(m, fi))
  {
    var n := Alone(m, fi);
    forall f: nat, b: nat, j: nat | At(n, f, b, j)
      ensures WindowInstr(n, n[f], InstrAt(n, f, b, j))
    {
      assert LeafInstr(m[fi], m[fi].blocks[b][j]);
    }
  }

  lemma LeafStep(env: Env, fi: nat, s: State)
    requires fi < |env.m| && IsLeaf(env.m[fi]) && s.func == fi && s.frames == []
    ensures var o := Step(env, s);
            o == Step(AloneIn(env, fi), s) && (o.Running? ==> o.s.func == fi && o.s.frames == [])
  {
    if At(env.m, fi, s.block, s.index) {
      assert LeafInstr(env.m[fi], InstrAt(env.m, fi, s.block, s.index));
    }
  }

  lemma {:induction false} LeafRun(env: Env, fi: nat, s: State, limit: nat)
    requires fi < |env.m| && IsLeaf(env.m[fi]) && s.func == fi && s.frames == []
    ensures Run(env, s, limit) == Run(AloneIn(env, fi), s, limit)
    ensures LastState(env, s, limit) == LastState(AloneIn(env, fi), s, limit)
    decreases limit - s.clock
  {
    hide Step;
    if s.clock < limit {
      LeafStep(env, fi, s);
      if Step(env, s).Running? {
        LeafRun(env, fi, Step(env, s).s, limit);
      }
    }
  }

  /** Interpreting a leaf does not depend on the rest of the module. */
  lemma LeafEvaluation(env: Env, fi: nat, values: seq<Word>, pool: seq<Word>, mem: Memory, limit: nat)
    requires fi < |env.m| && IsLeaf(env.m[fi])
    ensures EvalFunc(env, fi, values, pool, mem, limit) == EvalFunc(AloneIn(env, fi), fi, values, pool, mem, limit)
    ensures FinalState(env, fi, values, pool, mem, limit) == FinalState(AloneIn(env, fi), fi, values, pool, mem, limit)
  {
    var start := Start(env, fi, values, pool, mem);
    if start.Running? {
      LeafRun(env, fi, start.s, limit);
    }
  }

  lemma LeafStackStep(env: Env, fi: nat, r: Stack)
    requires fi < |env.m| && IsLeaf(env.m[fi]) && r.cur.func == fi && r.callers == []
    ensures var o := StackStep(env, r);
            o == StackStep(AloneIn(env, fi), r) && (o.Running? ==> o.s.cur.func == fi && o.s.callers == [])
  {
    if At(env.m, fi, r.cur.block, r.cur.index) {
      assert LeafInstr(env.m[fi], InstrAt(env.m, fi, r.cur.block, r.cur.index));
    }
  }
}

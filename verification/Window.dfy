/**
  What one iteration touches: a function whose operands are its own values reads no slot outside its
  window, and writes none except a callee's arguments and a caller's result.
*/
module Window {
  import opened Words
  import opened Ir
  import opened Interp

  /** Slot k lies in the window of s's current function. */
  predicate OwnSlot(m: Module, s: State, k: int) {
    s.func < |m| && s.base <= k < s.base + |m[s.func].values|
  }

  /** The slots outside its window that s's instruction writes: arguments of a call, the result of a return. */
  predicate Handed(m: Module, s: State, k: int) {
    At(m, s.func, s.block, s.index) &&
      var i := InstrAt(m, s.func, s.block, s.index);
      || (i.CallFunc? && i.func < |m| &&
           var to := s.base + |m[i.func].values|; to <= k < to + |m[i.func].args|)
      || (i.Ret? && |s.frames| > 0 && k == s.frames[|s.frames| - 1].base + s.frames[|s.frames| - 1].gen)
  }

  /** The pools hold the same words in the window and in the slots handed over. */
  ghost predicate SameInside(m: Module, s: State, p: seq<Word>, q: seq<Word>) {
    |p| == |q| && forall k :: 0 <= k < |p| && (OwnSlot(m, s, k) || Handed(m, s, k)) ==> p[k] == q[k]
  }

  ghost predicate AgreeInside(m: Module, s: State, p: seq<Word>, q: seq<Word>) {
    |p| == |q| && forall k :: 0 <= k < |p| && OwnSlot(m, s, k) ==> p[k] == q[k]
  }

  /** Everything outside the window and the slots handed over is as it was. */
  ghost predicate Untouched(m: Module, s: State, before: seq<Word>, after: seq<Word>) {
    |after| == |before| &&
      forall k :: 0 <= k < |before| && !OwnSlot(m, s, k) && !Handed(m, s, k) ==> after[k] == before[k]
  }

  /** The same outcome from the pools p and q, up to slots outside the window, which both leave alone. */
  ghost predicate SameEffect(m: Module, s: State, p: seq<Word>, q: seq<Word>, o: Outcome<State>, o': Outcome<State>) {
    match o
    case Returned(_, _) => o' == o
    case Stop(_) => o' == o
    case Running(t) =>
      && o'.Running? && o'.s == t.(pool := o'.s.pool)
      && SameInside(m, s, t.pool, o'.s.pool)
      && Untouched(m, s, p, t.pool) && Untouched(m, s, q, o'.s.pool)
  }

  lemma ReadsSame(m: Module, s: State, q: seq<Word>, ids: seq<nat>)
    requires AgreeInside(m, s, s.pool, q) && s.func < |m|
    requires forall k :: 0 <= k < |ids| ==> ids[k] < |m[s.func].values|
    ensures ReadPool(q, s.base, ids) == ReadPool(s.pool, s.base, ids)
  {
    var a, b := ReadPool(s.pool, s.base, ids), ReadPool(q, s.base, ids);
    if a.Some? {
      forall k | 0 <= k < |ids|
        ensures q[s.base + ids[k]] == s.pool[s.base + ids[k]]
      {
        assert OwnSlot(m, s, s.base + ids[k]);
      }
      assert a.value == b.value;
    }
  }

  lemma DataInside(env: Env, s: State, q: seq<Word>, i: Instr, junk: Word)
    requires At(env.m, s.func, s.block, s.index) && i == InstrAt(env.m, s.func, s.block, s.index) && i.IsData()
    requires OwnOperands(env.m[s.func], i) && AgreeInside(env.m, s, s.pool, q)
    ensures SameEffect(env.m, s, s.pool, q, StepData(i, s, junk), StepData(i, s.(pool := q), junk))
  {
    ReadsSame(env.m, s, q, DataUses(i));
    var v := ReadPool(s.pool, s.base, DataUses(i));
    if v.Some? && i.HasGen() {
      assert OwnSlot(env.m, s, s.base + i.gen.id);
    }
  }

  /** The argument loop on two pools that agree on the source window. */
  lemma {:induction false} CopiesSame(m: Module, s: State, p: seq<Word>, q: seq<Word>, to: nat, ids: seq<nat>)
    requires AgreeInside(m, s, p, q) && s.func < |m|
    requires forall k :: 0 <= k < |ids| ==> ids[k] < |m[s.func].values|
    ensures CopyArgs(p, s.base, to, ids).Some? <==> CopyArgs(q, s.base, to, ids).Some?
    ensures CopyArgs(p, s.base, to, ids).Some? ==>
              var a, b := CopyArgs(p, s.base, to, ids).value, CopyArgs(q, s.base, to, ids).value;
              && |a| == |p| && |b| == |q|
              && (forall k :: 0 <= k < |p| && (OwnSlot(m, s, k) || to <= k < to + |ids|) ==> a[k] == b[k])
              && (forall k :: 0 <= k < |p| && !(to <= k < to + |ids|) ==> a[k] == p[k] && b[k] == q[k])
    decreases |ids|
  {
    if |ids| > 0 {
      var n := |ids| - 1;
      var before := ids[..n];
      forall k | 0 <= k < |before|
        ensures before[k] < |m[s.func].values|
      {
        assert before[k] == ids[k];
      }
      CopiesSame(m, s, p, q, to, before);
      assert ids[n] < |m[s.func].values| && OwnSlot(m, s, s.base + ids[n]);
    }
  }

  lemma CallInside(env: Env, s: State, q: seq<Word>, i: Instr)
    requires At(env.m, s.func, s.block, s.index) && i == InstrAt(env.m, s.func, s.block, s.index) && i.CallFunc?
    requires OwnOperands(env.m[s.func], i) && AgreeInside(env.m, s, s.pool, q)
    ensures SameEffect(env.m, s, s.pool, q, StepCall(env, i, s), StepCall(env, i, s.(pool := q)))
  {
    if i.func < |env.m| && |env.m[i.func].args| <= |i.args| {
      var ids := Ids(i.args[..|env.m[i.func].args|]);
      forall k | 0 <= k < |ids|
        ensures ids[k] < |env.m[s.func].values|
      {
        assert ids[k] == i.args[k].id;
      }
      CopiesSame(env.m, s, s.pool, q, s.base + |env.m[i.func].values|, ids);
    }
  }

  lemma RetInside(env: Env, s: State, q: seq<Word>, id: nat)
    requires At(env.m, s.func, s.block, s.index) && InstrAt(env.m, s.func, s.block, s.index).Ret?
    requires id == InstrAt(env.m, s.func, s.block, s.index).result.id
    requires OwnOperands(env.m[s.func], InstrAt(env.m, s.func, s.block, s.index)) && AgreeInside(env.m, s, s.pool, q)
    ensures SameEffect(env.m, s, s.pool, q, StepRet(s, id), StepRet(s.(pool := q), id))
  {
    assert OwnSlot(env.m, s, s.base + id);
  }

  /**
    One iteration at an instruction whose operands are the function's own values: two pools that
    agree on the current window give the same outcome, the same words in the window and in the slots
    handed over, and leave every other slot alone.
  */
  lemma StepStaysInside(env: Env, s: State, q: seq<Word>)
    requires At(env.m, s.func, s.block, s.index)
    requires OwnOperands(env.m[s.func], InstrAt(env.m, s.func, s.block, s.index)) && AgreeInside(env.m, s, s.pool, q)
    ensures SameEffect(env.m, s, s.pool, q, Step(env, s), Step(env, s.(pool := q)))
  {
    hide StepData, StepCall, StepRet;
    var i := InstrAt(env.m, s.func, s.block, s.index);
    match i
    case Br(_) =>
    case RetVoid =>
    case CondBr(c, _, _) => assert OwnSlot(env.m, s, s.base + c.id);
    case CallFunc(_, _, _) => CallInside(env, s, q, i);
    case Ret(v) => RetInside(env, s, q, v.id);
    case _ => DataInside(env, s, q, i, env.junk(s.clock));
  }
}

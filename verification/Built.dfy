/** What the builder guarantees is what both engines ask of a module. */
module Built {
  import opened Words
  import opened Ir
  import opened Interp
  import opened Activation
  import opened Definite
  import opened Refinement
  import opened Interpretation
  import opened Builder
  import opened Emission
  import opened RegisterPass
  import opened X86
  import opened JitCorrectness
  import opened Paths
  import opened Fragment
  import opened Fixed
  import opened FragmentRuns

  ghost predicate Builds(f: Func, calls: seq<Call>) {
    var d := ApplyAll(NewDraft(f.args, f.ret), calls);
    d.Some? && d.value.func == f
  }

  /** Some sequence of builder calls on a new function leaves f. */
  ghost predicate BuiltFunc(f: Func) {
    exists calls :: Builds(f, calls)
  }

  ghost predicate BuiltModule(m: Module) {
    forall f :: 0 <= f < |m| ==> BuiltFunc(m[f])
  }

  /** No call goes to a function with fewer values than its caller. */
  ghost predicate NeverShrinks(m: Module) {
    forall f: nat, b: nat, j: nat :: At(m, f, b, j) ==> KeepsSize(m, m[f], InstrAt(m, f, b, j))
  }

  predicate KeepsSize(m: Module, f: Func, i: Instr) {
    i.CallFunc? && i.func < |m| ==> |f.values| <= |m[i.func].values|
  }

  lemma BuiltIsWellBuilt(f: Func) returns (d: Draft)
    requires BuiltFunc(f)
    ensures WellBuilt(d) && d.func == f
  {
    var calls :| Builds(f, calls);
    EveryBuildIsWellBuilt(f.args, f.ret, calls);
    d := ApplyAll(NewDraft(f.args, f.ret), calls).value;
  }

  // ----- the interpreter's conditions -----

  lemma BuiltArgsFit(m: Module)
    requires BuiltModule(m)
    ensures ArgsFit(m)
  {
    forall f | 0 <= f < |m|
      ensures |m[f].args| <= |m[f].values|
    {
      var d := BuiltIsWellBuilt(m[f]);
    }
  }

  lemma BuiltIsWindowed(m: Module)
    requires BuiltModule(m)
    ensures Windowed(m) <==> NeverShrinks(m)
  {
    BuiltArgsFit(m);
    forall f: nat, b: nat, j: nat | At(m, f, b, j)
      ensures WindowInstr(m, m[f], InstrAt(m, f, b, j)) <==> KeepsSize(m, m[f], InstrAt(m, f, b, j))
    {
      var d := BuiltIsWellBuilt(m[f]);
      assert OwnOperands(m[f], m[f].blocks[b][j]);
    }
  }

  /** The refinement of the interpreter for every module that the builder can produce. */
  lemma BuiltInterpreterIsRecursive(env: Env, cert: Cert, func: nat, values: seq<Word>, pool: seq<Word>, mem: Memory,
                                    limit: nat)
    requires BuiltModule(env.m) && NeverShrinks(env.m) && Certified(env.m, cert)
    ensures SameEnd(EvalFunc(env, func, values, pool, mem, limit),
                    EvalRecursively(env, func, values, |pool|, mem, limit))
  {
    BuiltArgsFit(env.m);
    BuiltIsWindowed(env.m);
    InterpreterIsRecursive(env, cert, func, values, pool, mem, limit);
  }

  // ----- the generator's condition -----

  lemma {:induction false} GeneratedConcat(s: seq<Instr>, t: seq<Instr>, id: nat)
    ensures GeneratedIn(s + t, id) == GeneratedIn(s, id) + GeneratedIn(t, id)
    decreases |t|
  {
    if |t| == 0 {
      assert s + t == s;
    } else {
      assert (s + t)[..|s + t| - 1] == s + t[..|t| - 1];
      GeneratedConcat(s, t[..|t| - 1], id);
    }
  }

  lemma {:induction false} GeneratedFlat(blocks: seq<seq<Instr>>, id: nat)
    ensures GeneratedIn(Flat(blocks), id) == Generated(blocks, id)
  {
    if |blocks| > 0 {
      var n := |blocks| - 1;
      GeneratedFlat(blocks[..n], id);
      GeneratedConcat(Flat(blocks[..n]), blocks[n], id);
    }
  }

  predicate GeneratesAt(s: seq<Instr>, p: nat, id: nat) {
    p < |s| && s[p].HasGen() && s[p].gen.id == id
  }

  lemma {:induction false} OneGenerates(s: seq<Instr>, p: nat, id: nat)
    requires GeneratesAt(s, p, id)
    ensures GeneratedIn(s, id) >= 1
  {
    var n := |s| - 1;
    if p < n {
      OneGenerates(s[..n], p, id);
    }
  }

  lemma {:induction false} TwoGenerate(s: seq<Instr>, p: nat, q: nat, id: nat)
    requires p < q && GeneratesAt(s, p, id) && GeneratesAt(s, q, id)
    ensures GeneratedIn(s, id) >= 2
  {
    var n := |s| - 1;
    if q < n {
      TwoGenerate(s[..n], p, q, id);
    } else {
      OneGenerates(s[..n], p, id);
    }
  }

  /** In a well-built function every value other than the arguments is generated at one position. */
  lemma BuiltAssignsOnce(d: Draft, f: Source)
    requires WellBuilt(d) && f.blocks == d.func.blocks && f.args == |d.func.args|
    ensures SingleAssignment(f)
  {
    forall p, v: nat | 0 <= p && Generates(f, p, v)
      ensures v >= f.args
    {
      GeneratedFlat(f.blocks, v);
      OneGenerates(Flat(f.blocks), p, v);
    }
    forall p, q, v: nat | 0 <= p && 0 <= q && Generates(f, p, v) && Generates(f, q, v)
      ensures p == q
    {
      GeneratedFlat(f.blocks, v);
      if p < q {
        TwoGenerate(Flat(f.blocks), p, q, v);
      } else if q < p {
        TwoGenerate(Flat(f.blocks), q, p, v);
      }
    }
  }

  /** What the builder contributes to the generator's conditions. */
  lemma BuiltFitsGenerator(g: Func, f: Source, entries: seq<set<nat>>)
    requires BuiltFunc(g) && IsSource(f, g) && FragmentText(f, entries)
    ensures InFragment(f, entries) && ResultsFit(g) && |g.args| <= |g.values|
  {
    hide FragmentText;
    var d := BuiltIsWellBuilt(g);
    BuiltAssignsOnce(d, f);
    forall b: nat, j: nat | b < |g.blocks| && j < |g.blocks[b]|
      ensures ResultFits(g, g.blocks[b][j])
    {
      assert OwnOperands(g, g.blocks[b][j]);
    }
  }

  /** Generated code against the interpreter for every function that the builder can produce. */
  lemma BuiltFragmentComputes(env: Env, fi: nat, f: Source, entries: seq<set<nat>>,
                              values: seq<Word>, pool: seq<Word>, mem: Memory, code: seq<Byte>, cpu: Cpu, limit: nat)
    returns (k: nat)
    requires fi < |env.m| && BuiltFunc(env.m[fi]) && IsSource(f, env.m[fi])
    requires CodeOf(f) <= code && FragmentText(f, entries) && CalledWith(f, values, mem, cpu) && WalkAgrees(f, values, 0, 0, limit)
    ensures InFragment(f, entries)
    ensures var q := CpuRun(code, cpu, k);
            match EvalFunc(env, fi, values, pool, mem, limit)
            case Running(s) =>
              k >= limit && q.Executing? && |LiveOf(f, entries)| == |f.blocks| && Abreast(f, LiveOf(f, entries), fi, s, q.cpu)
            case Returned(w, after) =>
              && q.Halted? && q.mem == after
              && var last := FinalState(env, fi, values, pool, mem, limit);
                 last.Some? && ComputesValue(f, values, last.value.block, last.value.index, q.rax, w)
            case Stop(_) => true
  {
    BuiltFitsGenerator(env.m[fi], f, entries);
    FragmentHasLive(f, entries);
    hide InFragment, FragmentText, WalkAgrees, BuiltFunc, CalledWith, CpuRun, CodeOf;
    k := FragmentComputes(env, fi, f, entries, values, pool, mem, code, cpu, limit);
  }

  /** And the exact condition under which the code takes the interpreter's path. */
  lemma BuiltPathsAgreeIff(env: Env, fi: nat, f: Source, entries: seq<set<nat>>,
                           values: seq<Word>, pool: seq<Word>, mem: Memory, code: seq<Byte>, cpu: Cpu, limit: nat)
    requires fi < |env.m| && BuiltFunc(env.m[fi]) && IsSource(f, env.m[fi])
    requires CodeOf(f) <= code && FragmentText(f, entries) && NoEmptyBlocks(f) && CalledWith(f, values, mem, cpu)
    requires !EvalFunc(env, fi, values, pool, mem, limit).Stop?
    ensures Takes(f, code, cpu, PathOf(env, fi, f, values, pool, mem, limit)) <==>
            WalkAgrees(f, values, 0, 0, limit)
  {
    BuiltFitsGenerator(env.m[fi], f, entries);
    FragmentPathsAgreeIff(env, fi, f, entries, values, pool, mem, code, cpu, limit);
  }
}

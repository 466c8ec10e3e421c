/** The whole code generation of a module: each function is generated, copied and linked. */
module ModuleJit {
  import opened Words
  import opened Emission
  import opened Gen
  import opened Link
  import opened Selection
  import opened X86
  import opened Interp
  import opened RegisterPass
  import opened JitCorrectness
  import opened Fragment
  import opened Fixed
  import opened FragmentRuns

  /** g has generated f: its bytes are the resolved code and its recorded calls those of f. */
  ghost predicate Generated(g: Generator, f: Source)
    reads g, g.code, g.code.data
  {
    && g.code.Valid()
    && g.code.Contents() == CodeOf(f)
    && g.directCalls == CallSites(AllItems(f))
  }

  /** A fresh generator run over one function. */
  method GenerateFunc(f: Source) returns (g: Generator)
    requires Integral(f)
    ensures fresh(g) && fresh(g.code) && fresh(g.code.data) && Generated(g, f)
  {
    g := new Generator();
    g.JitFunc(f);
  }

  ghost predicate AllGenerated(gens: seq<Generator>, sources: seq<Source>)
    reads gens, set g | g in gens :: g.code, set g | g in gens :: g.code.data
  {
    |gens| == |sources| && forall k :: 0 <= k < |gens| ==> Generated(gens[k], sources[k])
  }

  method GenerateAll(sources: seq<Source>) returns (gens: seq<Generator>)
    requires forall k :: 0 <= k < |sources| ==> Integral(sources[k])
    ensures AllGenerated(gens, sources)
  {
    hide Generated;
    gens := [];
    for n := 0 to |sources|
      invariant AllGenerated(gens, sources[..n])
    {
      var g := GenerateFunc(sources[n]);
      gens := gens + [g];
    }
    assert sources[..|sources|] == sources;
  }

  /** The region starts with these bytes. */
  ghost predicate Holds(region: array<Byte>, bytes: seq<Byte>)
    reads region
  {
    |bytes| <= region.Length && region[..|bytes|] == bytes
  }

  method LinkOne(region: array<Byte>, calls: seq<CallSite>, bases: seq<Word>, ghost f: Source)
    requires Holds(region, CodeOf(f)) && calls == CallSites(AllItems(f))
    modifies region
    ensures Holds(region, LinkedCodeOf(f, bases))
  {
    hide Resolved, Emit, AllItems, LinkAll;
    ghost var items := AllItems(f);
    ghost var code, before := CodeOf(f), region[..];
    AllFieldsDisjoint(items);
    LinkedSize(items, bases);
    LinkingResolvesCalls(items, BlockOffsets(f, |f.blocks|), bases);
    assert before == code + before[|code|..];
    LinkPrefix(code, before[|code|..], calls, bases);
    LinkCalls(region, calls, bases);
  }

  ghost predicate Distinct(regions: seq<array<Byte>>) {
    forall j, k :: 0 <= j < k < |regions| ==> regions[j] != regions[k]
  }

  ghost function ObjectsOf(regions: seq<array<Byte>>): set<object> {
    set k | 0 <= k < |regions| :: regions[k]
  }

  /** A region for one function's code and one more byte; there is none to copy when it has no code. */
  method CopyOne(g: Generator, ghost f: Source) returns (region: array<Byte>, ok: bool)
    requires Generated(g, f)
    ensures fresh(region) && (ok <==> HasCode(f))
    ensures ok ==> region.Length == |CodeOf(f)| + 1 && Holds(region, CodeOf(f))
  {
    hide CodeOf, HasCode;
    HasCodeIff(f);
    var w := g.code;
    region := new Byte[w.currentIndex + 1];
    ok := CopyCode(w, region);
  }

  /**
    First loop of a module's code generation: every function is copied to a region of its own. It
    fails exactly when some function has no code.
  */
  method CopyAll(gens: seq<Generator>, ghost sources: seq<Source>) returns (regions: seq<array<Byte>>, ok: bool)
    requires AllGenerated(gens, sources)
    ensures ok <==> forall k :: 0 <= k < |sources| ==> HasCode(sources[k])
    ensures ok ==> |regions| == |sources| && Distinct(regions)
    ensures ok ==> forall k :: 0 <= k < |regions| ==>
      fresh(regions[k]) && regions[k].Length == |CodeOf(sources[k])| + 1 && Holds(regions[k], CodeOf(sources[k]))
  {
    hide CodeOf, Generated, Emit, HasCode;
    regions := [];
    for n := 0 to |gens|
      invariant |regions| == n && Distinct(regions)
      invariant forall k :: 0 <= k < n ==> HasCode(sources[k])
      invariant forall k :: 0 <= k < n ==> fresh(regions[k]) && regions[k].Length == |CodeOf(sources[k])| + 1
      invariant forall k :: 0 <= k < n ==> Holds(regions[k], CodeOf(sources[k]))
    {
      assert Generated(gens[n], sources[n]);
      var region, copied := CopyOne(gens[n], sources[n]);
      if !copied {
        return regions, false;
      }
      regions := regions + [region];
    }
    return regions, true;
  }

  /** Second loop: write the addresses of the functions called directly. */
  method LinkRegions(gens: seq<Generator>, ghost sources: seq<Source>, regions: seq<array<Byte>>, bases: seq<Word>)
    requires |gens| == |sources| == |regions| == |bases| && Distinct(regions)
    requires forall k :: 0 <= k < |gens| ==> Holds(regions[k], CodeOf(sources[k]))
    requires forall k :: 0 <= k < |gens| ==> gens[k].directCalls == CallSites(AllItems(sources[k]))
    modifies ObjectsOf(regions)
    ensures forall k :: 0 <= k < |gens| ==> Holds(regions[k], LinkedCodeOf(sources[k], bases))
  {
    hide Resolved, Emit, AllItems, LinkAll;
    for n := 0 to |gens|
      invariant forall k :: n <= k < |gens| ==> Holds(regions[k], CodeOf(sources[k]))
      invariant forall k :: 0 <= k < n ==> Holds(regions[k], LinkedCodeOf(sources[k], bases))
    {
      LinkOne(regions[n], gens[n].directCalls, bases, sources[n]);
    }
  }

  /**
    The whole code generation of a module, bases being the addresses of its regions: every function
    is generated, copied and linked, and unless some function has no code every region holds its
    function's instructions with branches resolved, and every direct call of its text carries the
    base of the function it names.
  */
  method JitModule(sources: seq<Source>, bases: seq<Word>) returns (regions: seq<array<Byte>>, ok: bool)
    requires |bases| == |sources| && forall k :: 0 <= k < |sources| ==> Integral(sources[k])
    ensures ok <==> forall k :: 0 <= k < |sources| ==> HasCode(sources[k])
    ensures ok ==> |regions| == |sources| && Distinct(regions)
    ensures ok ==> forall k :: 0 <= k < |sources| ==>
      regions[k].Length == |CodeOf(sources[k])| + 1 && Holds(regions[k], LinkedCodeOf(sources[k], bases))
    ensures ok ==> forall k :: 0 <= k < |sources| ==> CallsLinked(sources[k], bases, regions[k][..])
  {
    hide LinkedCodeOf, CodeOf, CallsLinked, HasCode, Integral;
    var gens := GenerateAll(sources);
    regions, ok := CopyAll(gens, sources);
    if ok {
      LinkRegions(gens, sources, regions, bases);
      forall k | 0 <= k < |sources|
        ensures CallsLinked(sources[k], bases, regions[k][..])
      {
        assert Holds(regions[k], LinkedCodeOf(sources[k], bases));
        LinkedCallsCarry(sources[k], bases, regions[k][..]);
      }
    }
  }

  // ----- functions without calls -----

  lemma {:induction false} NoCallsEmitted(f: Source, entries: seq<set<nat>>, p: nat)
    requires InFragment(f, entries) && p <= Len(f)
    ensures forall a :: a in Emit(f, p).items ==> !a.CallHole?
    decreases p
  {
    if p > 0 {
      NoCallsEmitted(f, entries, p - 1);
      assert Simple(InsAt(f, p - 1));
    }
  }

  /** Linking leaves the code of a function of the fragment as it was generated. */
  lemma LinkingKeepsFragment(f: Source, entries: seq<set<nat>>, bases: seq<Word>)
    requires InFragment(f, entries)
    ensures LinkedCodeOf(f, bases) == CodeOf(f)
  {
    NoCallsEmitted(f, entries, Len(f));
    assert LinkedItems(AllItems(f), bases) == AllItems(f);
  }

  /**
    The simulation is about the executable bytes: on the contents of a linked region, the byte after
    the code included, the processor does what the interpreter does.
  */
  lemma ExecutableComputes(env: Env, fi: nat, f: Source, entries: seq<set<nat>>, bases: seq<Word>, region: seq<Byte>,
                           values: seq<Word>, pool: seq<Word>, mem: Memory, cpu: Cpu, limit: nat)
    returns (k: nat)
    requires fi < |env.m| && IsSource(f, env.m[fi]) && InFragment(f, entries)
    requires ResultsFit(env.m[fi]) && f.args <= |env.m[fi].values|
    requires LinkedCodeOf(f, bases) <= region && CalledWith(f, values, mem, cpu) && WalkAgrees(f, values, 0, 0, limit)
    ensures var q := CpuRun(region, cpu, k);
            match EvalFunc(env, fi, values, pool, mem, limit)
            case Running(s) => k >= limit && q.Executing? && Abreast(f, LiveOf(f, entries), fi, s, q.cpu)
            case Returned(w, after) =>
              && q.Halted? && q.mem == after
              && var last := FinalState(env, fi, values, pool, mem, limit);
                 last.Some? && ComputesValue(f, values, last.value.block, last.value.index, q.rax, w)
            case Stop(_) => true
  {
    LinkingKeepsFragment(f, entries, bases);
    hide InFragment, LinkedCodeOf, CodeOf, CalledWith, WalkAgrees, CpuRun, ComputesValue, EvalFunc;
    k := FragmentComputes(env, fi, f, entries, values, pool, mem, region, cpu, limit);
  }
}

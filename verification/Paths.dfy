/**
  The path of a run: the code offsets of the positions it comes to. The processor's path is read off
  its program counter alone; both engines have the same path exactly when every conditional branch
  on the way tests a slot on which their tests agree.
*/
module Paths {
  import opened Words
  import opened Ir
  import opened Interp
  import opened Activation
  import opened X86
  import opened Allocator
  import opened Emission
  import opened Simulation
  import opened Definite
  import opened Refinement
  import opened Interpretation
  import opened Leaf
  import opened JitCorrectness

  // ----- code offsets -----

  /** Some position of the function starts at this offset. */
  ghost predicate IsMark(f: Source, pc: nat) {
    exists p: nat :: p <= |Flat(f.blocks)| && CodeOffset(f, p) == pc
  }

  ghost predicate NoEmptyBlocks(f: Source) {
    forall b :: 0 <= b < |f.blocks| ==> |f.blocks[b]| > 0
  }

  lemma {:induction false} OffsetsAscend(f: Source, p: nat, q: nat)
    requires p <= q <= |Flat(f.blocks)|
    ensures CodeOffset(f, p) <= CodeOffset(f, q)
    decreases q - p
  {
    hide Flat, EmitInstr;
    if p < q {
      OffsetsAscend(f, p, q - 1);
      ItemsArePlaced(f, q - 1);
    }
  }

  lemma NoMarkBetween(f: Source, p: nat, pc: nat)
    requires p < |Flat(f.blocks)| && CodeOffset(f, p) < pc < CodeOffset(f, p + 1)
    ensures !IsMark(f, pc)
  {
    hide CodeOffset;
    forall q: nat | q <= |Flat(f.blocks)|
      ensures CodeOffset(f, q) != pc
    {
      if q <= p {
        OffsetsAscend(f, q, p);
      } else {
        OffsetsAscend(f, p + 1, q);
      }
    }
  }

  lemma SupportedEmits(live: seq<Places>, t: Table, c: Places, i: Instr, voidCall: bool)
    requires Supported(live, t, c, i)
    ensures SizeOf(EmitInstr(t, i, voidCall).items) >= 1
  {
    var items := EmitInstr(t, i, voidCall).items;
    assert items[|items| - 1].Size() >= 1;
  }

  /** The first instruction of a block takes code. */
  lemma BlockTakesCode(f: Source, live: seq<Places>, b: nat)
    requires JitOk(f, live) && b < |f.blocks| && |f.blocks[b]| > 0
    ensures PositionOf(f, b, 0) < |Flat(f.blocks)|
    ensures CodeOffset(f, PositionOf(f, b, 0)) < CodeOffset(f, PositionOf(f, b, 0) + 1)
  {
    PositionNext(f, b, 0);
    var p := PositionOf(f, b, 0);
    SupportedEmits(live, TableAt(f, b, 0), PlacesAt(f, live[b], b, 0), f.blocks[b][0], f.voidCall(p));
    ItemsArePlaced(f, p);
  }

  lemma {:induction false} StartsInOrder(f: Source, b: nat, c: nat)
    requires b < c < |f.blocks|
    ensures PositionOf(f, b, |f.blocks[b]|) <= PositionOf(f, c, 0)
    decreases c - b
  {
    FlatAt(f.blocks, b, |f.blocks[b]|);
    if b + 1 < c {
      StartsInOrder(f, b, c - 1);
      FlatAt(f.blocks, c - 1, |f.blocks[c - 1]|);
    }
  }

  /** Different blocks start at different offsets. */
  lemma StartsDiffer(f: Source, live: seq<Places>, b: nat, c: nat)
    requires JitOk(f, live) && NoEmptyBlocks(f) && b < c < |f.blocks|
    ensures CodeOffset(f, PositionOf(f, b, 0)) < CodeOffset(f, PositionOf(f, c, 0))
  {
    hide CodeOffset, JitOk;
    BlockTakesCode(f, live, b);
    StartsInOrder(f, b, c);
    FlatAt(f.blocks, b, 0);
    FlatAt(f.blocks, b, |f.blocks[b]|);
    OffsetsAscend(f, PositionOf(f, b, 0) + 1, PositionOf(f, c, 0));
  }

  // ----- paths -----

  /** The positions the processor comes to in n steps. */
  ghost function CpuPath(f: Source, code: seq<Byte>, cpu: Cpu, n: nat): seq<nat>
    requires HasRegisters(cpu)
    decreases n
  {
    if n == 0 then []
    else match CpuStep(code, cpu)
      case Executing(next) => (if IsMark(f, next.pc) then [next.pc] else []) + CpuPath(f, code, next, n - 1)
      case _ => []
  }

  /** Some number of steps takes the processor along exactly this path. */
  ghost predicate Takes(f: Source, code: seq<Byte>, cpu: Cpu, path: seq<nat>)
    requires HasRegisters(cpu)
  {
    exists n: nat :: CpuPath(f, code, cpu, n) == path
  }

  function OffsetAt(f: Source, block: nat, index: nat): nat {
    if block < |f.blocks| && index <= |f.blocks[block]| then CodeOffset(f, PositionOf(f, block, index)) else 0
  }

  /** The positions the interpreter comes to, one per iteration, up to the limit. */
  function InterpPath(env: Env, f: Source, s: State, limit: nat): seq<nat>
    decreases limit - s.clock
  {
    if s.clock >= limit then []
    else match Step(env, s)
      case Running(t) => [OffsetAt(f, t.block, t.index)] + InterpPath(env, f, t, limit)
      case _ => []
  }

  function StackPath(env: Env, f: Source, r: Stack, limit: nat): seq<nat>
    decreases limit - r.clock
  {
    if r.clock >= limit then []
    else match StackStep(env, r)
      case Running(t) => [OffsetAt(f, t.cur.block, t.cur.index)] + StackPath(env, f, t, limit)
      case _ => []
  }

  lemma {:induction false} CpuPathSplit(f: Source, code: seq<Byte>, cpu: Cpu, j: nat, k: nat)
    requires HasRegisters(cpu) && CpuRun(code, cpu, j).Executing?
    ensures CpuPath(f, code, cpu, j + k) == CpuPath(f, code, cpu, j) + CpuPath(f, code, CpuRun(code, cpu, j).cpu, k)
    decreases j
  {
    hide CpuStep, IsMark;
    if j > 0 {
      CpuPathSplit(f, code, CpuStep(code, cpu).cpu, j - 1, k);
    }
  }

  /** The processor comes to its first position after exactly k steps. */
  ghost predicate ArrivesAt(f: Source, code: seq<Byte>, cpu: Cpu, k: nat, pc: nat)
    requires HasRegisters(cpu)
  {
    && k >= 1 && CpuRun(code, cpu, k).Executing? && CpuRun(code, cpu, k).cpu.pc == pc && IsMark(f, pc)
    && forall n :: 0 < n < k ==> PassesUnmarked(f, code, cpu, n)
  }

  ghost predicate PassesUnmarked(f: Source, code: seq<Byte>, cpu: Cpu, n: nat)
    requires HasRegisters(cpu)
  {
    CpuRun(code, cpu, n).Executing? && !IsMark(f, CpuRun(code, cpu, n).cpu.pc)
  }

  lemma {:induction false} PathBeforeArrival(f: Source, code: seq<Byte>, cpu: Cpu, k: nat, n: nat)
    requires HasRegisters(cpu) && n < k && forall j :: 0 < j < k ==> PassesUnmarked(f, code, cpu, j)
    ensures CpuPath(f, code, cpu, n) == [] && CpuRun(code, cpu, n).Executing?
    decreases n
  {
    hide CpuStep, IsMark;
    if n > 0 {
      PathBeforeArrival(f, code, cpu, k, n - 1);
      assert PassesUnmarked(f, code, cpu, n);
      LastStepOf(f, code, cpu, n);
    }
  }

  /** The last of n steps on its own. */
  lemma LastStepOf(f: Source, code: seq<Byte>, cpu: Cpu, n: nat)
    requires HasRegisters(cpu) && n > 0 && CpuRun(code, cpu, n - 1).Executing? && CpuRun(code, cpu, n).Executing?
    ensures CpuPath(f, code, cpu, n) ==
            CpuPath(f, code, cpu, n - 1) + (var pc := CpuRun(code, cpu, n).cpu.pc; if IsMark(f, pc) then [pc] else [])
  {
    hide CpuStep, IsMark;
    CpuPathSplit(f, code, cpu, n - 1, 1);
    CpuRunSplit(code, cpu, n - 1, 1);
    var last := CpuRun(code, cpu, n - 1).cpu;
    OneStepRun(code, last);
    var next := CpuStep(code, last).cpu;
    assert CpuPath(f, code, next, 0) == [];
  }

  /** Up to its first arrival a processor has come to that position only, and takes the rest from there. */
  lemma ArrivalSplits(f: Source, code: seq<Byte>, cpu: Cpu, k: nat, pc: nat, path: seq<nat>)
    requires HasRegisters(cpu) && ArrivesAt(f, code, cpu, k, pc) && |path| > 0
    ensures Takes(f, code, cpu, path) <==> path[0] == pc && Takes(f, code, CpuRun(code, cpu, k).cpu, path[1..])
  {
    hide IsMark, CpuRun, CpuStep, PassesUnmarked;
    PathBeforeArrival(f, code, cpu, k, k - 1);
    LastStepOf(f, code, cpu, k);
    var at := CpuRun(code, cpu, k).cpu;
    if Takes(f, code, cpu, path) {
      var n: nat :| CpuPath(f, code, cpu, n) == path;
      if n < k {
        PathBeforeArrival(f, code, cpu, k, n);
      }
      CpuPathSplit(f, code, cpu, k, n - k);
      assert path == [pc] + CpuPath(f, code, at, n - k);
      assert path[1..] == CpuPath(f, code, at, n - k);
    }
    if path[0] == pc && Takes(f, code, at, path[1..]) {
      var n: nat :| CpuPath(f, code, at, n) == path[1..];
      CpuPathSplit(f, code, cpu, k, n);
      assert [pc] + path[1..] == path;
      assert CpuPath(f, code, cpu, k + n) == path;
    }
  }

  // ----- one iteration -----

  lemma PositionIsMark(f: Source, block: nat, index: nat)
    requires block < |f.blocks| && index <= |f.blocks[block]|
    ensures IsMark(f, OffsetAt(f, block, index))
  {
    assert PositionOf(f, block, index) <= |Flat(f.blocks)|;
  }

  lemma OneStepArrives(f: Source, bin: Binary, live: seq<Places>, fi: nat, cpu: Cpu, last: Act, next: Stack)
    requires |live| == |f.blocks| && HasRegisters(cpu) && KeepsPace(f, bin, live, fi, cpu, 1, last, Running(next))
    ensures ArrivesAt(f, bin.code, cpu, 1, OffsetAt(f, next.cur.block, next.cur.index))
  {
    hide IsMark;
    PositionIsMark(f, next.cur.block, next.cur.index);
  }

  lemma PassesMiddle(f: Source, bin: Binary, cpu: Cpu, k: nat, p: nat)
    requires HasRegisters(cpu) && p < |Flat(f.blocks)|
    requires StaysBetween(bin, cpu, k, CodeOffset(f, p), CodeOffset(f, p + 1))
    ensures forall n :: 0 < n < k ==> PassesUnmarked(f, bin.code, cpu, n)
  {
    hide IsMark, CpuRun, CodeOffset;
    forall n | 0 < n < k
      ensures PassesUnmarked(f, bin.code, cpu, n)
    {
      assert InBetween(bin, cpu, n, CodeOffset(f, p), CodeOffset(f, p + 1));
      NoMarkBetween(f, p, CpuRun(bin.code, cpu, n).cpu.pc);
    }
  }

  /** Where the processor comes to next: the interpreter's next position, or another block. */
  ghost predicate Lands(env: Env, f: Source, bin: Binary, live: seq<Places>, r: Stack, next: Stack, cpu: Cpu,
                        k: nat, landing: Act)
    requires |live| == |f.blocks| && HasRegisters(cpu)
  {
    && next.callers == [] && next.cur.func == r.cur.func
    && ArrivesAt(f, bin.code, cpu, k, OffsetAt(f, landing.block, landing.index))
    && Related(f, live, landing, next.mem, CpuRun(bin.code, cpu, k).cpu)
    && (TestsAgree(env, f, live, r.cur) ==> landing == next.cur)
    && (!TestsAgree(env, f, live, r.cur) ==>
          landing.index == 0 == next.cur.index && landing.block != next.cur.block && next.cur.block < |f.blocks|)
  }

  lemma BranchLands(env: Env, fi: nat, f: Source, bin: Binary, live: seq<Places>, r: Stack, cpu: Cpu)
    returns (k: nat, landing: Act)
    requires Compiled(env, fi, f, bin, live) && r.callers == [] && r.cur.func == fi && StackStep(env, r).Running?
    requires Related(f, live, r.cur, r.mem, cpu) && At(env.m, fi, r.cur.block, r.cur.index)
    requires InstrAt(env.m, fi, r.cur.block, r.cur.index).CondBr?
    ensures Lands(env, f, bin, live, r, StackStep(env, r).s, cpu, k, landing)
  {
    hide JitOk, BuiltFrom, Decide, StaysBetween, CodeOffset, CpuRun, IsMark;
    var b, j := r.cur.block, r.cur.index;
    k := CondBranchLands(env, fi, f, bin, live, r.cur, r.mem, cpu);
    var i := InstrAt(env.m, fi, b, j);
    var c := LiveAt(f, live, b, j)[i.cond.id].form;
    var w := r.cur.regs[i.cond.id];
    landing := r.cur.(block := if RegOf(c, w) == 0 then i.onFalse else i.onTrue, index := 0);
    PositionNext(f, b, j);
    PassesMiddle(f, bin, cpu, k, PositionOf(f, b, j));
    PositionIsMark(f, landing.block, 0);
    CondDecides(env, r.cur, r.mem, env.junk(r.clock));
    SameTestIsExact(c, w);
    TargetsExist(env, fi, f, bin, live, b, j);
  }

  lemma TargetsExist(env: Env, fi: nat, f: Source, bin: Binary, live: seq<Places>, b: nat, j: nat)
    requires Compiled(env, fi, f, bin, live) && At(env.m, fi, b, j) && InstrAt(env.m, fi, b, j).CondBr?
    ensures InstrAt(env.m, fi, b, j).onTrue < |f.blocks| && InstrAt(env.m, fi, b, j).onFalse < |f.blocks|
  {
    PositionFacts(env, fi, f, bin, live, b, j);
  }

  lemma StepLands(env: Env, fi: nat, f: Source, bin: Binary, live: seq<Places>, r: Stack, cpu: Cpu)
    returns (k: nat, landing: Act)
    requires Compiled(env, fi, f, bin, live) && r.callers == [] && r.cur.func == fi && StackStep(env, r).Running?
    requires Related(f, live, r.cur, r.mem, cpu)
    ensures Lands(env, f, bin, live, r, StackStep(env, r).s, cpu, k, landing)
  {
    StepIsAt(env, r);
    hide JitOk, BuiltFrom, Decide, CodeOffset, CpuRun, IsMark, StackStep, RegsMatch, ArrivesAt;
    var i := InstrAt(env.m, fi, r.cur.block, r.cur.index);
    if i.CondBr? {
      k, landing := BranchLands(env, fi, f, bin, live, r, cpu);
    } else {
      k, landing := 1, StackStep(env, r).s.cur;
      PlainPace(env, fi, f, bin, live, r, cpu);
      OneStepArrives(f, bin, live, fi, cpu, r.cur, StackStep(env, r).s);
    }
  }

  lemma StepIsAt(env: Env, r: Stack)
    requires StackStep(env, r).Running?
    ensures At(env.m, r.cur.func, r.cur.block, r.cur.index)
  {
  }

  lemma PlainPace(env: Env, fi: nat, f: Source, bin: Binary, live: seq<Places>, r: Stack, cpu: Cpu)
    requires Compiled(env, fi, f, bin, live) && r.callers == [] && r.cur.func == fi && StackStep(env, r).Running?
    requires Related(f, live, r.cur, r.mem, cpu) && At(env.m, fi, r.cur.block, r.cur.index)
    requires !InstrAt(env.m, fi, r.cur.block, r.cur.index).CondBr?
    ensures KeepsPace(f, bin, live, fi, cpu, 1, r.cur, StackStep(env, r))
  {
    PositionFacts(env, fi, f, bin, live, r.cur.block, r.cur.index);
    var i := InstrAt(env.m, fi, r.cur.block, r.cur.index);
    hide JitOk, BuiltFrom, CodeOffset, CpuRun, RegsMatch, KeepsPace, LiveAt, CodeReads;
    if i.IsData() {
      DataPace(env, fi, f, bin, live, r, cpu);
    } else if i.Br? {
      JumpPace(env, fi, f, bin, live, r, cpu);
    } else {
      assert i.Ret?;
      RetNeverRuns(env, r);
    }
  }

  lemma RetNeverRuns(env: Env, r: Stack)
    requires r.callers == [] && At(env.m, r.cur.func, r.cur.block, r.cur.index)
    requires InstrAt(env.m, r.cur.func, r.cur.block, r.cur.index).Ret?
    ensures !StackStep(env, r).Running?
  {
  }

  // ----- whole runs -----

  lemma ReturnTestsNothing(env: Env, f: Source, live: seq<Places>, r: Stack)
    requires |live| == |f.blocks| && StackStep(env, r).Returned?
    ensures TestsAgree(env, f, live, r.cur)
  {
  }

  /**
    As long as the interpreter does not stop on a fault, the processor takes its path exactly when
    every conditional branch on the way has tests that agree.
  */
  lemma {:induction false} PathsAgreeIff(env: Env, fi: nat, f: Source, bin: Binary, live: seq<Places>, r: Stack, cpu: Cpu,
                                         limit: nat)
    requires Compiled(env, fi, f, bin, live) && NoEmptyBlocks(f) && r.callers == [] && r.cur.func == fi
    requires Related(f, live, r.cur, r.mem, cpu) && !StackRun(env, r, limit).Stop?
    ensures Takes(f, bin.code, cpu, StackPath(env, f, r, limit)) <==> RunTestsAgree(env, f, live, r, limit)
    decreases limit - r.clock, 1
  {
    hide JitOk, BuiltFrom, StackStep, CodeOffset, CpuRun, RegsMatch, TestsAgree, ArrivesAt, NoEmptyBlocks;
    assert CpuPath(f, bin.code, cpu, 0) == [];
    if r.clock < limit {
      var o := StackStep(env, r);
      if o.Running? {
        var k, landing := StepLands(env, fi, f, bin, live, r, cpu);
        RunningExtends(env, fi, f, bin, live, r, cpu, k, landing, limit);
      } else if o.Returned? {
        ReturnTestsNothing(env, f, live, r);
      }
    }
  }

  lemma {:induction false} RunningExtends(env: Env, fi: nat, f: Source, bin: Binary, live: seq<Places>, r: Stack, cpu: Cpu,
                                          k: nat, landing: Act, limit: nat)
    requires Compiled(env, fi, f, bin, live) && NoEmptyBlocks(f) && r.callers == [] && r.cur.func == fi
    requires Related(f, live, r.cur, r.mem, cpu) && !StackRun(env, r, limit).Stop?
    requires r.clock < limit && StackStep(env, r).Running? && Lands(env, f, bin, live, r, StackStep(env, r).s, cpu, k, landing)
    ensures Takes(f, bin.code, cpu, StackPath(env, f, r, limit)) <==> RunTestsAgree(env, f, live, r, limit)
    decreases limit - r.clock, 0
  {
    assert HasRegisters(cpu) && CpuRun(bin.code, cpu, k).Executing?;
    hide JitOk, BuiltFrom, StackStep, CodeOffset, CpuRun, RegsMatch, TestsAgree, ArrivesAt, NoEmptyBlocks, Takes, Related;
    var next := StackStep(env, r).s;
    var path := StackPath(env, f, r, limit);
    assert path == [OffsetAt(f, next.cur.block, next.cur.index)] + StackPath(env, f, next, limit);
    assert path[1..] == StackPath(env, f, next, limit);
    ArrivalSplits(f, bin.code, cpu, k, OffsetAt(f, landing.block, landing.index), path);
    StackRunUnfolds(env, r, limit);
    if TestsAgree(env, f, live, r.cur) {
      PathsAgreeIff(env, fi, f, bin, live, next, CpuRun(bin.code, cpu, k).cpu, limit);
    } else {
      LandingDiffers(f, live, landing, next.cur, next.mem, CpuRun(bin.code, cpu, k).cpu);
    }
  }

  lemma LandingDiffers(f: Source, live: seq<Places>, a: Act, b: Act, mem: Memory, cpu: Cpu)
    requires JitOk(f, live) && NoEmptyBlocks(f) && Related(f, live, a, mem, cpu)
    requires a.index == 0 == b.index && a.block != b.block && b.block < |f.blocks|
    ensures OffsetAt(f, a.block, a.index) != OffsetAt(f, b.block, b.index)
  {
    hide JitOk, NoEmptyBlocks, CodeOffset, RegsMatch;
    if a.block < b.block {
      StartsDiffer(f, live, a.block, b.block);
    } else {
      StartsDiffer(f, live, b.block, a.block);
    }
  }

  // ----- against the interpreter itself -----

  lemma {:induction false} LiveWithinDefined(f: Source, live: seq<Places>, b: nat, j: nat)
    requires JitOk(f, live) && b < |f.blocks| && j <= |f.blocks[b]|
    ensures LiveAt(f, live, b, j).Keys <= DefinedAfter(live[b].Keys, f.blocks[b], j)
    decreases j
  {
    hide Supported, Flow, Written, TableAt, Emit;
    if j > 0 {
      LiveWithinDefined(f, live, b, j - 1);
      FlowWrites(live, TableAt(f, b, j - 1), LiveAt(f, live, b, j - 1), f.blocks[b][j - 1]);
    }
  }

  lemma FlowWrites(live: seq<Places>, t: Table, c: Places, i: Instr)
    requires Supported(live, t, c, i)
    ensures Flow(c, t, i).Keys <= c.Keys + Written(i)
  {
  }

  /** What each block may use is set on every path to it, whichever way the interpreter goes. */
  function CertOf(m: Module, fi: nat, live: seq<Places>): Cert {
    seq(|m|, k requires 0 <= k < |m| =>
      if k == fi then seq(|live|, b requires 0 <= b < |live| => live[b].Keys) else [])
  }

  lemma UsesDefined(m: Module, live: seq<Places>, entries: seq<set<nat>>, t: Table, c: Places, i: Instr, defined: set<nat>)
    requires Supported(live, t, c, i) && c.Keys <= defined
    requires |entries| == |live| && forall b :: 0 <= b < |live| ==> entries[b] == live[b].Keys
    ensures DefiniteInstr(m, entries, i, defined)
  {
  }

  lemma LiveCertified(m: Module, fi: nat, f: Source, live: seq<Places>)
    requires fi < |m| && IsSource(f, m[fi]) && JitOk(f, live) && EntryOk(f, live)
    ensures Certified(Alone(m, fi), CertOf(m, fi, live))
  {
    var n, cert := Alone(m, fi), CertOf(m, fi, live);
    forall g: nat, b: nat, j: nat | At(n, g, b, j)
      ensures DefiniteInstr(n, cert[g], InstrAt(n, g, b, j), DefinedAt(n, cert, g, b, j))
    {
      LiveWithinDefined(f, live, b, j);
      UsesDefined(n, live, cert[g], TableAt(f, b, j), LiveAt(f, live, b, j), f.blocks[b][j], DefinedAt(n, cert, g, b, j));
    }
  }

  lemma {:induction false} PathsMatch(env: Env, f: Source, s: State, r: Stack, limit: nat)
    requires Windowed(env.m) && Represents(env.m, s, r) && StackRun(env, r, limit) != Stop(Uninit)
    ensures InterpPath(env, f, s, limit) == StackPath(env, f, r, limit)
    decreases limit - s.clock
  {
    hide Step, StackStep, OffsetAt;
    if s.clock < limit {
      StepRefines(env, s, r);
      if StackStep(env, r).Running? {
        PathsMatch(env, f, Step(env, s).s, StackStep(env, r).s, limit);
      }
    }
  }

  lemma {:induction false} LeafPath(env: Env, fi: nat, f: Source, s: State, limit: nat)
    requires fi < |env.m| && IsLeaf(env.m[fi]) && s.func == fi && s.frames == []
    ensures InterpPath(env, f, s, limit) == InterpPath(AloneIn(env, fi), f, s, limit)
    decreases limit - s.clock
  {
    hide Step, OffsetAt;
    if s.clock < limit {
      LeafStep(env, fi, s);
      if Step(env, s).Running? {
        LeafPath(env, fi, f, Step(env, s).s, limit);
      }
    }
  }

  /** The positions that interpreting a function comes to. */
  function PathOf(env: Env, fi: nat, f: Source, values: seq<Word>, pool: seq<Word>, mem: Memory, limit: nat): seq<nat> {
    match Start(env, fi, values, pool, mem)
    case Running(s) => InterpPath(env, f, s, limit)
    case _ => []
  }

  /**
    The generated code, called with the arguments in their registers, takes the interpreter's path up
    to the limit exactly when the tests on it agree, as long as the interpreter meets no fault.
  */
  lemma JitPathsAgreeIff(env: Env, fi: nat, f: Source, bin: Binary, live: seq<Places>,
                         values: seq<Word>, pool: seq<Word>, mem: Memory, cpu: Cpu, limit: nat)
    requires Compiled(env, fi, f, bin, live) && EntryOk(f, live) && CalledWith(f, values, mem, cpu) && NoEmptyBlocks(f)
    requires IsLeaf(env.m[fi]) && f.args <= |env.m[fi].values|
    requires !EvalFunc(env, fi, values, pool, mem, limit).Stop?
    ensures Takes(f, bin.code, cpu, PathOf(env, fi, f, values, pool, mem, limit)) <==>
            RunTestsAgree(env, f, live, Stack(FirstAct(env.m, fi, values, |pool|), [], mem, 0), limit)
  {
    hide JitOk, BuiltFrom, RegsMatch, Step, StackStep, Takes, EntryOk, Emit, Flat;
    var alone := AloneIn(env, fi);
    AloneIsWindowed(env.m, fi);
    LeafEvaluation(env, fi, values, pool, mem, limit);
    var s := Start(env, fi, values, pool, mem).s;
    var r := Stack(FirstAct(env.m, fi, values, |pool|), [], mem, 0);
    assert Start(alone, fi, values, pool, mem) == Running(s);
    NoFaultOnStack(env, fi, f, live, values, pool, mem, limit);
    EntryRelated(f, live, r.cur, values, mem, cpu);
    RunRefines(alone, s, r, limit);
    PathsMatch(alone, f, s, r, limit);
    LeafPath(env, fi, f, s, limit);
    LeafTests(env, fi, f, live, r, limit);
    PathsAgreeIff(alone, fi, f, bin, live, r, cpu, limit);
  }

  lemma NeverUnset(env: Env, fi: nat, f: Source, live: seq<Places>, values: seq<Word>, pool: seq<Word>, mem: Memory, limit: nat)
    requires fi < |env.m| && IsSource(f, env.m[fi]) && JitOk(f, live) && EntryOk(f, live)
    requires f.args <= |values|
    ensures StackRun(AloneIn(env, fi), Stack(FirstAct(env.m, fi, values, |pool|), [], mem, 0), limit) != Stop(Uninit)
  {
    LiveCertified(env.m, fi, f, live);
    NeverUninit(AloneIn(env, fi), CertOf(env.m, fi, live), Stack(FirstAct(env.m, fi, values, |pool|), [], mem, 0), limit);
  }

  /** An interpretation without fault is a run without fault of the stack machine. */
  lemma NoFaultOnStack(env: Env, fi: nat, f: Source, live: seq<Places>, values: seq<Word>, pool: seq<Word>, mem: Memory,
                       limit: nat)
    requires fi < |env.m| && IsSource(f, env.m[fi]) && JitOk(f, live) && EntryOk(f, live) && IsLeaf(env.m[fi])
    requires f.args <= |env.m[fi].values| && f.args <= |values|
    requires !EvalFunc(env, fi, values, pool, mem, limit).Stop?
    ensures !StackRun(AloneIn(env, fi), Stack(FirstAct(env.m, fi, values, |pool|), [], mem, 0), limit).Stop?
  {
    var alone := AloneIn(env, fi);
    AloneIsWindowed(env.m, fi);
    LeafEvaluation(env, fi, values, pool, mem, limit);
    NeverUnset(env, fi, f, live, values, pool, mem, limit);
    RunRefines(alone, Start(alone, fi, values, pool, mem).s, Stack(FirstAct(env.m, fi, values, |pool|), [], mem, 0), limit);
  }
}

/** Whole runs: the processor on the generated bytes keeps pace with the interpreter. */
module JitCorrectness {
  import opened Words
  import opened Ir
  import opened Interp
  import opened Activation
  import opened Refinement
  import opened Interpretation
  import opened X86
  import opened Allocator
  import opened Emission
  import opened Simulation
  import opened Leaf

  /** Function fi of the module, its generated code and its certificate. */
  ghost predicate Compiled(env: Env, fi: nat, f: Source, bin: Binary, live: seq<Places>) {
    && fi < |env.m| && IsSource(f, env.m[fi]) && |live| == |f.blocks|
    && BuiltFrom(bin, f)
    && JitOk(f, live)
  }

  ghost function LiveAt(f: Source, live: seq<Places>, b: nat, j: nat): Places
    requires |live| == |f.blocks| && b < |f.blocks| && j <= |f.blocks[b]|
  {
    PlacesAt(f, live[b], b, j)
  }

  /** The processor stands at the code of act's position and holds every usable value of act. */
  ghost predicate Related(f: Source, live: seq<Places>, act: Act, mem: Memory, cpu: Cpu)
    requires |live| == |f.blocks|
  {
    && act.block < |f.blocks| && act.index <= |f.blocks[act.block]|
    && HasRegisters(cpu) && cpu.mem == mem
    && cpu.pc == CodeOffset(f, PositionOf(f, act.block, act.index))
    && RegsMatch(LiveAt(f, live, act.block, act.index), act.regs, cpu.regs)
  }

  lemma PositionNext(f: Source, b: nat, j: nat)
    requires b < |f.blocks| && j < |f.blocks[b]|
    ensures PositionOf(f, b, j) < |Flat(f.blocks)| && PositionOf(f, b, j + 1) == PositionOf(f, b, j) + 1
    ensures Flat(f.blocks)[PositionOf(f, b, j)] == f.blocks[b][j]
  {
    FlatAt(f.blocks, b, j);
    FlatAt(f.blocks, b, j + 1);
  }

  lemma EmissionFacts(f: Source, bin: Binary, p: nat, q: nat, i: Instr)
    requires BuiltFrom(bin, f) && SizeOf(AllItems(f)) < 0x8000_0000
    requires p < |Flat(f.blocks)| && q == p + 1 && Flat(f.blocks)[p] == i
    ensures var e := EmitInstr(Emit(f, p).table, i, f.voidCall(p));
            CodeReads(bin, CodeOffset(f, p), e.items, CodeOffset(f, q))
  {
    PositionReads(f, bin, p);
  }

  /** What is known at an instruction of a compiled function. */
  lemma PositionFacts(env: Env, fi: nat, f: Source, bin: Binary, live: seq<Places>, b: nat, j: nat)
    requires Compiled(env, fi, f, bin, live) && At(env.m, fi, b, j)
    ensures var i := InstrAt(env.m, fi, b, j);
            var t := TableAt(f, b, j);
            var e := EmitInstr(t, i, f.voidCall(PositionOf(f, b, j)));
            && Supported(live, t, LiveAt(f, live, b, j), i)
            && LiveAt(f, live, b, j + 1) == Flow(LiveAt(f, live, b, j), t, i)
            && CodeReads(bin, CodeOffset(f, PositionOf(f, b, j)), e.items, CodeOffset(f, PositionOf(f, b, j + 1)))
  {
    var p := PositionOf(f, b, j);
    PositionNext(f, b, j);
    EmissionFacts(f, bin, p, PositionOf(f, b, j + 1), f.blocks[b][j]);
  }

  /** Arriving at a block through a branch that joins it. */
  lemma JoinRelated(f: Source, live: seq<Places>, c: Places, act: Act, mem: Memory, cpu: Cpu, target: nat)
    requires |live| == |f.blocks| && Joins(live, c, target) && RegsMatch(c, act.regs, cpu.regs)
    requires cpu.pc == CodeOffset(f, PositionOf(f, target, 0)) && cpu.mem == mem
    ensures Related(f, live, act.(block := target, index := 0), mem, cpu)
  {
  }

  // ----- the branch condition -----

  /** The processor tests the whole register, the interpreter the low byte: they agree on w iff this holds. */
  predicate SameTest(c: Form, w: Word) {
    w % 0x100 == 1 || RegOf(c, w) == 0
  }

  lemma NonzeroByte(c: Form, w: Word)
    requires w % 0x100 == 1
    ensures RegOf(c, w) != 0
  {
    RegOfLow(c, w);
    ModOfMod(w, 0x100, 0x100_0000);
  }

  /** On a proper boolean byte both engines choose the same block exactly when SameTest holds. */
  lemma SameTestIsExact(c: Form, w: Word)
    requires w % 0x100 <= 1
    ensures (RegOf(c, w) != 0 <==> w % 0x100 == 1) <==> SameTest(c, w)
  {
    if w % 0x100 == 1 {
      NonzeroByte(c, w);
    }
  }

  ghost predicate TestsAgree(env: Env, f: Source, live: seq<Places>, act: Act)
    requires |live| == |f.blocks|
  {
    At(env.m, act.func, act.block, act.index) && act.block < |f.blocks| && act.index < |f.blocks[act.block]| ==>
      var i := InstrAt(env.m, act.func, act.block, act.index);
      var c := LiveAt(f, live, act.block, act.index);
      i.CondBr? && i.onTrue != i.onFalse && i.cond.id in c && i.cond.id in act.regs ==>
        SameTest(c[i.cond.id].form, act.regs[i.cond.id])
  }

  // ----- one iteration -----

  /** rax is the returned w in the form that the result of the RET at that position has there. */
  ghost predicate ReturnsAt(f: Source, live: seq<Places>, block: nat, index: nat, rax: Word, w: Word)
    requires |live| == |f.blocks|
  {
    && block < |f.blocks| && index < |f.blocks[block]|
    && var i, c := f.blocks[block][index], LiveAt(f, live, block, index);
       i.Ret? && i.result.id in c && rax == RegOf(c[i.result.id].form, w)
  }

  /** The processor after k steps is where the interpreter's outcome, reached from `last`, says. */
  ghost predicate KeepsPace(f: Source, bin: Binary, live: seq<Places>, fi: nat, cpu: Cpu, k: nat, last: Act,
                            o: Outcome<Stack>)
    requires |live| == |f.blocks| && HasRegisters(cpu)
  {
    var q := CpuRun(bin.code, cpu, k);
    match o
    case Running(r) => r.callers == [] && r.cur.func == fi && q.Executing? && Related(f, live, r.cur, r.mem, q.cpu)
    case Returned(w, mem) => q.Halted? && q.mem == mem && ReturnsAt(f, live, last.block, last.index, q.rax, w)
    case Stop(fault) => fault != Uninit
  }

  lemma DataPace(env: Env, fi: nat, f: Source, bin: Binary, live: seq<Places>, r: Stack, cpu: Cpu)
    requires Compiled(env, fi, f, bin, live) && r.callers == [] && r.cur.func == fi
    requires Related(f, live, r.cur, r.mem, cpu) && At(env.m, fi, r.cur.block, r.cur.index)
    requires InstrAt(env.m, fi, r.cur.block, r.cur.index).IsData()
    ensures KeepsPace(f, bin, live, fi, cpu, 1, r.cur, StackStep(env, r))
  {
    hide DecideData, EmitInstr, SupportedData, Flow, CodeReads, JitOk, BuiltFrom;
    var b, j := r.cur.block, r.cur.index;
    var i := InstrAt(env.m, fi, b, j);
    var p := PositionOf(f, b, j);
    PositionFacts(env, fi, f, bin, live, b, j);
    DataSim(bin, TableAt(f, b, j), LiveAt(f, live, b, j), i, f.voidCall(p), r.cur, r.mem, env.junk(r.clock),
            cpu, CodeOffset(f, p), CodeOffset(f, PositionOf(f, b, j + 1)));
    FollowsPace(f, bin, live, fi, r, DecideData(i, r.cur, r.mem, env.junk(r.clock)), cpu,
                LiveAt(f, live, b, j + 1), CodeOffset(f, PositionOf(f, b, j + 1)));
  }

  lemma FollowsPace(f: Source, bin: Binary, live: seq<Places>, fi: nat, r: Stack, d: Activation.Move, cpu: Cpu,
                    c: Places, end: nat)
    requires |live| == |f.blocks| && HasRegisters(cpu) && r.callers == [] && r.cur.func == fi
    requires r.cur.block < |f.blocks| && r.cur.index < |f.blocks[r.cur.block]|
    requires Follows(bin, c, r.cur, d, cpu, end)
    requires c == LiveAt(f, live, r.cur.block, r.cur.index + 1)
    requires end == CodeOffset(f, PositionOf(f, r.cur.block, r.cur.index + 1))
    ensures KeepsPace(f, bin, live, fi, cpu, 1, r.cur, Follow(r, d))
  {
    hide CodeOffset, PlacesAt, Decode, CpuRun;
  }

  lemma JumpPace(env: Env, fi: nat, f: Source, bin: Binary, live: seq<Places>, r: Stack, cpu: Cpu)
    requires Compiled(env, fi, f, bin, live) && r.callers == [] && r.cur.func == fi
    requires Related(f, live, r.cur, r.mem, cpu) && At(env.m, fi, r.cur.block, r.cur.index)
    requires InstrAt(env.m, fi, r.cur.block, r.cur.index).Br?
    ensures KeepsPace(f, bin, live, fi, cpu, 1, r.cur, StackStep(env, r))
  {
    var b, j := r.cur.block, r.cur.index;
    var target := InstrAt(env.m, fi, b, j).target;
    PositionFacts(env, fi, f, bin, live, b, j);
    JumpRuns(bin, cpu.pc, target, CodeOffset(f, PositionOf(f, b, j + 1)), cpu);
    BlockStarts(f, bin, target);
    JoinRelated(f, live, LiveAt(f, live, b, j), r.cur, r.mem,
                CpuRun(bin.code, cpu, 1).cpu, target);
  }

  /** The processor goes to the block its own test chooses, with every value that block may use. */
  lemma CondBranchLands(env: Env, fi: nat, f: Source, bin: Binary, live: seq<Places>, act: Act, mem: Memory, cpu: Cpu)
    returns (k: nat)
    requires Compiled(env, fi, f, bin, live) && act.func == fi
    requires Related(f, live, act, mem, cpu) && At(env.m, fi, act.block, act.index)
    requires InstrAt(env.m, fi, act.block, act.index).CondBr?
    ensures k >= 1 && CpuRun(bin.code, cpu, k).Executing?
    ensures StaysBetween(bin, cpu, k, CodeOffset(f, PositionOf(f, act.block, act.index)),
                         CodeOffset(f, PositionOf(f, act.block, act.index + 1)))
    ensures var i := InstrAt(env.m, fi, act.block, act.index);
            var c := LiveAt(f, live, act.block, act.index);
            && i.cond.id in c && i.cond.id in act.regs
            && Related(f, live,
                 act.(block := if RegOf(c[i.cond.id].form, act.regs[i.cond.id]) == 0 then i.onFalse else i.onTrue, index := 0),
                 mem, CpuRun(bin.code, cpu, k).cpu)
  {
    hide JitOk, BuiltFrom, StaysBetween, CodeReads, Decode, Resolved, RegOf, CpuRun, PlacesAt;
    var b, j := act.block, act.index;
    var i := InstrAt(env.m, fi, b, j);
    var t, c := TableAt(f, b, j), LiveAt(f, live, b, j);
    PositionFacts(env, fi, f, bin, live, b, j);
    var reg := Lookup(t, i.cond.id);
    k := CondBranchRuns(bin, cpu.pc, reg, i.onTrue, i.onFalse, CodeOffset(f, PositionOf(f, b, j + 1)), cpu);
    var target := if cpu.regs[reg] == 0 then i.onFalse else i.onTrue;
    BlockStarts(f, bin, target);
    JoinRelated(f, live, c, act, mem, CpuRun(bin.code, cpu, k).cpu, target);
  }

  lemma CondDecides(env: Env, act: Act, mem: Memory, junk: Word)
    requires At(env.m, act.func, act.block, act.index) && InstrAt(env.m, act.func, act.block, act.index).CondBr?
    requires InstrAt(env.m, act.func, act.block, act.index).cond.id in act.regs
    ensures var i := InstrAt(env.m, act.func, act.block, act.index);
            var d := Decide(env, 0, act, mem, junk);
            var w := act.regs[i.cond.id];
            || d == Traps(PoolOverflow) || d == Traps(BadBool)
            || (w % 0x100 <= 1 && d == Goes(act.(block := if w % 0x100 == 1 then i.onTrue else i.onFalse, index := 0), mem))
  {
    OneRead(act, InstrAt(env.m, act.func, act.block, act.index).cond.id);
  }

  lemma CondBranchPace(env: Env, fi: nat, f: Source, bin: Binary, live: seq<Places>, r: Stack, cpu: Cpu) returns (k: nat)
    requires Compiled(env, fi, f, bin, live) && r.callers == [] && r.cur.func == fi
    requires Related(f, live, r.cur, r.mem, cpu) && At(env.m, fi, r.cur.block, r.cur.index)
    requires InstrAt(env.m, fi, r.cur.block, r.cur.index).CondBr? && TestsAgree(env, f, live, r.cur)
    ensures k >= 1 && KeepsPace(f, bin, live, fi, cpu, k, r.cur, StackStep(env, r))
  {
    hide JitOk, BuiltFrom, Decide;
    k := CondBranchLands(env, fi, f, bin, live, r.cur, r.mem, cpu);
    CondDecides(env, r.cur, r.mem, env.junk(r.clock));
    var i := InstrAt(env.m, fi, r.cur.block, r.cur.index);
    var c := LiveAt(f, live, r.cur.block, r.cur.index)[i.cond.id].form;
    var w := r.cur.regs[i.cond.id];
    var d := Decide(env, 0, r.cur, r.mem, env.junk(r.clock));
    if d.Goes? {
      SameTestIsExact(c, w);
      LandsPace(f, bin, live, fi, r, d, cpu, k);
    }
  }

  lemma LandsPace(f: Source, bin: Binary, live: seq<Places>, fi: nat, r: Stack, d: Activation.Move, cpu: Cpu, k: nat)
    requires |live| == |f.blocks| && HasRegisters(cpu) && r.callers == [] && d.Goes? && d.act.func == fi && d.mem == r.mem
    requires CpuRun(bin.code, cpu, k).Executing? && Related(f, live, d.act, r.mem, CpuRun(bin.code, cpu, k).cpu)
    ensures KeepsPace(f, bin, live, fi, cpu, k, r.cur, Follow(r, d))
  {
  }

  lemma OneRead(act: Act, id: nat)
    requires id in act.regs
    ensures ReadRegs(act, [id]) == Bad(PoolOverflow) || ReadRegs(act, [id]) == Got([act.regs[id]])
  {
    assert [id][0] == id;
  }

  lemma RetDecides(env: Env, act: Act, mem: Memory, junk: Word)
    requires At(env.m, act.func, act.block, act.index) && InstrAt(env.m, act.func, act.block, act.index).Ret?
    requires InstrAt(env.m, act.func, act.block, act.index).result.id in act.regs
    ensures var id := InstrAt(env.m, act.func, act.block, act.index).result.id;
            var d := Decide(env, 0, act, mem, junk);
            d == Traps(PoolOverflow) || d == Returns(act.regs[id])
  {
    OneRead(act, InstrAt(env.m, act.func, act.block, act.index).result.id);
  }

  lemma ReturnPace(env: Env, fi: nat, f: Source, bin: Binary, live: seq<Places>, r: Stack, cpu: Cpu) returns (k: nat)
    requires Compiled(env, fi, f, bin, live) && r.callers == [] && r.cur.func == fi
    requires Related(f, live, r.cur, r.mem, cpu) && At(env.m, fi, r.cur.block, r.cur.index)
    requires InstrAt(env.m, fi, r.cur.block, r.cur.index).Ret?
    ensures k >= 1 && KeepsPace(f, bin, live, fi, cpu, k, r.cur, StackStep(env, r))
  {
    var b, j := r.cur.block, r.cur.index;
    var id := InstrAt(env.m, fi, b, j).result.id;
    PositionFacts(env, fi, f, bin, live, b, j);
    RetDecides(env, r.cur, r.mem, env.junk(r.clock));
    var c := LiveAt(f, live, b, j)[id].form;
    k := ReturnRuns(bin, cpu.pc, Lookup(TableAt(f, b, j), id), CodeOffset(f, PositionOf(f, b, j + 1)), cpu);
    HaltedPace(f, bin, live, fi, r, Decide(env, 0, r.cur, r.mem, env.junk(r.clock)), cpu, k, c, r.cur.regs[id]);
  }

  lemma HaltedPace(f: Source, bin: Binary, live: seq<Places>, fi: nat, r: Stack, d: Activation.Move, cpu: Cpu, k: nat,
                   c: Form, w: Word)
    requires |live| == |f.blocks| && HasRegisters(cpu) && r.callers == []
    requires d == Traps(PoolOverflow) || d == Returns(w)
    requires CpuRun(bin.code, cpu, k) == Halted(RegOf(c, w), r.mem) && ReturnsAt(f, live, r.cur.block, r.cur.index, RegOf(c, w), w)
    ensures KeepsPace(f, bin, live, fi, cpu, k, r.cur, Follow(r, d))
  {
  }

  /** At a branch with two different targets both engines go to the same block exactly when SameTest holds. */
  lemma SameBlockIffSameTest(env: Env, fi: nat, f: Source, bin: Binary, live: seq<Places>, r: Stack, cpu: Cpu)
    returns (k: nat, landing: nat)
    requires Compiled(env, fi, f, bin, live) && r.callers == [] && r.cur.func == fi
    requires Related(f, live, r.cur, r.mem, cpu) && At(env.m, fi, r.cur.block, r.cur.index)
    requires var i := InstrAt(env.m, fi, r.cur.block, r.cur.index); i.CondBr? && i.onTrue != i.onFalse
    requires StackStep(env, r).Running?
    ensures CpuRun(bin.code, cpu, k).Executing?
    ensures Related(f, live, r.cur.(block := landing, index := 0), r.mem, CpuRun(bin.code, cpu, k).cpu)
    ensures var i := InstrAt(env.m, fi, r.cur.block, r.cur.index);
            var c := LiveAt(f, live, r.cur.block, r.cur.index);
            && i.cond.id in c && i.cond.id in r.cur.regs
            && (StackStep(env, r).s.cur.block == landing <==> SameTest(c[i.cond.id].form, r.cur.regs[i.cond.id]))
  {
    hide JitOk, BuiltFrom, Decide;
    k := CondBranchLands(env, fi, f, bin, live, r.cur, r.mem, cpu);
    var i := InstrAt(env.m, fi, r.cur.block, r.cur.index);
    var c := LiveAt(f, live, r.cur.block, r.cur.index)[i.cond.id].form;
    var w := r.cur.regs[i.cond.id];
    landing := if RegOf(c, w) == 0 then i.onFalse else i.onTrue;
    CondDecides(env, r.cur, r.mem, env.junk(r.clock));
    SameTestIsExact(c, w);
  }

  /** Each iteration of the interpreter is one or more steps of the processor. */
  lemma StepPace(env: Env, fi: nat, f: Source, bin: Binary, live: seq<Places>, r: Stack, cpu: Cpu) returns (k: nat)
    requires Compiled(env, fi, f, bin, live) && r.callers == [] && r.cur.func == fi
    requires Related(f, live, r.cur, r.mem, cpu) && TestsAgree(env, f, live, r.cur)
    ensures k >= 1 && KeepsPace(f, bin, live, fi, cpu, k, r.cur, StackStep(env, r))
  {
    hide JitOk, BuiltFrom, Related;
    k := 1;
    if At(env.m, fi, r.cur.block, r.cur.index) {
      var i := InstrAt(env.m, fi, r.cur.block, r.cur.index);
      PositionFacts(env, fi, f, bin, live, r.cur.block, r.cur.index);
      match i
      case Br(_) => JumpPace(env, fi, f, bin, live, r, cpu);
      case CondBr(_, _, _) => k := CondBranchPace(env, fi, f, bin, live, r, cpu);
      case Ret(_) => k := ReturnPace(env, fi, f, bin, live, r, cpu);
      case RetVoid =>
      case CallFunc(_, _, _) =>
      case _ => DataPace(env, fi, f, bin, live, r, cpu);
    }
  }

  // ----- whole runs -----

  /** Every conditional branch of the run tests a slot on which the two tests agree. */
  ghost predicate RunTestsAgree(env: Env, f: Source, live: seq<Places>, r: Stack, limit: nat)
    requires |live| == |f.blocks|
    decreases limit - r.clock
  {
    r.clock < limit ==>
      TestsAgree(env, f, live, r.cur)
      && (StackStep(env, r).Running? ==> RunTestsAgree(env, f, live, StackStep(env, r).s, limit))
  }

  predicate TestsBoolean(env: Env, act: Act) {
    At(env.m, act.func, act.block, act.index) ==>
      var i := InstrAt(env.m, act.func, act.block, act.index);
      i.CondBr? && i.cond.id in act.regs ==> act.regs[i.cond.id] <= 1
  }

  lemma BooleanTestsAgree(env: Env, f: Source, live: seq<Places>, act: Act)
    requires |live| == |f.blocks| && TestsBoolean(env, act)
    ensures TestsAgree(env, f, live, act)
  {
  }

  /** Every conditional branch of the run tests 0 or 1. */
  ghost predicate RunTestsBooleans(env: Env, r: Stack, limit: nat)
    decreases limit - r.clock
  {
    r.clock < limit ==>
      && TestsBoolean(env, r.cur)
      && (StackStep(env, r).Running? ==> RunTestsBooleans(env, StackStep(env, r).s, limit))
  }

  lemma {:induction false} BooleanRunsAgree(env: Env, f: Source, live: seq<Places>, r: Stack, limit: nat)
    requires |live| == |f.blocks| && RunTestsBooleans(env, r, limit)
    ensures RunTestsAgree(env, f, live, r, limit)
    decreases limit - r.clock
  {
    hide StackStep;
    if r.clock < limit {
      BooleanTestsAgree(env, f, live, r.cur);
      if StackStep(env, r).Running? {
        BooleanRunsAgree(env, f, live, StackStep(env, r).s, limit);
      }
    }
  }

  lemma PaceShifts(f: Source, bin: Binary, live: seq<Places>, fi: nat, cpu: Cpu, j: nat, k: nat, last: Act,
                   o: Outcome<Stack>)
    requires |live| == |f.blocks| && HasRegisters(cpu) && CpuRun(bin.code, cpu, j).Executing?
    requires KeepsPace(f, bin, live, fi, CpuRun(bin.code, cpu, j).cpu, k, last, o)
    ensures KeepsPace(f, bin, live, fi, cpu, j + k, last, o)
  {
    CpuRunSplit(bin.code, cpu, j, k);
  }

  lemma StackRunUnfolds(env: Env, r: Stack, limit: nat)
    ensures r.clock >= limit ==> StackRun(env, r, limit) == Running(r)
    ensures LastAct(env, r, limit) ==
            if r.clock < limit && StackStep(env, r).Running? then LastAct(env, StackStep(env, r).s, limit) else r.cur
    ensures r.clock < limit ==>
              StackRun(env, r, limit) ==
              if StackStep(env, r).Running? then StackRun(env, StackStep(env, r).s, limit) else StackStep(env, r)
  {
  }

  /** One more iteration in front of a run that keeps pace. */
  lemma PaceExtends(env: Env, fi: nat, f: Source, bin: Binary, live: seq<Places>, cpu: Cpu, j: nat, k: nat,
                    r: Stack, next: Stack, limit: nat)
    requires |live| == |f.blocks| && HasRegisters(cpu) && r.clock < limit && StackStep(env, r) == Running(next)
    requires CpuRun(bin.code, cpu, j).Executing?
    requires KeepsPace(f, bin, live, fi, CpuRun(bin.code, cpu, j).cpu, k, LastAct(env, next, limit), StackRun(env, next, limit))
    ensures KeepsPace(f, bin, live, fi, cpu, j + k, LastAct(env, r, limit), StackRun(env, r, limit))
  {
    StackRunUnfolds(env, r, limit);
    PaceShifts(f, bin, live, fi, cpu, j, k, LastAct(env, next, limit), StackRun(env, next, limit));
  }

  lemma PaceNow(f: Source, bin: Binary, live: seq<Places>, fi: nat, r: Stack, cpu: Cpu, last: Act)
    requires |live| == |f.blocks| && r.callers == [] && r.cur.func == fi && Related(f, live, r.cur, r.mem, cpu)
    ensures HasRegisters(cpu) && KeepsPace(f, bin, live, fi, cpu, 0, last, Running(r))
  {
  }

  lemma PaceMeansRelated(f: Source, bin: Binary, live: seq<Places>, fi: nat, cpu: Cpu, k: nat, last: Act, next: Stack)
    requires |live| == |f.blocks| && HasRegisters(cpu) && KeepsPace(f, bin, live, fi, cpu, k, last, Running(next))
    ensures CpuRun(bin.code, cpu, k).Executing?
    ensures next.callers == [] && next.cur.func == fi && Related(f, live, next.cur, next.mem, CpuRun(bin.code, cpu, k).cpu)
  {
  }

  lemma {:induction false} RunPace(env: Env, fi: nat, f: Source, bin: Binary, live: seq<Places>, r: Stack, cpu: Cpu,
                                   limit: nat) returns (k: nat)
    requires Compiled(env, fi, f, bin, live) && r.callers == [] && r.cur.func == fi && r.clock <= limit
    requires Related(f, live, r.cur, r.mem, cpu) && RunTestsAgree(env, f, live, r, limit)
    ensures KeepsPace(f, bin, live, fi, cpu, k, LastAct(env, r, limit), StackRun(env, r, limit))
    ensures StackRun(env, r, limit).Running? ==> k >= limit - r.clock
    decreases limit - r.clock
  {
    hide Decode, Decide, CodeOffset, RegsMatch, JitOk, BuiltFrom, CpuRun, KeepsPace, TestsAgree;
    StackRunUnfolds(env, r, limit);
    PaceNow(f, bin, live, fi, r, cpu, LastAct(env, r, limit));
    k := 0;
    if r.clock < limit {
      k := StepPace(env, fi, f, bin, live, r, cpu);
      if StackStep(env, r).Running? {
        var next := StackStep(env, r).s;
        PaceMeansRelated(f, bin, live, fi, cpu, k, r.cur, next);
        var rest := RunPace(env, fi, f, bin, live, next, CpuRun(bin.code, cpu, k).cpu, limit);
        PaceExtends(env, fi, f, bin, live, cpu, k, rest, r, next, limit);
        k := k + rest;
      }
    }
  }

  // ----- from the entry, against the interpreter itself -----

  /** The first block relies on nothing but integer arguments in their calling-convention registers. */
  ghost predicate EntryOk(f: Source, live: seq<Places>) {
    |live| > 0 && forall id :: id in live[0] ==> id < f.args && id < 4 && live[0][id] == Place(Exact, ArgCode(id))
  }

  /** A call of the generated code: at its first byte with the arguments in their registers. */
  ghost predicate CalledWith(f: Source, values: seq<Word>, mem: Memory, cpu: Cpu) {
    && HasRegisters(cpu) && cpu.pc == 0 && cpu.mem == mem && f.args <= |values|
    && forall a :: 0 <= a < f.args && a < 4 ==> cpu.regs[ArgCode(a)] == values[a]
  }

  lemma EntryRelated(f: Source, live: seq<Places>, act: Act, values: seq<Word>, mem: Memory, cpu: Cpu)
    requires |live| == |f.blocks| && EntryOk(f, live) && CalledWith(f, values, mem, cpu)
    requires act.block == 0 && act.index == 0 && act.regs == map k: nat | k < f.args :: values[k]
    ensures Related(f, live, act, mem, cpu)
  {
    assert PositionOf(f, 0, 0) == 0;
    assert CodeOffset(f, 0) == 0;
  }

  /** The tests of a leaf's run do not depend on the rest of the module. */
  lemma {:induction false} LeafTests(env: Env, fi: nat, f: Source, live: seq<Places>, r: Stack, limit: nat)
    requires fi < |env.m| && IsLeaf(env.m[fi]) && |live| == |f.blocks| && r.cur.func == fi && r.callers == []
    ensures RunTestsAgree(env, f, live, r, limit) <==> RunTestsAgree(AloneIn(env, fi), f, live, r, limit)
    decreases limit - r.clock
  {
    hide StackStep;
    if r.clock < limit {
      LeafStackStep(env, fi, r);
      assert TestsAgree(AloneIn(env, fi), f, live, r.cur) <==> TestsAgree(env, f, live, r.cur);
      if StackStep(env, r).Running? {
        LeafTests(env, fi, f, live, StackStep(env, r).s, limit);
      }
    }
  }

  /** Every usable value is in its register, in its form, as the interpreter's pool has it. */
  ghost predicate SlotsHeld(c: Places, s: State, regs: seq<Word>) {
    |regs| == 16 && forall id :: id in c ==>
      s.base + id < |s.pool| && c[id].reg < 16 && regs[c[id].reg] == RegOf(c[id].form, s.pool[s.base + id])
  }

  /** The processor is at the code of the interpreter's position, with its memory and values. */
  ghost predicate Abreast(f: Source, live: seq<Places>, fi: nat, s: State, cpu: Cpu)
    requires |live| == |f.blocks|
  {
    && s.func == fi && s.block < |f.blocks| && s.index <= |f.blocks[s.block]|
    && cpu.mem == s.mem && cpu.pc == CodeOffset(f, PositionOf(f, s.block, s.index))
    && SlotsHeld(LiveAt(f, live, s.block, s.index), s, cpu.regs)
  }

  /**
    Calling the code generated for function fi, with the arguments in their registers, against
    interpreting fi: after any number of iterations the processor is at the code of the
    interpreter's current position with the same memory and every usable value in its register,
    having taken at least as many steps; when the interpreter has returned w the code has returned
    with RAX congruent to w modulo 2^32.
  */
  lemma JitMatchesInterpreter(env: Env, fi: nat, f: Source, bin: Binary, live: seq<Places>,
                              values: seq<Word>, pool: seq<Word>, mem: Memory, cpu: Cpu, limit: nat)
    returns (k: nat)
    requires Compiled(env, fi, f, bin, live) && EntryOk(f, live) && CalledWith(f, values, mem, cpu)
    requires IsLeaf(env.m[fi]) && f.args <= |env.m[fi].values|
    requires RunTestsAgree(env, f, live, Stack(FirstAct(env.m, fi, values, |pool|), [], mem, 0), limit)
    ensures var q := CpuRun(bin.code, cpu, k);
            match EvalFunc(env, fi, values, pool, mem, limit)
            case Running(s) => k >= limit && q.Executing? && Abreast(f, live, fi, s, q.cpu)
            case Returned(w, after) =>
              && q.Halted? && q.mem == after && q.rax % W32 == w % W32
              && var last := FinalState(env, fi, values, pool, mem, limit);
                 last.Some? && ReturnsAt(f, live, last.value.block, last.value.index, q.rax, w)
            case Stop(_) => true
  {
    var alone := AloneIn(env, fi);
    AloneIsWindowed(env.m, fi);
    LeafEvaluation(env, fi, values, pool, mem, limit);
    k := 0;
    var start := Start(alone, fi, values, pool, mem);
    if start.Running? {
      var r := Stack(FirstAct(env.m, fi, values, |pool|), [], mem, 0);
      LeafTests(env, fi, f, live, r, limit);
      EntryRelated(f, live, r.cur, values, mem, cpu);
      k := RunPace(alone, fi, f, bin, live, r, cpu, limit);
      RunRefines(alone, start.s, r, limit);
      LastMatches(alone, start.s, r, limit);
      PaceMeansSame(alone.m, f, bin, live, fi, cpu, k, LastAct(alone, r, limit), StackRun(alone, r, limit),
                    Run(alone, start.s, limit));
    }
  }

  lemma PaceMeansSame(m: Module, f: Source, bin: Binary, live: seq<Places>, fi: nat, cpu: Cpu, k: nat, last: Act,
                      o: Outcome<Stack>, p: Outcome<State>)
    requires |live| == |f.blocks| && HasRegisters(cpu)
    requires KeepsPace(f, bin, live, fi, cpu, k, last, o) && StepMatches(m, p, o)
    ensures p.Stop? <==> o.Stop?
    ensures var q := CpuRun(bin.code, cpu, k);
            match p
            case Running(s) => o.Running? && q.Executing? && Abreast(f, live, fi, s, q.cpu)
            case Returned(w, after) =>
              q.Halted? && q.mem == after && q.rax % W32 == w % W32 && ReturnsAt(f, live, last.block, last.index, q.rax, w)
            case Stop(_) => true
  {
    if o.Returned? {
      RegOfLow(LiveAt(f, live, last.block, last.index)[f.blocks[last.block][last.index].result.id].form, o.w);
    }
  }

  /** The form keeps the whole word: exactly, or where its upper half is the extension. */
  predicate KeepsWord(c: Form, w: Word) {
    match c
    case Exact => true
    case Zext => w < W32
    case Sext => -0x8000_0000 <= Signed(w) < 0x8000_0000
  }

  lemma FormIsExact(c: Form, w: Word)
    ensures RegOf(c, w) == w <==> KeepsWord(c, w)
  {
    if c.Sext? {
      SignedLow(w);
    }
  }

  lemma SignedLow(w: Word)
    ensures Wrap(SignedAt(Bits32, w)) == w <==> -0x8000_0000 <= Signed(w) < 0x8000_0000
  {
    ModShift(w % W32, W64, -1);
  }
}

/**
  In the fragment there is no memory, so every value is a fixed function of the arguments: exactly
  where its register holds the whole slot, modulo 2^32 elsewhere. The tests of a run are therefore
  known before the call.
*/
module Fixed {
  import opened Words
  import opened Ir
  import opened Interp
  import opened Activation
  import opened Emission
  import opened RegisterPass
  import opened Simulation
  import opened JitCorrectness
  import opened Fragment

  /** The value that v has after position p, from the arguments and constants alone. */
  function ValueAfter(f: Source, values: seq<Word>, v: nat, p: nat): Word
    requires p <= Len(f)
    decreases p
  {
    if p == 0 then if v < |values| then values[v] else 0
    else if !Generates(f, p - 1, v) then ValueAfter(f, values, v, p - 1)
    else match InsAt(f, p - 1)
      case Const(_, imm, _) => imm
      case Op(_, l, r, _) => Sum64(ValueAfter(f, values, l.id, p - 1), ValueAfter(f, values, r.id, p - 1))
      case _ => 0
  }

  /** No CONST_I32, whose upper half nobody determines, enters the value. */
  predicate WholeAfter(f: Source, v: nat, p: nat)
    requires p <= Len(f)
    decreases p
  {
    p == 0 ||
      if !Generates(f, p - 1, v) then WholeAfter(f, v, p - 1)
      else match InsAt(f, p - 1)
        case Const(kind, _, _) => !kind.ConstI32?
        case Op(_, l, r, _) => WholeAfter(f, l.id, p - 1) && WholeAfter(f, r.id, p - 1)
        case _ => false
  }

  predicate WholeOf(f: Source, v: nat) {
    WholeAfter(f, v, Len(f))
  }

  function ValueOf(f: Source, values: seq<Word>, v: nat): Word {
    ValueAfter(f, values, v, Len(f))
  }

  lemma {:induction false} KnownStays(f: Source, values: seq<Word>, v: nat, p: nat, q: nat)
    requires SingleAssignment(f) && Known(f, v, p) && p <= q <= Len(f)
    ensures ValueAfter(f, values, v, q) == ValueAfter(f, values, v, p)
    ensures WholeAfter(f, v, q) == WholeAfter(f, v, p)
    decreases q
  {
    if p < q {
      assert !Generates(f, q - 1, v);
      KnownStays(f, values, v, p, q - 1);
    }
  }

  /** Constants and arguments are what they are, a sum is the sum of its operands. */
  lemma ValueEquations(f: Source, entries: seq<set<nat>>, values: seq<Word>, p: nat)
    requires InFragment(f, entries) && p < Len(f) && InsAt(f, p).HasGen()
    ensures var i := InsAt(f, p);
            && (i.Const? ==> ValueOf(f, values, i.gen.id) == i.imm)
            && (i.Const? ==> (WholeOf(f, i.gen.id) <==> !i.kind.ConstI32?))
            && (i.Op? ==> ValueOf(f, values, i.gen.id) ==
                          Sum64(ValueOf(f, values, i.left.id), ValueOf(f, values, i.right.id)))
            && (i.Op? ==> (WholeOf(f, i.gen.id) <==> WholeOf(f, i.left.id) && WholeOf(f, i.right.id)))
  {
    var i := InsAt(f, p);
    assert Generates(f, p, i.gen.id);
    assert Known(f, i.gen.id, p + 1);
    KnownStays(f, values, i.gen.id, p + 1, Len(f));
    if i.Op? {
      assert Reads(i, i.left.id) && Reads(i, i.right.id);
      assert Known(f, i.left.id, p) && Known(f, i.right.id, p);
      KnownStays(f, values, i.left.id, p, Len(f));
      KnownStays(f, values, i.right.id, p, Len(f));
    }
  }

  /** Without CONST_I32 every value is whole. */
  lemma {:induction false} AllWhole(f: Source, entries: seq<set<nat>>, v: nat, p: nat)
    requires InFragment(f, entries) && p <= Len(f)
    requires forall q :: 0 <= q < Len(f) && InsAt(f, q).Const? ==> !InsAt(f, q).kind.ConstI32?
    ensures WholeAfter(f, v, p)
    decreases p
  {
    hide FragmentText;
    if p > 0 {
      AllWhole(f, entries, v, p - 1);
      FragmentSimple(f, entries, p - 1);
      if InsAt(f, p - 1).Op? {
        AllWhole(f, entries, InsAt(f, p - 1).left.id, p - 1);
        AllWhole(f, entries, InsAt(f, p - 1).right.id, p - 1);
      }
    }
  }

  lemma FragmentSimple(f: Source, entries: seq<set<nat>>, p: nat)
    requires InFragment(f, entries) && p < Len(f)
    ensures Simple(InsAt(f, p))
  {
  }

  lemma ArgumentValue(f: Source, values: seq<Word>, v: nat)
    requires SingleAssignment(f) && v < f.args && v < |values|
    ensures ValueOf(f, values, v) == values[v] && FormOf(f, v) == Exact
  {
    assert Known(f, v, 0);
    KnownStays(f, values, v, 0, Len(f));
  }

  // ----- the interpreter's registers hold these values -----

  /** A slot of v: the value itself where no CONST_I32 enters it, in any case its low half. */
  ghost predicate HoldsValue(f: Source, values: seq<Word>, v: nat, w: Word) {
    && w % W32 == ValueOf(f, values, v) % W32
    && (WholeOf(f, v) || FormOf(f, v).Exact? ==> w == ValueOf(f, values, v))
  }

  ghost predicate RegsFixed(f: Source, values: seq<Word>, regs: map<nat, Word>) {
    forall v :: v in regs ==> HoldsValue(f, values, v, regs[v])
  }

  lemma ConstHolds(f: Source, entries: seq<set<nat>>, values: seq<Word>, p: nat, junk: Word)
    requires InFragment(f, entries) && p < Len(f) && InsAt(f, p).Const?
    ensures var i := InsAt(f, p); HoldsValue(f, values, i.gen.id, Narrow(i.kind.Determines(), i.imm, junk))
  {
    var i := InsAt(f, p);
    assert Simple(i);
    assert Generates(f, p, i.gen.id);
    ValueEquations(f, entries, values, p);
    FormOfGenerated(f, p, i.gen.id);
  }

  lemma SumHolds(f: Source, entries: seq<set<nat>>, values: seq<Word>, p: nat, a: Word, b: Word)
    requires InFragment(f, entries) && p < Len(f) && InsAt(f, p).Op?
    requires HoldsValue(f, values, InsAt(f, p).left.id, a) && HoldsValue(f, values, InsAt(f, p).right.id, b)
    ensures HoldsValue(f, values, InsAt(f, p).gen.id, Sum64(a, b))
  {
    var i := InsAt(f, p);
    assert Generates(f, p, i.gen.id);
    ValueEquations(f, entries, values, p);
    FormOfGenerated(f, p, i.gen.id);
    var x: int, y: int := ValueOf(f, values, i.left.id), ValueOf(f, values, i.right.id);
    SumLow(a, b);
    SumLow(x, y);
  }

  lemma SumLow(a: Word, b: Word)
    ensures Sum64(a, b) % W32 == (a % W32 + b % W32) % W32
  {
    WrapAgrees(Bits32, a + b);
    ModAdd(W32, a, b);
  }

  /** A data instruction of the fragment keeps every register at its value. */
  lemma DataHolds(f: Source, entries: seq<set<nat>>, values: seq<Word>, p: nat, act: Act, mem: Memory, junk: Word)
    requires InFragment(f, entries) && p < Len(f) && InsAt(f, p).IsData() && RegsFixed(f, values, act.regs)
    ensures var d := DecideData(InsAt(f, p), act, mem, junk);
            d.Goes? ==> RegsFixed(f, values, d.act.regs) && d.act.func == act.func
  {
    hide HoldsValue;
    var i := InsAt(f, p);
    assert Simple(i);
    if i.Const? {
      assert ReadRegs(act, DataUses(i)) == Got([]) by {
        assert DataUses(i) == [];
      }
      ConstHolds(f, entries, values, p, junk);
    } else if DecideData(i, act, mem, junk).Goes? {
      assert DataUses(i)[0] == i.left.id && DataUses(i)[1] == i.right.id;
      SumHolds(f, entries, values, p, act.regs[i.left.id], act.regs[i.right.id]);
    }
  }

  lemma StepHolds(env: Env, fi: nat, f: Source, entries: seq<set<nat>>, values: seq<Word>, r: Stack)
    requires fi < |env.m| && IsSource(f, env.m[fi]) && InFragment(f, entries)
    requires r.callers == [] && r.cur.func == fi && RegsFixed(f, values, r.cur.regs)
    ensures var o := StackStep(env, r);
            o.Running? ==> o.s.callers == [] && o.s.cur.func == fi && RegsFixed(f, values, o.s.cur.regs)
  {
    hide RegsFixed, DecideData;
    if At(env.m, fi, r.cur.block, r.cur.index) {
      var i := InstrAt(env.m, fi, r.cur.block, r.cur.index);
      BlockOfPosition(f, r.cur.block, r.cur.index);
      var p := PositionOf(f, r.cur.block, r.cur.index);
      assert Simple(InsAt(f, p));
      if i.IsData() {
        DataHolds(f, entries, values, p, r.cur, r.mem, env.junk(r.clock));
        DataMoves(i, r.cur, r.mem, env.junk(r.clock));
      }
    }
  }

  lemma DataMoves(i: Instr, act: Act, mem: Memory, junk: Word)
    requires i.IsData()
    ensures var d := DecideData(i, act, mem, junk); d.Goes? || d.Traps?
  {
  }

  // ----- tests -----

  /** At the branch of that position both tests agree on the value tested, or both targets are one. */
  ghost predicate ValueTestAgrees(f: Source, values: seq<Word>, b: nat, j: nat)
    requires b < |f.blocks| && j < |f.blocks[b]|
  {
    var i := f.blocks[b][j];
    i.CondBr? && i.onTrue != i.onFalse ==> SameTest(FormOf(f, i.cond.id), ValueOf(f, values, i.cond.id))
  }

  /** Every conditional branch of the function tests a value on which the engines agree. */
  ghost predicate ValueTestsAgree(f: Source, values: seq<Word>) {
    forall b: nat, j: nat :: b < |f.blocks| && j < |f.blocks[b]| ==> ValueTestAgrees(f, values, b, j)
  }

  /** The tests see the value only. */
  lemma TestsSeeValue(f: Source, values: seq<Word>, v: nat, w: Word)
    requires HoldsValue(f, values, v, w)
    ensures SameTest(FormOf(f, v), w) <==> SameTest(FormOf(f, v), ValueOf(f, values, v))
  {
    var x := ValueOf(f, values, v);
    ModOfMod(w, 0x100, 0x100_0000);
    ModOfMod(x, 0x100, 0x100_0000);
  }

  /** At a branch whose condition is set, the tests agree exactly when they agree on its fixed value. */
  lemma TestsAgreeIffValue(env: Env, fi: nat, f: Source, entries: seq<set<nat>>, values: seq<Word>, act: Act)
    requires fi < |env.m| && IsSource(f, env.m[fi]) && InFragment(f, entries)
    requires act.func == fi && RegsFixed(f, values, act.regs)
    requires act.block < |f.blocks| && act.index < |f.blocks[act.block]|
    requires var i := f.blocks[act.block][act.index]; i.CondBr? ==> i.cond.id in act.regs
    ensures TestsAgree(env, f, LiveOf(f, entries), act) <==> ValueTestAgrees(f, values, act.block, act.index)
  {
    var i := f.blocks[act.block][act.index];
    if i.CondBr? {
      ReadIsUsable(f, entries, act.block, act.index, i.cond.id);
      TestsSeeValue(f, values, i.cond.id, act.regs[i.cond.id]);
    }
  }

  lemma EntryFixed(f: Source, values: seq<Word>, regs: map<nat, Word>)
    requires SingleAssignment(f) && f.args <= |values| && regs == map k: nat | k < f.args :: values[k]
    ensures RegsFixed(f, values, regs)
  {
    forall v | v in regs
      ensures HoldsValue(f, values, v, regs[v])
    {
      ArgumentValue(f, values, v);
    }
  }

  // ----- the way a run goes, from constants and arguments -----

  datatype Position = Position(block: nat, index: nat)

  /** Where control goes from a position, if it goes on. */
  function NextPosition(f: Source, values: seq<Word>, b: nat, j: nat): Option<Position>
    requires b < |f.blocks| && j < |f.blocks[b]|
  {
    match f.blocks[b][j]
    case Ret(_) => None
    case Br(t) => Some(Position(t, 0))
    case CondBr(c, t, e) => Some(Position(if ValueOf(f, values, c.id) % 0x100 == 1 then t else e, 0))
    case _ => Some(Position(b, j + 1))
  }

  /** Both tests agree at every conditional branch met in n iterations from a position. */
  ghost predicate WalkAgrees(f: Source, values: seq<Word>, b: nat, j: nat, n: nat)
    decreases n
  {
    n > 0 && b < |f.blocks| && j < |f.blocks[b]| ==>
      && ValueTestAgrees(f, values, b, j)
      && match NextPosition(f, values, b, j)
         case None => true
         case Some(p) => WalkAgrees(f, values, p.block, p.index, n - 1)
  }

  /** Functions whose branches all test agreeing values meet the condition on every way. */
  lemma {:induction false} AllWalksAgree(f: Source, values: seq<Word>, b: nat, j: nat, n: nat)
    requires ValueTestsAgree(f, values)
    ensures WalkAgrees(f, values, b, j, n)
    decreases n
  {
    if n > 0 && b < |f.blocks| && j < |f.blocks[b]| {
      assert ValueTestAgrees(f, values, b, j);
      match NextPosition(f, values, b, j)
      case None =>
      case Some(p) => AllWalksAgree(f, values, p.block, p.index, n - 1);
    }
  }

  lemma ValueByte(f: Source, values: seq<Word>, v: nat, w: Word)
    requires HoldsValue(f, values, v, w)
    ensures w % 0x100 == ValueOf(f, values, v) % 0x100
  {
    ModOfMod(w, 0x100, 0x100_0000);
    ModOfMod(ValueOf(f, values, v), 0x100, 0x100_0000);
  }

  /** An iteration without fault is at an instruction, has a branch condition set, and goes to the next position. */
  lemma StepWalks(env: Env, fi: nat, f: Source, entries: seq<set<nat>>, values: seq<Word>, r: Stack)
    requires fi < |env.m| && IsSource(f, env.m[fi]) && InFragment(f, entries)
    requires r.callers == [] && r.cur.func == fi && RegsFixed(f, values, r.cur.regs) && !StackStep(env, r).Stop?
    ensures r.cur.block < |f.blocks| && r.cur.index < |f.blocks[r.cur.block]|
    ensures var i := f.blocks[r.cur.block][r.cur.index]; i.CondBr? ==> i.cond.id in r.cur.regs
    ensures match NextPosition(f, values, r.cur.block, r.cur.index)
            case None => StackStep(env, r).Returned?
            case Some(p) =>
              && StackStep(env, r).Running?
              && var next := StackStep(env, r).s.cur; next.block == p.block && next.index == p.index
  {
    BlockOfPosition(f, r.cur.block, r.cur.index);
    var i := InsAt(f, PositionOf(f, r.cur.block, r.cur.index));
    assert Simple(i);
    if i.CondBr? {
      assert [i.cond.id][0] == i.cond.id;
      ValueByte(f, values, i.cond.id, r.cur.regs[i.cond.id]);
    } else if i.IsData() {
      DataGoes(i, r.cur, r.mem, env.junk(r.clock));
    }
  }

  lemma DataGoes(i: Instr, act: Act, mem: Memory, junk: Word)
    requires i.IsData()
    ensures var d := DecideData(i, act, mem, junk);
            d.Traps? || (d.Goes? && d.act.block == act.block && d.act.index == act.index + 1)
  {
  }

  /** The tests of a run without fault agree exactly when they agree on the way that the values determine. */
  lemma {:induction false} RunAgreesIffWalk(env: Env, fi: nat, f: Source, entries: seq<set<nat>>, values: seq<Word>,
                                            r: Stack, limit: nat)
    requires fi < |env.m| && IsSource(f, env.m[fi]) && InFragment(f, entries) && r.clock <= limit
    requires r.callers == [] && r.cur.func == fi && RegsFixed(f, values, r.cur.regs) && !StackRun(env, r, limit).Stop?
    ensures |LiveOf(f, entries)| == |f.blocks|
    ensures RunTestsAgree(env, f, LiveOf(f, entries), r, limit) <==>
            WalkAgrees(f, values, r.cur.block, r.cur.index, limit - r.clock)
    decreases limit - r.clock
  {
    hide InFragment, RegsFixed, StackStep, LiveOf, TestsAgree, ValueTestAgrees, NextPosition;
    FragmentHasLive(f, entries);
    if r.clock < limit {
      StepWalks(env, fi, f, entries, values, r);
      StepHolds(env, fi, f, entries, values, r);
      TestsAgreeIffValue(env, fi, f, entries, values, r.cur);
      if StackStep(env, r).Running? {
        RunAgreesIffWalk(env, fi, f, entries, values, StackStep(env, r).s, limit);
      }
    }
  }
}

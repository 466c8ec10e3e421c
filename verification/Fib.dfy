/** The sample program: recursive Fibonacci, built with the builder and run by the interpreter. */
module Fibonacci {
  import opened Words
  import opened Ir
  import opened Interp
  import opened Activation
  import opened Definite
  import opened Refinement
  import opened Interpretation
  import opened Builder

  function Fib(n: nat): nat {
    if n <= 1 then n else Fib(n - 1) + Fib(n - 2)
  }

  function TestBlock(): seq<Instr> {
    [Const(ConstI64, 1, I64Value(1)), Op(SmallerEq, I64Value(0), I64Value(1), I64Value(2)), CondBr(I64Value(2), 1, 2)]
  }

  function CallsBlock(): seq<Instr> {
    [Op(Sub, I64Value(0), I64Value(1), I64Value(3)), CallFunc(0, [I64Value(3)], I64Value(4)), Const(ConstI64, 2, I64Value(5)),
     Op(Sub, I64Value(0), I64Value(5), I64Value(6)), CallFunc(0, [I64Value(6)], I64Value(7)),
     Op(Add, I64Value(4), I64Value(7), I64Value(8)), Ret(I64Value(8))]
  }

  function FibModule(): Module {
    [Func([I64], I64, [TestBlock(), [Ret(I64Value(0))], CallsBlock()],
          [I64Value(0), I64Value(1), I64Value(2), I64Value(3), I64Value(4), I64Value(5), I64Value(6), I64Value(7), I64Value(8)])]
  }

  /** The environment runs the sample program. */
  ghost predicate RunsFib(env: Env) {
    env.m == FibModule()
  }

  /** What stays the same during one evaluation. */
  datatype Setting = Setting(env: Env, mem: Memory, limit: nat)

  function EvalIn(c: Setting, depth: nat, a: Act, clock: nat): Result {
    Eval(c.env, depth, a, c.mem, clock, c.limit)
  }

  function Decision(c: Setting, depth: nat, a: Act, clock: nat): Move {
    Decide(c.env, depth, a, c.mem, c.env.junk(clock))
  }

  /** One iteration of an evaluation. */
  lemma EvalStep(c: Setting, depth: nat, a: Act, clock: nat)
    requires clock < c.limit
    ensures match Decision(c, depth, a, clock)
            case Traps(f) => EvalIn(c, depth, a, clock) == Fails(f)
            case Returns(w) => EvalIn(c, depth, a, clock) == Gives(w, c.mem, clock + 1)
            case Goes(b, mem) => mem == c.mem ==> EvalIn(c, depth, a, clock) == EvalIn(c, depth, b, clock + 1)
            case Calls(callee, gen) =>
              (match EvalIn(c, depth + 1, callee, clock + 1)
               case Gives(w, mem, later) =>
                 mem == c.mem && gen < a.room ==> EvalIn(c, depth, a, clock) == EvalIn(c, depth, Deliver(a, gen, w), later)
               case Fails(f) => EvalIn(c, depth, a, clock) == Fails(f)
               case Cut => true)
            case ReturnsVoid => true
  {
    var r := Eval(c.env, depth, a, c.mem, clock, c.limit);
    match Decision(c, depth, a, clock)
    case Goes(b, mem) => var q := Eval(c.env, depth, b, c.mem, clock + 1, c.limit);
    case Calls(callee, gen) =>
      var q := Eval(c.env, depth + 1, callee, c.mem, clock + 1, c.limit);
      if q.Gives? {
        var rest := Eval(c.env, depth, Deliver(a, gen, q.w), c.mem, q.clock, c.limit);
      }
    case _ =>
  }

  lemma FibCode(env: Env, b: nat, j: nat)
    requires RunsFib(env) && b < 3 && j < |FibModule()[0].blocks[b]|
    ensures At(env.m, 0, b, j) && InstrAt(env.m, 0, b, j) == FibModule()[0].blocks[b][j]
  {
  }

  /** The builder calls of the sample, in their order. */
  method BuildFib(m: CowModule) returns (f: CowBuilder)
    requires m.funcs == []
    modifies m
    ensures m.Contents() == FibModule()
  {
    var self;
    f, self := m.CreateFunc([I64], I64);
    assert f.values == [I64Value(0)];
    BuildTest(f);
    BuildCalls(f, self);
    assert f.values == FibModule()[0].values;
    assert f.blocks == FibModule()[0].blocks;
  }

  method BuildTest(f: CowBuilder)
    requires f.Valid() && f.blocks == [[]] && f.values == [I64Value(0)]
    modifies f
    ensures f.Valid() && f.values == [I64Value(0), I64Value(1), I64Value(2)]
    ensures f.blocks == [TestBlock(), [Ret(I64Value(0))], []]
  {
    assert f.currentBlock == 0;
    var isTrue := f.CreateBlock();
    var isFalse := f.CreateBlock();
    assert f.blocks == [[], [], []];
    var n := f.GetArg(0);
    var one := f.ConstInstr(ConstI64, I64, 1);
    assert f.blocks[0] == TestBlock()[..1];
    var test := f.OpInstr(SmallerEq, n, one);
    assert f.blocks[0] == TestBlock()[..2];
    f.CondBranch(test, isTrue, isFalse);
    assert f.blocks[0] == TestBlock();
    f.SetCurrent(isTrue);
    f.Return(n);
    assert f.blocks[1] == [Ret(I64Value(0))];
  }

  method BuildCalls(f: CowBuilder, self: nat)
    requires f.Valid() && f.ret == I64 && |f.blocks| == 3 && f.blocks[2] == [] && self == 0
    requires f.values == [I64Value(0), I64Value(1), I64Value(2)]
    modifies f
    ensures f.Valid() && f.values == FibModule()[0].values
    ensures f.blocks == old(f.blocks)[2 := CallsBlock()]
  {
    hide WellBuilt, Apply, CowBuilder.Built;
    var n := f.GetArg(0);
    var one := f.GetArg(1);
    f.SetCurrent(2);
    var argOne := f.OpInstr(Sub, n, one);
    assert f.blocks[2] == CallsBlock()[..1];
    var resultOne := f.CallFuncInstr(self, f.ret, [argOne]);
    assert f.blocks[2] == CallsBlock()[..2];
    var two := f.ConstInstr(ConstI64, I64, 2);
    assert f.blocks[2] == CallsBlock()[..3];
    var argTwo := f.OpInstr(Sub, n, two);
    assert f.blocks[2] == CallsBlock()[..4];
    var resultTwo := f.CallFuncInstr(self, f.ret, [argTwo]);
    assert f.blocks[2] == CallsBlock()[..5];
    var sum := f.OpInstr(Add, resultOne, resultTwo);
    assert f.blocks[2] == CallsBlock()[..6];
    f.Return(sum);
    assert f.blocks[2] == CallsBlock();
  }

  /** Iterations of the interpreter's loop for argument n. */
  function Ticks(n: nat): nat {
    if n <= 1 then 4 else Ticks(n - 1) + Ticks(n - 2) + 10
  }

  /** The innermost activation uses three slots, each of the n-1 around it nine, each call a frame. */
  predicate Fits(n: nat, room: int, framesLeft: int) {
    if n <= 1 then room >= 3 else room >= 9 * n - 6 && framesLeft >= n - 1
  }

  function FibAct(w: Word, room: int): Act {
    Act(0, 0, 0, map[0 := w], room)
  }

  function Regs3(n: Word, t: Word): map<nat, Word> {
    map[0 := n, 1 := 1, 2 := t]
  }

  /** The block chosen by n <= 1. */
  function Chosen(w: Word): nat {
    if Signed(w) <= 1 then 1 else 2
  }

  lemma ConstDecides(env: Env, depth: nat, a: Act, mem: Memory, junk: Word)
    requires At(env.m, a.func, a.block, a.index) && InstrAt(env.m, a.func, a.block, a.index).Const?
    requires InstrAt(env.m, a.func, a.block, a.index).kind == ConstI64
    ensures var i := InstrAt(env.m, a.func, a.block, a.index);
            Decide(env, depth, a, mem, junk) ==
            if i.gen.id < a.room then Goes(a.(index := a.index + 1, regs := a.regs[i.gen.id := i.imm]), mem)
            else Traps(PoolOverflow)
  {
    var i := InstrAt(env.m, a.func, a.block, a.index);
    assert ReadRegs(a, DataUses(i)) == Got([]);
  }

  lemma OpDecides(env: Env, depth: nat, a: Act, x: Word, y: Word, w: Word, mem: Memory, junk: Word)
    requires At(env.m, a.func, a.block, a.index) && InstrAt(env.m, a.func, a.block, a.index).Op?
    requires var i := InstrAt(env.m, a.func, a.block, a.index);
             && i.left.id < a.room && i.left.id in a.regs && a.regs[i.left.id] == x
             && i.right.id < a.room && i.right.id in a.regs && a.regs[i.right.id] == y
             && BinResult(i.op, x, y, junk) == Wrote(w)
    ensures var g := InstrAt(env.m, a.func, a.block, a.index).gen.id;
            Decide(env, depth, a, mem, junk) ==
            if g < a.room then Goes(a.(index := a.index + 1, regs := a.regs[g := w]), mem) else Traps(PoolOverflow)
  {
    var i := InstrAt(env.m, a.func, a.block, a.index);
    assert DataUses(i) == [i.left.id, i.right.id];
    assert ReadRegs(a, DataUses(i)) == Got([x, y]);
  }

  /** A one-argument call of fib. */
  lemma CallDecides(env: Env, depth: nat, a: Act, arg: Value, x: Word, mem: Memory, junk: Word)
    requires RunsFib(env) && At(env.m, a.func, a.block, a.index)
    requires var i := InstrAt(env.m, a.func, a.block, a.index);
             i.CallFunc? && i.func == 0 && i.args == [arg]
    requires arg.id < a.room && arg.id in a.regs && a.regs[arg.id] == x
    ensures var i := InstrAt(env.m, a.func, a.block, a.index);
            Decide(env, depth, a, mem, junk) ==
            if depth >= env.frameCap then Traps(FrameOverflow)
            else if a.room < 10 then Traps(PoolOverflow)
            else Calls(FibAct(x, a.room - 9), i.gen.id)
  {
    var i := InstrAt(env.m, a.func, a.block, a.index);
    assert Ids(i.args[..1]) == [arg.id];
    assert ReadRegs(a, [arg.id]) == Got([x]);
    assert Enter(i, a.room - 9, Got([x])) == Calls(FibAct(x, a.room - 9), i.gen.id);
  }

  // ----- up to the branch -----

  lemma FibConst(c: Setting, depth: nat, w: Word, room: int, clock: nat)
    requires RunsFib(c.env) && clock < c.limit && room >= 1
    ensures EvalIn(c, depth, FibAct(w, room), clock) ==
            if room < 2 then Fails(PoolOverflow)
            else EvalIn(c, depth, Act(0, 0, 1, map[0 := w, 1 := 1], room), clock + 1)
  {
    FibCode(c.env, 0, 0);
    ConstDecides(c.env, depth, FibAct(w, room), c.mem, c.env.junk(clock));
    EvalStep(c, depth, FibAct(w, room), clock);
  }

  lemma FibCompare(c: Setting, depth: nat, w: Word, room: int, clock: nat) returns (t: Word)
    requires RunsFib(c.env) && clock < c.limit && room >= 2
    ensures t % 0x100 == if Signed(w) <= 1 then 1 else 0
    ensures EvalIn(c, depth, Act(0, 0, 1, map[0 := w, 1 := 1], room), clock) ==
            if room < 3 then Fails(PoolOverflow) else EvalIn(c, depth, Act(0, 0, 2, Regs3(w, t), room), clock + 1)
  {
    var a := Act(0, 0, 1, map[0 := w, 1 := 1], room);
    FibCode(c.env, 0, 1);
    t := Narrow(Bits8, if Signed(w) <= 1 then 1 else 0, c.env.junk(clock));
    assert Signed(1) == 1;
    OpDecides(c.env, depth, a, w, 1, t, c.mem, c.env.junk(clock));
    EvalStep(c, depth, a, clock);
  }

  lemma FibBranch(c: Setting, depth: nat, w: Word, t: Word, room: int, clock: nat)
    requires RunsFib(c.env) && clock < c.limit && room >= 3
    requires t % 0x100 == if Signed(w) <= 1 then 1 else 0
    ensures EvalIn(c, depth, Act(0, 0, 2, Regs3(w, t), room), clock) ==
            EvalIn(c, depth, Act(0, Chosen(w), 0, Regs3(w, t), room), clock + 1)
  {
    var a := Act(0, 0, 2, Regs3(w, t), room);
    FibCode(c.env, 0, 2);
    assert ReadRegs(a, [2]) == Got([t]);
    EvalStep(c, depth, a, clock);
  }

  /** Up to the branch: three iterations, or the pool is too small. */
  lemma FibTest(c: Setting, depth: nat, w: Word, room: int, clock: nat) returns (t: Word)
    requires RunsFib(c.env) && clock + 4 <= c.limit && room >= 1
    ensures EvalIn(c, depth, FibAct(w, room), clock) ==
            if room < 3 then Fails(PoolOverflow) else EvalIn(c, depth, Act(0, Chosen(w), 0, Regs3(w, t), room), clock + 3)
  {
    FibConst(c, depth, w, room, clock);
    t := 0;
    if room >= 2 {
      t := FibCompare(c, depth, w, room, clock + 1);
      if room >= 3 {
        FibBranch(c, depth, w, t, room, clock + 2);
      }
    }
  }

  /** The base case returns its argument; negative arguments too. */
  lemma FibBase(c: Setting, depth: nat, w: Word, room: int, clock: nat)
    requires RunsFib(c.env) && clock + 4 <= c.limit && room >= 1 && Chosen(w) == 1
    ensures EvalIn(c, depth, FibAct(w, room), clock) ==
            if room >= 3 then Gives(w, c.mem, clock + 4) else Fails(PoolOverflow)
  {
    var t := FibTest(c, depth, w, room, clock);
    if room >= 3 {
      var a := Act(0, 1, 0, Regs3(w, t), room);
      FibCode(c.env, 1, 0);
      assert ReadRegs(a, [0]) == Got([w]);
      EvalStep(c, depth, a, clock + 3);
    }
  }

  // ----- the recursive case -----

  function Regs5(n: Word, t: Word, one: Word): map<nat, Word> {
    Regs3(n, t)[3 := Wrap(n - 1)][4 := one]
  }

  function Regs8(n: Word, t: Word, one: Word, two: Word): map<nat, Word> {
    Regs5(n, t, one)[5 := 2][6 := Wrap(n - 2)][7 := two]
  }

  predicate Overflows(r: Result) {
    r == Fails(PoolOverflow) || r == Fails(FrameOverflow)
  }

  /** n - 1 and the first call, which needs a frame and the callee's argument slot. */
  lemma FibFirstCall(c: Setting, depth: nat, n: Word, t: Word, room: int, clock: nat)
    requires RunsFib(c.env) && clock + 2 <= c.limit && room >= 3 && 2 <= n
    ensures var r := EvalIn(c, depth, Act(0, 2, 0, Regs3(n, t), room), clock);
            if depth >= c.env.frameCap || room < 10 then Overflows(r)
            else match EvalIn(c, depth + 1, FibAct(n - 1, room - 9), clock + 2)
              case Gives(one, mem, later) =>
                mem == c.mem ==> r == EvalIn(c, depth, Act(0, 2, 2, Regs5(n, t, one), room), later)
              case Fails(f) => r == Fails(f)
              case Cut => true
  {
    hide Eval, Decide;
    FibCode(c.env, 2, 0);
    FibCode(c.env, 2, 1);
    var a0 := Act(0, 2, 0, Regs3(n, t), room);
    var a1 := Act(0, 2, 1, Regs3(n, t)[3 := Wrap(n - 1)], room);
    OpDecides(c.env, depth, a0, n, 1, Wrap(n - 1), c.mem, c.env.junk(clock));
    EvalStep(c, depth, a0, clock);
    if room >= 4 {
      CallDecides(c.env, depth, a1, I64Value(3), Wrap(n - 1), c.mem, c.env.junk(clock + 1));
      EvalStep(c, depth, a1, clock + 1);
    }
  }

  /** The constant 2, n - 2 and the second call. */
  lemma FibSecondCall(c: Setting, depth: nat, n: Word, t: Word, one: Word, two: Word, room: int, clock: nat, later: nat)
    requires RunsFib(c.env) && clock + 3 <= c.limit && room >= 10 && 2 <= n && depth < c.env.frameCap
    requires EvalIn(c, depth + 1, FibAct(n - 2, room - 9), clock + 3) == Gives(two, c.mem, later)
    ensures EvalIn(c, depth, Act(0, 2, 2, Regs5(n, t, one), room), clock) ==
            EvalIn(c, depth, Act(0, 2, 5, Regs8(n, t, one, two), room), later)
  {
    hide Eval, Decide;
    FibCode(c.env, 2, 2);
    FibCode(c.env, 2, 3);
    FibCode(c.env, 2, 4);
    var a0 := Act(0, 2, 2, Regs5(n, t, one), room);
    var a1 := Act(0, 2, 3, Regs5(n, t, one)[5 := 2], room);
    var a2 := Act(0, 2, 4, Regs5(n, t, one)[5 := 2][6 := Wrap(n - 2)], room);
    ConstDecides(c.env, depth, a0, c.mem, c.env.junk(clock));
    EvalStep(c, depth, a0, clock);
    OpDecides(c.env, depth, a1, n, 2, Wrap(n - 2), c.mem, c.env.junk(clock + 1));
    EvalStep(c, depth, a1, clock + 1);
    CallDecides(c.env, depth, a2, I64Value(6), Wrap(n - 2), c.mem, c.env.junk(clock + 2));
    EvalStep(c, depth, a2, clock + 2);
  }

  lemma FibSum(c: Setting, depth: nat, n: Word, t: Word, one: Word, two: Word, room: int, clock: nat)
    requires RunsFib(c.env) && clock + 2 <= c.limit && room >= 10
    ensures EvalIn(c, depth, Act(0, 2, 5, Regs8(n, t, one, two), room), clock) ==
            Gives(Wrap(one + two), c.mem, clock + 2)
  {
    FibCode(c.env, 2, 5);
    FibCode(c.env, 2, 6);
    var a0 := Act(0, 2, 5, Regs8(n, t, one, two), room);
    var a1 := Act(0, 2, 6, Regs8(n, t, one, two)[8 := Wrap(one + two)], room);
    OpDecides(c.env, depth, a0, one, two, Wrap(one + two), c.mem, c.env.junk(clock));
    EvalStep(c, depth, a0, clock);
    assert ReadRegs(a1, [8]) == Got([Wrap(one + two)]);
    EvalStep(c, depth, a1, clock + 1);
  }

  /** No frame or no slot for the first call, or the first call overflowed. */
  lemma FibOverflows(c: Setting, depth: nat, n: Word, room: int, clock: nat)
    requires RunsFib(c.env) && 2 <= n && Chosen(n) == 2 && clock + 5 <= c.limit && room >= 1
    requires depth < c.env.frameCap && room >= 10 ==> Overflows(EvalIn(c, depth + 1, FibAct(n - 1, room - 9), clock + 5))
    ensures Overflows(EvalIn(c, depth, FibAct(n, room), clock))
  {
    var t := FibTest(c, depth, n, room, clock);
    if room >= 3 {
      FibFirstCall(c, depth, n, t, room, clock + 3);
    }
  }

  /** Two calls that give `one` and `two` make their caller give the sum. */
  lemma FibGives(c: Setting, depth: nat, n: Word, room: int, clock: nat,
                 one: Word, two: Word, middle: nat, later: nat)
    requires RunsFib(c.env) && 2 <= n && Chosen(n) == 2 && room >= 10 && depth < c.env.frameCap
    requires clock + 5 <= middle && middle + 3 <= later && later + 2 <= c.limit
    requires EvalIn(c, depth + 1, FibAct(n - 1, room - 9), clock + 5) == Gives(one, c.mem, middle)
    requires EvalIn(c, depth + 1, FibAct(n - 2, room - 9), middle + 3) == Gives(two, c.mem, later)
    ensures EvalIn(c, depth, FibAct(n, room), clock) == Gives(Wrap(one + two), c.mem, later + 2)
  {
    hide EvalIn, FibModule;
    var t := FibTest(c, depth, n, room, clock);
    FibFirstCall(c, depth, n, t, room, clock + 3);
    FibSecondCall(c, depth, n, t, one, two, room, middle, later);
    FibSum(c, depth, n, t, one, two, room, later);
  }

  lemma FibWraps(n: nat)
    requires n >= 2
    ensures Wrap(Wrap(Fib(n - 1)) + Wrap(Fib(n - 2))) == Wrap(Fib(n))
  {
    ModAdd(W64, Fib(n - 1), Fib(n - 2));
  }

  lemma ChosenBlock(n: nat)
    requires n < 0x8000_0000_0000_0000
    ensures Chosen(n) == if n <= 1 then 1 else 2
  {
  }

  /** The recursive evaluator on argument n: Fibonacci exactly when pool and frames suffice. */
  lemma {:induction false} FibEval(c: Setting, depth: nat, n: nat, room: int, clock: nat)
    requires RunsFib(c.env)
    requires n < 0x8000_0000_0000_0000 && clock + Ticks(n) <= c.limit && room >= 1
    ensures var r := EvalIn(c, depth, FibAct(n, room), clock);
            if Fits(n, room, c.env.frameCap - depth) then r == Gives(Wrap(Fib(n)), c.mem, clock + Ticks(n))
            else Overflows(r)
    decreases n
  {
    hide EvalIn, FibModule, Decide;
    ChosenBlock(n);
    if n <= 1 {
      FibBase(c, depth, n, room, clock);
    } else {
      if depth < c.env.frameCap && room >= 10 {
        FibEval(c, depth + 1, n - 1, room - 9, clock + 5);
      }
      if Fits(n, room, c.env.frameCap - depth) {
        var middle := clock + 5 + Ticks(n - 1);
        FibEval(c, depth + 1, n - 2, room - 9, middle + 3);
        FibGives(c, depth, n, room, clock, Wrap(Fib(n - 1)), Wrap(Fib(n - 2)), middle, middle + 3 + Ticks(n - 2));
        FibWraps(n);
      } else {
        FibOverflows(c, depth, n, room, clock);
      }
    }
  }

  // ----- on the machine -----

  function FibCert(): Cert {
    [[{0}, {0}, {0, 1}]]
  }

  lemma FibModuleIsSound()
    ensures Windowed(FibModule()) && ArgsFit(FibModule()) && Certified(FibModule(), FibCert())
  {
    var m := FibModule();
    forall f: nat, b: nat, j: nat | At(m, f, b, j)
      ensures WindowInstr(m, m[f], InstrAt(m, f, b, j))
    {
    }
    FibCertified();
  }

  lemma FibCertified()
    ensures Certified(FibModule(), FibCert())
  {
    var m, cert := FibModule(), FibCert();
    forall f: nat, b: nat, j: nat | At(m, f, b, j)
      ensures DefiniteInstr(m, cert[f], InstrAt(m, f, b, j), DefinedAt(m, cert, f, b, j))
    {
      FibDefined(b, j);
    }
  }

  lemma FibDefined(b: nat, j: nat)
    requires At(FibModule(), 0, b, j)
    ensures var d := DefinedAt(FibModule(), FibCert(), 0, b, j);
            && 0 in d
            && (b == 0 ==> forall id: nat :: id <= j && id < 3 ==> id in d)
            && (b == 2 ==> 1 in d && forall id: nat :: 3 <= id < 3 + j ==> id in d)
  {
    if j > 0 {
      FibDefined(b, j - 1);
    }
  }

  /**
    The sample program on a pool of any size and any number of frames: for n >= 2 it returns
    Fib(n) mod 2^64 exactly when the pool has 9n-6 slots and there are n-1 frames, and stops on an
    overflow otherwise; an argument of at most 1 comes back unchanged.
  */
  lemma {:induction false} FibInterpreted(env: Env, w: Word, pool: seq<Word>, mem: Memory, limit: nat)
    requires env.m == FibModule()
    requires limit >= Ticks(if Signed(w) <= 1 then 0 else w)
    ensures var o := EvalFunc(env, 0, [w], pool, mem, limit);
            if Signed(w) <= 1 then o == (if |pool| >= 3 then Returned(w, mem) else Stop(PoolOverflow))
            else if 9 * w - 6 <= |pool| && w - 1 <= env.frameCap then o == Returned(Wrap(Fib(w)), mem)
            else o == Stop(PoolOverflow) || o == Stop(FrameOverflow)
  {
    FibModuleIsSound();
    InterpreterIsRecursive(env, FibCert(), 0, [w], pool, mem, limit);
    if |pool| >= 1 {
      assert FirstAct(env.m, 0, [w], |pool|) == FibAct(w, |pool|);
      FibEvaluated(env, w, |pool|, mem, limit);
    }
  }

  lemma FibEvaluated(env: Env, w: Word, room: nat, mem: Memory, limit: nat)
    requires RunsFib(env) && room >= 1 && limit >= Ticks(if Signed(w) <= 1 then 0 else w)
    ensures var r := Eval(env, 0, FibAct(w, room), mem, 0, limit);
            if Signed(w) <= 1 then r == (if room >= 3 then Gives(w, mem, 4) else Fails(PoolOverflow))
            else if Fits(w, room, env.frameCap) then r == Gives(Wrap(Fib(w)), mem, Ticks(w))
            else Overflows(r)
  {
    hide Eval, FibModule;
    var c := Setting(env, mem, limit);
    if Signed(w) <= 1 {
      FibBase(c, 0, w, room, 0);
    } else {
      assert Signed(w) == w;
      FibEval(c, 0, w, room, 0);
    }
  }

  /** With the interpreter's 5000 slots and 1200 frames the largest argument it can evaluate is 556. */
  lemma {:induction false} FibLargest(env: Env, n: Word, pool: seq<Word>, mem: Memory, limit: nat)
    requires env.m == FibModule() && env.frameCap == 1200 && |pool| == 5000
    requires 2 <= n < 0x8000_0000_0000_0000 && limit >= Ticks(n)
    ensures EvalFunc(env, 0, [n], pool, mem, limit) == Returned(Wrap(Fib(n)), mem) <==> n <= 556
  {
    hide EvalFunc, Ticks, FibModule;
    assert Signed(n) == n;
    FibInterpreted(env, n, pool, mem, limit);
  }
}

/**
  A reference semantics without a register pool: every activation has its own map of registers,
  and `room` says how many slots of the pool would lie above its window's start.
  Calls are given twice, by an explicit stack of callers and by recursion.
*/
module Activation {
  import opened Words
  import opened Ir
  import opened Interp

  datatype Act = Act(func: nat, block: nat, index: nat, regs: map<nat, Word>, room: int)

  datatype Reading = Got(v: seq<Word>) | Bad(fault: Fault)

  function ReadRegs(act: Act, ids: seq<nat>): (r: Reading)
    ensures r.Got? ==> |r.v| == |ids|
  {
    if exists k :: 0 <= k < |ids| && ids[k] >= act.room then Bad(PoolOverflow)
    else if exists k :: 0 <= k < |ids| && ids[k] !in act.regs then Bad(Uninit)
    else Got(seq(|ids|, k requires 0 <= k < |ids| => act.regs[ids[k]]))
  }

  /** What one instruction asks for. */
  datatype Move =
    | Goes(act: Act, mem: Memory)
    | Calls(callee: Act, gen: nat)
    | Returns(w: Word)
    | ReturnsVoid
    | Traps(fault: Fault)

  function CommitAct(i: Instr, act: Act, mem: Memory, d: DataResult): Move {
    var next := act.(index := act.index + 1);
    match d
    case Trapped(f) => Traps(f)
    case Silent => Goes(next, mem)
    case Stored(after) => Goes(next, after)
    case Wrote(w) =>
      if i.HasGen() && i.gen.id < act.room then Goes(next.(regs := act.regs[i.gen.id := w]), mem)
      else Traps(PoolOverflow)
  }

  function DecideData(i: Instr, act: Act, mem: Memory, junk: Word): Move
    requires i.IsData()
  {
    match ReadRegs(act, DataUses(i))
    case Bad(f) => Traps(f)
    case Got(v) => CommitAct(i, act, mem, DataStep(i, v, mem, junk))
  }

  /** A call starts the callee on a fresh map holding only its arguments. */
  function Enter(i: Instr, room: int, reading: Reading): Move
    requires i.CallFunc?
  {
    match reading
    case Bad(f) => Traps(f)
    case Got(v) => Calls(Act(i.func, 0, 0, map k: nat | k < |v| :: v[k], room), i.gen.id)
  }

  function DecideCall(env: Env, depth: nat, i: Instr, act: Act): Move
    requires i.CallFunc?
  {
    if depth >= env.frameCap then Traps(FrameOverflow)
    else if i.func >= |env.m| then Traps(BadTarget)
    else
      var n := |env.m[i.func].args|;
      var room := act.room - |env.m[i.func].values|;
      if |i.args| < n then Traps(MissingArg)
      else if n > 0 && n > room then Traps(PoolOverflow)
      else Enter(i, room, ReadRegs(act, Ids(i.args[..n])))
  }

  function Decide(env: Env, depth: nat, act: Act, mem: Memory, junk: Word): Move {
    if !At(env.m, act.func, act.block, act.index) then Traps(OffBlock)
    else
      var i := InstrAt(env.m, act.func, act.block, act.index);
      match i
      case Br(t) => Goes(act.(block := t, index := 0), mem)
      case CondBr(c, t, f) =>
        (match ReadRegs(act, [c.id])
         case Bad(fault) => Traps(fault)
         case Got(v) =>
           if v[0] % 0x100 == 1 then Goes(act.(block := t, index := 0), mem)
           else if v[0] % 0x100 == 0 then Goes(act.(block := f, index := 0), mem)
           else Traps(BadBool))
      case CallFunc(_, _, _) => DecideCall(env, depth, i, act)
      case Ret(v) =>
        (match ReadRegs(act, [v.id])
         case Bad(fault) => Traps(fault)
         case Got(v) => Returns(v[0]))
      case RetVoid => ReturnsVoid
      case _ => DecideData(i, act, mem, junk)
  }

  /** The caller's activation once the call has delivered w. */
  function Deliver(act: Act, gen: nat, w: Word): Act {
    act.(index := act.index + 1, regs := act.regs[gen := w])
  }

  // ----- the stack form -----

  datatype Caller = Caller(act: Act, gen: nat)

  datatype Stack = Stack(cur: Act, callers: seq<Caller>, mem: Memory, clock: nat)

  /** Carries out a move on the stack. */
  function Follow(r: Stack, move: Move): (o: Outcome<Stack>)
    ensures o.Running? ==> o.s.clock == r.clock + 1
  {
    match move
    case Traps(f) => Stop(f)
    case Goes(act, mem) => Running(Stack(act, r.callers, mem, r.clock + 1))
    case Calls(callee, gen) => Running(Stack(callee, r.callers + [Caller(r.cur, gen)], r.mem, r.clock + 1))
    case ReturnsVoid => if |r.callers| == 0 then Returned(0, r.mem) else Stop(VoidResult)
    case Returns(w) =>
      if |r.callers| == 0 then Returned(w, r.mem)
      else
        var c := r.callers[|r.callers| - 1];
        if c.gen >= c.act.room then Stop(PoolOverflow)
        else Running(Stack(Deliver(c.act, c.gen, w), r.callers[..|r.callers| - 1], r.mem, r.clock + 1))
  }

  function StackStep(env: Env, r: Stack): (o: Outcome<Stack>)
    ensures o.Running? ==> o.s.clock == r.clock + 1
  {
    Follow(r, Decide(env, |r.callers|, r.cur, r.mem, env.junk(r.clock)))
  }

  function StackRun(env: Env, r: Stack, limit: nat): Outcome<Stack>
    decreases limit - r.clock
  {
    if r.clock >= limit then Running(r)
    else match StackStep(env, r)
      case Running(r') => StackRun(env, r', limit)
      case Returned(w, mem) => Returned(w, mem)
      case Stop(f) => Stop(f)
  }

  /** The activation from which a run takes its last step. */
  function LastAct(env: Env, r: Stack, limit: nat): Act
    decreases limit - r.clock
  {
    if r.clock < limit && StackStep(env, r).Running? then LastAct(env, StackStep(env, r).s, limit) else r.cur
  }

  // ----- the recursive form -----

  datatype Result = Gives(w: Word, mem: Memory, clock: nat) | Fails(fault: Fault) | Cut

  /** Evaluates an activation to its return, a call by evaluating the callee first. */
  function Eval(env: Env, depth: nat, act: Act, mem: Memory, clock: nat, limit: nat): (r: Result)
    ensures r.Gives? ==> r.clock > clock
    decreases limit - clock
  {
    if clock >= limit then Cut
    else match Decide(env, depth, act, mem, env.junk(clock))
      case Traps(f) => Fails(f)
      case Goes(next, after) => Eval(env, depth, next, after, clock + 1, limit)
      case Returns(w) => Gives(w, mem, clock + 1)
      case ReturnsVoid => if depth == 0 then Gives(0, mem, clock + 1) else Fails(VoidResult)
      case Calls(callee, gen) =>
        match Eval(env, depth + 1, callee, mem, clock + 1, limit)
        case Fails(f) => Fails(f)
        case Cut => Cut
        case Gives(w, after, later) =>
          if gen >= act.room then Fails(PoolOverflow)
          else Eval(env, depth, Deliver(act, gen, w), after, later, limit)
  }

  /** A run and an evaluation end the same way: same value and memory, same fault, or both cut off. */
  predicate SameEnd<S>(o: Outcome<S>, r: Result) {
    match o
    case Running(_) => r.Cut?
    case Returned(w, mem) => r.Gives? && r.w == w && r.mem == mem
    case Stop(f) => r == Fails(f)
  }

  /** Continues with the innermost waiting caller, then the next, until the stack is empty. */
  function Resume(env: Env, callers: seq<Caller>, r: Result, limit: nat): Result
    decreases |callers|
  {
    if |callers| == 0 || !r.Gives? then r
    else
      var n := |callers| - 1;
      var c := callers[n];
      if c.gen >= c.act.room then Fails(PoolOverflow)
      else Resume(env, callers[..n], Eval(env, n, Deliver(c.act, c.gen, r.w), r.mem, r.clock, limit), limit)
  }

  /** The stack of callers is exactly the recursion: running it resumes every caller in turn. */
  lemma {:induction false} StackIsRecursion(env: Env, r: Stack, limit: nat)
    ensures SameEnd(StackRun(env, r, limit),
                    Resume(env, r.callers, Eval(env, |r.callers|, r.cur, r.mem, r.clock, limit), limit))
    decreases limit - r.clock
  {
    hide Decide;
    if r.clock < limit {
      var n := |r.callers|;
      match Decide(env, n, r.cur, r.mem, env.junk(r.clock))
      case Traps(f) =>
      case ReturnsVoid =>
      case Goes(act, mem) =>
        StackIsRecursion(env, Stack(act, r.callers, mem, r.clock + 1), limit);
      case Returns(w) =>
        if n > 0 && r.callers[n - 1].gen < r.callers[n - 1].act.room {
          StackIsRecursion(env, StackStep(env, r).s, limit);
        }
      case Calls(callee, gen) =>
        var callers := r.callers + [Caller(r.cur, gen)];
        assert callers[..n] == r.callers;
        StackIsRecursion(env, Stack(callee, callers, r.mem, r.clock + 1), limit);
    }
  }
}

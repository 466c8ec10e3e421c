/**
  The bytecode interpreter: one loop over an explicit frame stack and one pool of registers
  shared by all activations. A call moves the register window up the pool by the callee's
  value count.

  C leaves some bits and some reads unspecified. Bits that a narrow write does not determine
  come from `junk`, one arbitrary word per step; a read or write outside the pool or the frame
  array, and every other undefined action, stops the machine with a fault.
*/
module Interp {
  import opened Words
  import opened Ir

  datatype Fault =
    | OffBlock        // no instruction at the current position
    | BadTarget       // call to a function the module does not have
    | PoolOverflow    // register slot beyond the pool
    | FrameOverflow   // no frame left for a call
    | MissingArg      // fewer arguments than the callee copies
    | Uninit          // read of a register no instruction has written
    | DivideTrap      // division by zero, or INT64_MIN / -1
    | BadAddress      // load or store outside memory
    | BadBool         // a boolean whose byte is neither 0 nor 1
    | VoidResult      // a nested return without a value

  datatype Env = Env(m: Module, frameCap: nat, junk: nat -> Word)

  // ----- instructions that neither branch nor call nor return -----

  datatype DataResult = Wrote(w: Word) | Stored(mem: Memory) | Silent | Trapped(fault: Fault)

  /** C division truncates toward zero. */
  function TruncDiv(a: int, b: int): int
    requires b != 0
  {
    if a >= 0 then a / b else -((-a) / b)
  }

  function Compare(op: BinOp, a: int, b: int): bool
    requires op.IsCompare()
  {
    match op
    case Eq => a == b
    case Diff => a != b
    case Larger => a > b
    case LargerEq => a >= b
    case Smaller => a < b
    case SmallerEq => a <= b
  }

  function BinResult(op: BinOp, a: Word, b: Word, junk: Word): DataResult {
    if op.IsCompare() then
      Wrote(Narrow(Bits8, if Compare(op, Signed(a), Signed(b)) then 1 else 0, junk))
    else if op.IsDivide() then
      if b == 0 || (Signed(a) == -0x8000_0000_0000_0000 && Signed(b) == -1) then Trapped(DivideTrap)
      else Wrote(Wrap(TruncDiv(Signed(a), Signed(b))))
    else match op {
      case Add => Wrote(Wrap(a + b))
      case Sub => Wrote(Wrap(a - b))
      case _ => Wrote(Wrap(a * b))
    }
  }

  /** The width of the union member that a load or store of this type goes through. */
  function AccessWidth(ty: DataType): Option<Width> {
    match ty
    case Ptr | F64 | I64 => Some(Bits64)
    case F32 | I32 => Some(Bits32)
    case I16 => Some(Bits16)
    case I8 => Some(Bits8)
    case Void => None
  }

  function LoadFrom(mem: Memory, addr: Word, ty: DataType, junk: Word): DataResult {
    match AccessWidth(ty)
    case None => Silent
    case Some(k) =>
      if !Mapped(mem, addr, k.Bytes()) then Trapped(BadAddress)
      else
        var x := FromLE(ReadBytes(mem, addr, k.Bytes()));
        // a 16-bit load is sign-extended through the 32-bit member
        Wrote(if k == Bits16 then Narrow(Bits32, SignedAt(Bits16, x), junk) else Narrow(k, x, junk))
  }

  function StoreTo(mem: Memory, addr: Word, ty: DataType, w: Word): DataResult {
    match AccessWidth(ty)
    case None => Silent
    case Some(k) =>
      if !Mapped(mem, addr, k.Bytes()) then Trapped(BadAddress)
      else Stored(WriteBytes(mem, addr, ToLE(k.Bytes(), w)))
  }

  function DataStep(i: Instr, v: seq<Word>, mem: Memory, junk: Word): DataResult
    requires i.IsData() && |v| == |DataUses(i)|
  {
    match i
    case Const(kind, imm, _) => Wrote(Narrow(kind.Determines(), imm, junk))
    case Op(op, _, _, _) => BinResult(op, v[0], v[1], junk)
    case Not(_, _) => Wrote(if v[0] == 0 then 1 else 0)
    case Load(_, ty, _) => LoadFrom(mem, v[0], ty, junk)
    case Store(_, s) => StoreTo(mem, v[0], s.ty, v[1])
    case CallPtr(_, _, _) => Silent
  }

  // ----- the machine -----

  /** A suspended caller: the call it stopped at, the slot for the result and its window. */
  datatype Frame = Frame(func: nat, block: nat, index: nat, gen: nat, base: nat)

  datatype State = State(func: nat, block: nat, index: nat, base: nat,
                         frames: seq<Frame>, pool: seq<Word>, mem: Memory, clock: nat)

  datatype Outcome<+S> = Running(s: S) | Returned(w: Word, mem: Memory) | Stop(fault: Fault)

  function ReadPool(pool: seq<Word>, base: nat, ids: seq<nat>): (r: Option<seq<Word>>)
    ensures r.Some? ==> |r.value| == |ids|
  {
    if forall k :: 0 <= k < |ids| ==> base + ids[k] < |pool|
    then Some(seq(|ids|, k requires 0 <= k < |ids| => pool[base + ids[k]]))
    else None
  }

  /** Argument copying, one slot at a time as the loop does it: windows may overlap. */
  function CopyArgs(pool: seq<Word>, from: nat, to: nat, ids: seq<nat>): (r: Option<seq<Word>>)
    ensures r.Some? ==> |r.value| == |pool|
    decreases |ids|
  {
    if |ids| == 0 then Some(pool) else
      var k := |ids| - 1;
      match CopyArgs(pool, from, to, ids[..k])
      case None => None
      case Some(p) =>
        if from + ids[k] < |p| && to + k < |p| then Some(p[to + k := p[from + ids[k]]]) else None
  }

  function Next(s: State): State {
    s.(index := s.index + 1, clock := s.clock + 1)
  }

  function Jump(s: State, block: nat): Outcome<State> {
    Running(s.(block := block, index := 0, clock := s.clock + 1))
  }

  /** Puts an instruction's effect into the state. */
  function Commit(i: Instr, s: State, d: DataResult): Outcome<State> {
    match d
    case Trapped(f) => Stop(f)
    case Silent => Running(Next(s))
    case Stored(mem) => Running(Next(s).(mem := mem))
    case Wrote(w) =>
      if i.HasGen() && s.base + i.gen.id < |s.pool|
      then Running(Next(s).(pool := s.pool[s.base + i.gen.id := w]))
      else Stop(PoolOverflow)
  }

  function StepData(i: Instr, s: State, junk: Word): Outcome<State>
    requires i.IsData()
  {
    match ReadPool(s.pool, s.base, DataUses(i))
    case None => Stop(PoolOverflow)
    case Some(v) => Commit(i, s, DataStep(i, v, s.mem, junk))
  }

  /** Suspends the caller and moves to the callee's first instruction. */
  function Push(i: Instr, s: State, base: nat, copied: Option<seq<Word>>): Outcome<State>
    requires i.CallFunc?
  {
    match copied
    case None => Stop(PoolOverflow)
    case Some(pool) =>
      Running(State(i.func, 0, 0, base, s.frames + [Frame(s.func, s.block, s.index, i.gen.id, s.base)],
                    pool, s.mem, s.clock + 1))
  }

  function StepCall(env: Env, i: Instr, s: State): Outcome<State>
    requires i.CallFunc?
  {
    if |s.frames| >= env.frameCap then Stop(FrameOverflow)
    else if i.func >= |env.m| then Stop(BadTarget)
    else
      var callee := env.m[i.func];
      var base := s.base + |callee.values|;
      if |i.args| < |callee.args| then Stop(MissingArg)
      else Push(i, s, base, CopyArgs(s.pool, s.base, base, Ids(i.args[..|callee.args|])))
  }

  function StepRet(s: State, id: nat): Outcome<State> {
    if s.base + id >= |s.pool| then Stop(PoolOverflow)
    else if |s.frames| == 0 then Returned(s.pool[s.base + id], s.mem)
    else
      var f := s.frames[|s.frames| - 1];
      if f.base + f.gen >= |s.pool| then Stop(PoolOverflow)
      else Running(State(f.func, f.block, f.index + 1, f.base, s.frames[..|s.frames| - 1],
                         s.pool[f.base + f.gen := s.pool[s.base + id]], s.mem, s.clock + 1))
  }

  /** One iteration of the dispatch loop. */
  function Step(env: Env, s: State): (o: Outcome<State>)
    ensures o.Running? ==> o.s.clock == s.clock + 1 && |o.s.pool| == |s.pool|
  {
    if !At(env.m, s.func, s.block, s.index) then Stop(OffBlock)
    else
      var i := InstrAt(env.m, s.func, s.block, s.index);
      match i
      case Br(t) => Jump(s, t)
      case CondBr(c, t, f) =>
        if s.base + c.id >= |s.pool| then Stop(PoolOverflow)
        else
          var b := s.pool[s.base + c.id] % 0x100;
          if b == 1 then Jump(s, t) else if b == 0 then Jump(s, f) else Stop(BadBool)
      case CallFunc(_, _, _) => StepCall(env, i, s)
      case Ret(v) => StepRet(s, v.id)
      case RetVoid => if |s.frames| == 0 then Returned(0, s.mem) else Stop(VoidResult)
      case _ => StepData(i, s, env.junk(s.clock))
  }

  /** The loop from s until it returns, faults or the clock reaches limit. */
  function Run(env: Env, s: State, limit: nat): Outcome<State>
    decreases limit - s.clock
  {
    if s.clock >= limit then Running(s)
    else match Step(env, s)
      case Running(s') => Run(env, s', limit)
      case Returned(w, mem) => Returned(w, mem)
      case Stop(f) => Stop(f)
  }

  /** Entry: the arguments go to the first slots, everything else in the pool is whatever was there. */
  function Start(env: Env, func: nat, values: seq<Word>, pool: seq<Word>, mem: Memory): Outcome<State> {
    if func >= |env.m| then Stop(BadTarget)
    else
      var n := |env.m[func].args|;
      if |values| < n then Stop(MissingArg)
      else if |pool| < n then Stop(PoolOverflow)
      else Running(State(func, 0, 0, 0, [], values[..n] + pool[n..], mem, 0))
  }

  /** A whole interpretation, cut off after limit iterations. */
  function EvalFunc(env: Env, func: nat, values: seq<Word>, pool: seq<Word>, mem: Memory, limit: nat): Outcome<State> {
    match Start(env, func, values, pool, mem)
    case Running(s) => Run(env, s, limit)
    case Returned(w, mem) => Returned(w, mem)
    case Stop(f) => Stop(f)
  }

  /** The state from which a run takes its last step. */
  function LastState(env: Env, s: State, limit: nat): State
    decreases limit - s.clock
  {
    if s.clock < limit && Step(env, s).Running? then LastState(env, Step(env, s).s, limit) else s
  }

  /** The last state of a whole interpretation, if it started. */
  function FinalState(env: Env, func: nat, values: seq<Word>, pool: seq<Word>, mem: Memory, limit: nat): Option<State> {
    match Start(env, func, values, pool, mem)
    case Running(s) => Some(LastState(env, s, limit))
    case _ => None
  }

  /** A run ends with what its last state steps to. */
  lemma {:induction false} LastStateDecides(env: Env, s: State, limit: nat)
    requires !Run(env, s, limit).Running?
    ensures Step(env, LastState(env, s, limit)) == Run(env, s, limit)
    decreases limit - s.clock
  {
    hide Step;
    if Step(env, s).Running? {
      LastStateDecides(env, Step(env, s).s, limit);
    }
  }

  lemma {:induction false} RunSplit(env: Env, s: State, middle: nat, limit: nat)
    requires middle <= limit
    ensures Run(env, s, limit) ==
            (match Run(env, s, middle)
             case Running(t) => Run(env, t, limit)
             case Returned(w, mem) => Returned(w, mem)
             case Stop(f) => Stop(f))
    decreases middle - s.clock
  {
    if s.clock < middle {
      match Step(env, s)
      case Running(s') => RunSplit(env, s', middle, limit);
      case Returned(_, _) =>
      case Stop(_) =>
    }
  }

  lemma {:induction false} RunPoolSize(env: Env, s: State, limit: nat)
    ensures Run(env, s, limit).Running? ==> |Run(env, s, limit).s.pool| == |s.pool|
    decreases limit - s.clock
  {
    if s.clock < limit && Step(env, s).Running? {
      RunPoolSize(env, Step(env, s).s, limit);
    }
  }

  lemma {:induction false} RunClock(env: Env, s: State, limit: nat)
    requires Run(env, s, limit).Running? && s.clock <= limit
    ensures Run(env, s, limit).s.clock == limit
    decreases limit - s.clock
  {
    if s.clock < limit {
      RunClock(env, Step(env, s).s, limit);
    }
  }
}

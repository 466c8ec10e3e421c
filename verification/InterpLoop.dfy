/** The interpreter's loop as it runs: frames and registers are arrays updated in place. */
module InterpLoop {
  import opened Words
  import opened Ir
  import opened Interp

  datatype Verdict = Continue | Finished(w: Word) | Fails(fault: Fault)

  class Interpreter {
    const m: Module
    const junk: nat -> Word
    const frames: array<Frame>
    const pool: array<Word>
    var currentFrame: nat
    var registers: nat       // start of the current window in the pool
    var func: nat
    var block: nat
    var instrIndex: int      // -1 between a jump and the increment that ends the iteration
    var mem: Memory
    var clock: nat

    ghost predicate Valid()
      reads this
    {
      currentFrame <= frames.Length && instrIndex >= -1
    }

    ghost function Environment(): Env
    {
      Env(m, frames.Length, junk)
    }

    /** The abstract state once the iteration's closing increment has been made. */
    ghost function Upcoming(): State
      reads this, frames, pool
      requires Valid()
    {
      State(func, block, instrIndex + 1, registers, frames[..currentFrame], pool[..], mem, clock + 1)
    }

    ghost function Current(): State
      reads this, frames, pool
      requires Valid() && instrIndex >= 0
    {
      State(func, block, instrIndex, registers, frames[..currentFrame], pool[..], mem, clock)
    }

    /** Where a verdict reached inside an iteration leaves the run. */
    ghost function Meaning(v: Verdict): Outcome<State>
      reads this, frames, pool
      requires Valid()
    {
      match v
      case Continue => Running(Upcoming())
      case Finished(w) => Returned(w, mem)
      case Fails(f) => Stop(f)
    }

    constructor (m: Module, junk: nat -> Word, frameCount: nat, poolSize: nat)
      ensures Valid() && fresh(frames) && fresh(pool)
      ensures this.m == m && this.junk == junk && frames.Length == frameCount && pool.Length == poolSize
    {
      this.m, this.junk := m, junk;
      frames := new Frame[frameCount](_ => Frame(0, 0, 0, 0, 0));
      pool := new Word[poolSize];
      currentFrame, registers, func, block, instrIndex, mem, clock := 0, 0, 0, 0, 0, map[], 0;
    }

    method ReadOperands(ids: seq<nat>) returns (v: Option<seq<Word>>)
      requires Valid()
      ensures v == ReadPool(pool[..], registers, ids)
    {
      var words: seq<Word> := [];
      for k := 0 to |ids|
        invariant |words| == k
        invariant forall j :: 0 <= j < k ==> registers + ids[j] < pool.Length && words[j] == pool[registers + ids[j]]
      {
        if registers + ids[k] >= pool.Length {
          return None;
        }
        words := words + [pool[registers + ids[k]]];
      }
      assert words == ReadPool(pool[..], registers, ids).value;
      v := Some(words);
    }

    method ExecData(i: Instr) returns (v: Verdict)
      requires Valid() && instrIndex >= 0 && i.IsData()
      modifies this`mem, pool
      ensures Valid()
      ensures Meaning(v) == old(StepData(i, Current(), junk(clock)))
    {
      var operands := ReadOperands(DataUses(i));
      if operands.None? {
        return Fails(PoolOverflow);
      }
      match DataStep(i, operands.value, mem, junk(clock)) {
        case Trapped(f) => return Fails(f);
        case Silent => return Continue;
        case Stored(after) =>
          mem := after;
          return Continue;
        case Wrote(w) =>
          if !i.HasGen() || registers + i.gen.id >= pool.Length {
            return Fails(PoolOverflow);
          }
          pool[registers + i.gen.id] := w;
          return Continue;
      }
    }

    /** The argument loop of a call, copying upward one slot at a time. */
    method CopyArguments(from: nat, to: nat, ids: seq<nat>) returns (ok: bool)
      requires Valid()
      modifies pool
      ensures Valid()
      ensures ok == old(CopyArgs(pool[..], from, to, ids)).Some?
      ensures ok ==> pool[..] == old(CopyArgs(pool[..], from, to, ids)).value
    {
      ghost var before := pool[..];
      for k := 0 to |ids|
        invariant CopyArgs(before, from, to, ids[..k]) == Some(pool[..])
      {
        assert ids[..k + 1][..k] == ids[..k];
        if from + ids[k] >= pool.Length || to + k >= pool.Length {
          CopyArgsFails(before, from, to, ids, k + 1);
          return false;
        }
        pool[to + k] := pool[from + ids[k]];
      }
      assert ids[..|ids|] == ids;
      return true;
    }

    method ExecCall(i: Instr) returns (v: Verdict)
      requires Valid() && instrIndex >= 0 && i.CallFunc?
      modifies this`currentFrame, this`registers, this`func, this`block, this`instrIndex, frames, pool
      ensures Valid()
      ensures Meaning(v) == old(StepCall(Environment(), i, Current()))
    {
      if currentFrame >= frames.Length {
        return Fails(FrameOverflow);
      }
      if i.func >= |m| {
        return Fails(BadTarget);
      }
      var callee := m[i.func];
      var oldRegisters := registers;
      frames[currentFrame] := Frame(func, block, instrIndex, i.gen.id, oldRegisters);
      currentFrame := currentFrame + 1;
      instrIndex, func, block := -1, i.func, 0;
      registers := registers + |callee.values|;
      if |i.args| < |callee.args| {
        return Fails(MissingArg);
      }
      var ok := CopyArguments(oldRegisters, registers, Ids(i.args[..|callee.args|]));
      assert frames[..currentFrame] ==
             old(Current()).frames + [Frame(old(func), old(block), old(instrIndex), i.gen.id, oldRegisters)];
      return if ok then Continue else Fails(PoolOverflow);
    }

    method ExecRet(id: nat) returns (v: Verdict)
      requires Valid() && instrIndex >= 0
      modifies this`currentFrame, this`registers, this`func, this`block, this`instrIndex, pool
      ensures Valid()
      ensures Meaning(v) == old(StepRet(Current(), id))
    {
      if registers + id >= pool.Length {
        return Fails(PoolOverflow);
      }
      var value := pool[registers + id];
      if currentFrame == 0 {
        return Finished(value);
      }
      currentFrame := currentFrame - 1;
      var calling := frames[currentFrame];
      instrIndex, registers, func, block := calling.index, calling.base, calling.func, calling.block;
      if registers + calling.gen >= pool.Length {
        return Fails(PoolOverflow);
      }
      pool[registers + calling.gen] := value;
      assert frames[..currentFrame] == old(Current()).frames[..currentFrame];
      assert pool[..] == old(pool[..])[registers + calling.gen := value];
      return Continue;
    }

    /** The switch over the current instruction's opcode. */
    method Dispatch() returns (v: Verdict)
      requires Valid() && instrIndex >= 0
      modifies this`currentFrame, this`registers, this`func, this`block, this`instrIndex, this`mem, frames, pool
      ensures Valid()
      ensures Meaning(v) == old(Step(Environment(), Current()))
    {
      if !At(m, func, block, instrIndex) {
        return Fails(OffBlock);
      }
      var i := InstrAt(m, func, block, instrIndex);
      match i {
        case Br(t) =>
          block, instrIndex := t, -1;
          return Continue;
        case CondBr(c, t, f) =>
          if registers + c.id >= pool.Length {
            return Fails(PoolOverflow);
          }
          var bit := pool[registers + c.id] % 0x100;
          if bit > 1 {
            return Fails(BadBool);
          }
          block, instrIndex := if bit == 1 then t else f, -1;
          return Continue;
        case CallFunc(_, _, _) => v := ExecCall(i);
        case Ret(value) => v := ExecRet(value.id);
        case RetVoid => return if currentFrame == 0 then Finished(0) else Fails(VoidResult);
        case _ => v := ExecData(i);
      }
    }

    method PlaceArguments(values: seq<Word>)
      requires |values| <= pool.Length
      modifies pool
      ensures pool[..] == values + old(pool[..])[|values|..]
    {
      ghost var before := pool[..];
      for k := 0 to |values|
        invariant forall j :: 0 <= j < k ==> pool[j] == values[j]
        invariant forall j :: k <= j < pool.Length ==> pool[j] == before[j]
      {
        pool[k] := values[k];
      }
    }

    /** The set-up before the loop: position, empty frame stack and the argument slots. */
    method Enter(entry: nat, values: seq<Word>, memory: Memory) returns (v: Verdict)
      requires Valid()
      modifies this, pool
      ensures Valid() && instrIndex >= 0 && !v.Finished?
      ensures (if v.Fails? then Stop(v.fault) else Running(Current()))
           == old(Start(Environment(), entry, values, pool[..], memory))
    {
      currentFrame, registers, func, block, instrIndex, mem, clock := 0, 0, entry, 0, 0, memory, 0;
      if entry >= |m| {
        return Fails(BadTarget);
      }
      var argsCount := |m[entry].args|;
      if |values| < argsCount {
        return Fails(MissingArg);
      }
      if pool.Length < argsCount {
        return Fails(PoolOverflow);
      }
      PlaceArguments(values[..argsCount]);
      return Continue;
    }

    /** The dispatch loop. It has no bound of its own: `limit` cuts off a run that never returns. */
    method Loop(limit: nat) returns (o: Outcome<State>)
      requires Valid() && instrIndex >= 0
      modifies this, frames, pool
      ensures o == old(Run(Environment(), Current(), limit))
    {
      hide Step;
      ghost var first := Current();
      while clock < limit
        invariant Valid() && instrIndex >= 0
        invariant Run(Environment(), first, limit) == Run(Environment(), Current(), limit)
        decreases limit - clock
      {
        var v := Dispatch();
        if v.Finished? {
          return Returned(v.w, mem);
        }
        if v.Fails? {
          return Stop(v.fault);
        }
        instrIndex := instrIndex + 1;
        clock := clock + 1;
      }
      o := Running(State(func, block, instrIndex, registers, frames[..currentFrame], pool[..], mem, clock));
    }

    method EvalFunction(entry: nat, values: seq<Word>, memory: Memory, limit: nat) returns (o: Outcome<State>)
      requires Valid()
      modifies this, frames, pool
      ensures o == old(EvalFunc(Environment(), entry, values, pool[..], memory, limit))
    {
      var v := Enter(entry, values, memory);
      if v.Fails? {
        return Stop(v.fault);
      }
      o := Loop(limit);
    }
  }

  lemma {:induction false} CopyArgsFails(pool: seq<Word>, from: nat, to: nat, ids: seq<nat>, k: nat)
    requires k <= |ids| && CopyArgs(pool, from, to, ids[..k]) == None
    ensures CopyArgs(pool, from, to, ids) == None
    decreases |ids|
  {
    if k < |ids| {
      assert ids[..|ids| - 1][..k] == ids[..k];
      CopyArgsFails(pool, from, to, ids[..|ids| - 1], k);
    } else {
      assert ids[..k] == ids;
    }
  }
}

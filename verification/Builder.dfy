/**
  The builder: functions are created with one empty block and one value per argument; every
  builder call appends one instruction to the current block and gives each new result the next id.
*/
module Builder {
  import opened Words
  import opened Ir
  import opened Interp
  import opened Window

  /** A function under construction: what has been built and the block that grows next. */
  datatype Draft = Draft(func: Func, current: nat)

  datatype Call =
    | CreateBlock
    | SetCurrentBlock(block: nat)
    | AddConst(kind: ConstKind, ty: DataType, imm: Word)
    | AddOp(op: BinOp, left: Value, right: Value)
    | AddNot(arg: Value)
    | AddBr(target: nat)
    | AddCondBr(cond: Value, onTrue: nat, onFalse: nat)
    | AddLoad(addr: Value, ty: DataType)
    | AddStore(addr: Value, stored: Value)
    | AddCallPtr(ret: DataType, callee: Value, args: seq<Value>)
    | AddCallFunc(target: nat, ret: DataType, args: seq<Value>)
    | AddRet(result: Value)
    | AddRetVoid

  function ArgValues(args: seq<DataType>): (vs: seq<Value>)
    ensures |vs| == |args| && forall k :: 0 <= k < |args| ==> vs[k] == Value(k, args[k])
  {
    seq(|args|, k requires 0 <= k < |args| => Value(k, args[k]))
  }

  function NewDraft(args: seq<DataType>, ret: DataType): Draft {
    Draft(Func(args, ret, [[]], ArgValues(args)), 0)
  }

  function Append(d: Draft, i: Instr): Draft
    requires d.current < |d.func.blocks|
  {
    d.(func := d.func.(blocks := d.func.blocks[d.current := d.func.blocks[d.current] + [i]]))
  }

  function AppendWithResult(d: Draft, i: Instr): Draft
    requires d.current < |d.func.blocks| && i.HasGen()
  {
    var e := Append(d, i);
    e.(func := e.func.(values := d.func.values + [i.gen]))
  }

  function NextValue(d: Draft, ty: DataType): Value {
    Value(|d.func.values|, ty)
  }

  /** The instruction a call appends, if any. */
  function Appended(d: Draft, c: Call): Option<Instr> {
    match c
    case CreateBlock => None
    case SetCurrentBlock(_) => None
    case AddConst(kind, ty, imm) => Some(Const(kind, imm, NextValue(d, ty)))
    case AddOp(op, l, r) => Some(Op(op, l, r, NextValue(d, l.ty)))
    case AddNot(a) => Some(Not(a, NextValue(d, a.ty)))
    case AddBr(t) => Some(Br(t))
    case AddCondBr(v, t, f) => Some(CondBr(v, t, f))
    case AddLoad(a, ty) => Some(Load(a, ty, NextValue(d, ty)))
    case AddStore(a, v) => Some(Store(a, v))
    case AddCallPtr(ret, callee, args) => Some(CallPtr(callee, args, NextValue(d, ret)))
    case AddCallFunc(callee, ret, args) => Some(CallFunc(callee, args, NextValue(d, ret)))
    case AddRet(v) => Some(Ret(v))
    case AddRetVoid => Some(RetVoid)
  }

  function Apply(d: Draft, c: Call): Draft
    requires d.current < |d.func.blocks|
  {
    match Appended(d, c)
    case Some(i) => if i.HasGen() then AppendWithResult(d, i) else Append(d, i)
    case None =>
      if c.CreateBlock? then d.(func := d.func.(blocks := d.func.blocks + [[]]))
      else if c.SetCurrentBlock? then d.(current := c.block)
      else d
  }

  /** Block and value handles of a call come from the same function. */
  predicate Own(d: Draft, c: Call) {
    match c
    case SetCurrentBlock(b) => b < |d.func.blocks|
    case AddOp(_, l, r) => l in d.func.values && r in d.func.values
    case AddNot(a) => a in d.func.values
    case AddCondBr(v, _, _) => v in d.func.values
    case AddLoad(a, _) => a in d.func.values
    case AddStore(a, v) => a in d.func.values && v in d.func.values
    case AddCallFunc(_, _, args) => forall k :: 0 <= k < |args| ==> args[k] in d.func.values
    case AddRet(v) => v in d.func.values
    case _ => true
  }

  // ----- the invariant of every sequence of calls -----

  /** How many instructions of a block, of several blocks, generate id. */
  function GeneratedIn(block: seq<Instr>, id: nat): nat {
    if |block| == 0 then 0
    else GeneratedIn(block[..|block| - 1], id)
         + (var i := block[|block| - 1]; if i.HasGen() && i.gen.id == id then 1 else 0)
  }

  function Generated(blocks: seq<seq<Instr>>, id: nat): nat {
    if |blocks| == 0 then 0
    else Generated(blocks[..|blocks| - 1], id) + GeneratedIn(blocks[|blocks| - 1], id)
  }

  /** Dense ids, arguments first, every other id generated by exactly one instruction. */
  ghost predicate WellBuilt(d: Draft) {
    && d.current < |d.func.blocks|
    && |d.func.args| <= |d.func.values|
    && (forall k :: 0 <= k < |d.func.values| ==> d.func.values[k].id == k)
    && (forall k :: 0 <= k < |d.func.args| ==> d.func.values[k].ty == d.func.args[k])
    && (forall id: nat :: Generated(d.func.blocks, id) ==
          if |d.func.args| <= id < |d.func.values| then 1 else 0)
    && OperandsInside(d.func)
  }

  lemma {:induction false} GeneratedUpdate(blocks: seq<seq<Instr>>, b: nat, i: Instr, id: nat)
    requires b < |blocks|
    ensures Generated(blocks[b := blocks[b] + [i]], id) ==
            Generated(blocks, id) + if i.HasGen() && i.gen.id == id then 1 else 0
    decreases |blocks|
  {
    var n := |blocks| - 1;
    var after := blocks[b := blocks[b] + [i]];
    if b < n {
      GeneratedUpdate(blocks[..n], b, i, id);
      assert after[..n] == blocks[..n][b := blocks[b] + [i]];
    } else {
      assert after[..n] == blocks[..n];
      assert (blocks[b] + [i])[..|blocks[b]|] == blocks[b];
    }
  }

  lemma NewDraftWellBuilt(args: seq<DataType>, ret: DataType)
    ensures WellBuilt(NewDraft(args, ret))
  {
    var d := NewDraft(args, ret);
    forall id: nat
      ensures Generated(d.func.blocks, id) == 0
    {
      assert d.func.blocks[..0] == [];
    }
  }

  lemma AppendKeepsIds(d: Draft, i: Instr)
    requires WellBuilt(d)
    ensures forall id: nat :: Generated(Append(d, i).func.blocks, id) ==
              Generated(d.func.blocks, id) + if i.HasGen() && i.gen.id == id then 1 else 0
  {
    forall id: nat
      ensures Generated(Append(d, i).func.blocks, id) ==
              Generated(d.func.blocks, id) + if i.HasGen() && i.gen.id == id then 1 else 0
    {
      GeneratedUpdate(d.func.blocks, d.current, i, id);
    }
  }

  lemma MoreValues(f: Func, g: Func, i: Instr)
    requires OwnOperands(f, i) && |g.values| >= |f.values|
    ensures OwnOperands(g, i)
  {
    if i.IsData() {
      forall k | 0 <= k < |DataUses(i)|
        ensures DataUses(i)[k] < |g.values|
      {
        assert DataUses(i)[k] < |f.values|;
      }
    }
  }

  lemma AppendKeepsOperands(d: Draft, i: Instr, f: Func)
    requires WellBuilt(d) && f.blocks == Append(d, i).func.blocks && |f.values| >= |d.func.values|
    requires OwnOperands(f, i)
    ensures OperandsInside(f)
  {
    forall b: nat, j: nat | b < |f.blocks| && j < |f.blocks[b]|
      ensures OwnOperands(f, f.blocks[b][j])
    {
      if b < |d.func.blocks| && j < |d.func.blocks[b]| {
        assert OwnOperands(d.func, d.func.blocks[b][j]);
        assert f.blocks[b][j] == d.func.blocks[b][j];
        MoreValues(d.func, f, d.func.blocks[b][j]);
      } else {
        assert f.blocks[b][j] == i;
      }
    }
  }

  lemma OwnCallOperands(d: Draft, c: Call)
    requires WellBuilt(d) && Own(d, c) && Appended(d, c).Some?
    ensures OwnOperands(Apply(d, c).func, Appended(d, c).value)
  {
    var i := Appended(d, c).value;
    assert |Apply(d, c).func.values| >= |d.func.values|;
    if i.IsData() {
      forall k | 0 <= k < |DataUses(i)|
        ensures DataUses(i)[k] < |d.func.values|
      {
        HandleInside(d, i, k);
      }
    }
  }

  lemma HandleInside(d: Draft, i: Instr, k: nat)
    requires WellBuilt(d) && i.IsData() && k < |DataUses(i)|
    requires i.Op? ==> i.left in d.func.values && i.right in d.func.values
    requires i.Not? ==> i.arg in d.func.values
    requires i.Load? || i.Store? ==> i.addr in d.func.values
    requires i.Store? ==> i.stored in d.func.values
    ensures DataUses(i)[k] < |d.func.values|
  {
  }

  lemma CreateBlockKeeps(d: Draft)
    requires WellBuilt(d)
    ensures WellBuilt(Apply(d, CreateBlock))
  {
    hide OwnOperands;
    var e := Apply(d, CreateBlock);
    assert e.func.blocks[..|d.func.blocks|] == d.func.blocks;
    forall b: nat, j: nat | b < |e.func.blocks| && j < |e.func.blocks[b]|
      ensures OwnOperands(e.func, e.func.blocks[b][j])
    {
      assert b < |d.func.blocks|;
      MoreValues(d.func, e.func, d.func.blocks[b][j]);
    }
    forall id: nat
      ensures Generated(e.func.blocks, id) == Generated(d.func.blocks, id)
    {
    }
  }

  lemma ApplyKeeps(d: Draft, c: Call)
    requires WellBuilt(d) && Own(d, c)
    ensures WellBuilt(Apply(d, c))
  {
    match Appended(d, c)
    case Some(i) =>
      AppendKeepsIds(d, i);
      OwnCallOperands(d, c);
      AppendKeepsOperands(d, i, Apply(d, c).func);
    case None =>
      if c.CreateBlock? {
        CreateBlockKeeps(d);
      }
  }

  function ApplyAll(d: Draft, calls: seq<Call>): (r: Option<Draft>) {
    if |calls| == 0 then Some(d)
    else match ApplyAll(d, calls[..|calls| - 1])
      case None => None
      case Some(e) =>
        var c := calls[|calls| - 1];
        if e.current < |e.func.blocks| && Own(e, c) then Some(Apply(e, c)) else None
  }

  /** Every sequence of builder calls on a new function leaves it well built. */
  lemma {:induction false} EveryBuildIsWellBuilt(args: seq<DataType>, ret: DataType, calls: seq<Call>)
    requires ApplyAll(NewDraft(args, ret), calls).Some?
    ensures WellBuilt(ApplyAll(NewDraft(args, ret), calls).value)
    decreases |calls|
  {
    if |calls| == 0 {
      NewDraftWellBuilt(args, ret);
    } else {
      EveryBuildIsWellBuilt(args, ret, calls[..|calls| - 1]);
      ApplyKeeps(ApplyAll(NewDraft(args, ret), calls[..|calls| - 1]).value, calls[|calls| - 1]);
    }
  }

  /**
    At every instruction of a well-built function the interpreter depends on the current window
    only, and changes nothing else but a callee's argument slots and a caller's result slot.
  */
  lemma BuiltModuleStaysInside(env: Env, s: State, q: seq<Word>, current: nat)
    requires At(env.m, s.func, s.block, s.index) && WellBuilt(Draft(env.m[s.func], current))
    requires AgreeInside(env.m, s, s.pool, q)
    ensures SameEffect(env.m, s, s.pool, q, Step(env, s), Step(env, s.(pool := q)))
  {
    assert OwnOperands(env.m[s.func], env.m[s.func].blocks[s.block][s.index]);
    StepStaysInside(env, s, q);
  }

  // ----- the builder object -----

  /** The blocks with i added at the end of block b. */
  function Extended(blocks: seq<seq<Instr>>, b: nat, i: Instr): seq<seq<Instr>>
    requires b < |blocks|
  {
    blocks[b := blocks[b] + [i]]
  }

  class CowBuilder {
    const args: seq<DataType>
    const ret: DataType
    var blocks: seq<seq<Instr>>
    var currentBlock: nat
    var values: seq<Value>

    ghost predicate Valid()
      reads this
    {
      currentBlock < |blocks|
    }

    ghost function Built(): Draft
      reads this
    {
      Draft(Func(args, ret, blocks, values), currentBlock)
    }

    constructor (args: seq<DataType>, ret: DataType)
      ensures Valid() && Built() == NewDraft(args, ret)
    {
      this.args, this.ret := args, ret;
      blocks, currentBlock := [[]], 0;
      values := ArgValues(args);
    }

    method CreateBlock() returns (block: nat)
      requires Valid()
      modifies this
      ensures Valid() && Built() == Apply(old(Built()), Call.CreateBlock) && block == |old(blocks)|
      ensures blocks == old(blocks) + [[]] && currentBlock == old(currentBlock) && values == old(values)
    {
      block := |blocks|;
      blocks := blocks + [[]];
    }

    method GetArg(index: nat) returns (v: Value)
      requires index < |values|
      ensures v == values[index]
    {
      v := values[index];
    }

    method SetCurrent(block: nat)
      requires Valid() && block < |blocks|
      modifies this`currentBlock
      ensures Valid() && Built() == Apply(old(Built()), SetCurrentBlock(block)) && currentBlock == block
    {
      currentBlock := block;
    }

    method AppendInstr(i: Instr)
      requires Valid()
      modifies this`blocks
      ensures Valid() && Built() == Append(old(Built()), i)
    {
      blocks := blocks[currentBlock := blocks[currentBlock] + [i]];
    }

    method ConstInstr(kind: ConstKind, ty: DataType, imm: Word) returns (v: Value)
      requires Valid()
      modifies this`blocks, this`values
      ensures Valid() && Built() == Apply(old(Built()), AddConst(kind, ty, imm))
      ensures v == Value(|old(values)|, ty)
      ensures blocks == Extended(old(blocks), currentBlock, Const(kind, imm, v)) && values == old(values) + [v]
    {
      v := Value(|values|, ty);
      AppendInstr(Const(kind, imm, v));
      values := values + [v];
    }

    method OpInstr(op: BinOp, left: Value, right: Value) returns (v: Value)
      requires Valid()
      modifies this`blocks, this`values
      ensures Valid() && Built() == Apply(old(Built()), AddOp(op, left, right))
      ensures v == Value(|old(values)|, left.ty)
      ensures blocks == Extended(old(blocks), currentBlock, Op(op, left, right, v)) && values == old(values) + [v]
    {
      v := Value(|values|, left.ty);
      AppendInstr(Op(op, left, right, v));
      values := values + [v];
    }

    method NotInstr(arg: Value) returns (v: Value)
      requires Valid()
      modifies this`blocks, this`values
      ensures Valid() && Built() == Apply(old(Built()), AddNot(arg))
      ensures v == Value(|old(values)|, arg.ty)
      ensures blocks == Extended(old(blocks), currentBlock, Not(arg, v)) && values == old(values) + [v]
    {
      v := Value(|values|, arg.ty);
      AppendInstr(Not(arg, v));
      values := values + [v];
    }

    method LoadInstr(addr: Value, ty: DataType) returns (v: Value)
      requires Valid()
      modifies this`blocks, this`values
      ensures Valid() && Built() == Apply(old(Built()), AddLoad(addr, ty))
      ensures v == Value(|old(values)|, ty)
      ensures blocks == Extended(old(blocks), currentBlock, Load(addr, ty, v)) && values == old(values) + [v]
    {
      v := Value(|values|, ty);
      AppendInstr(Load(addr, ty, v));
      values := values + [v];
    }

    method CallFuncInstr(callee: nat, calleeRet: DataType, callArgs: seq<Value>) returns (v: Value)
      requires Valid()
      modifies this`blocks, this`values
      ensures Valid() && Built() == Apply(old(Built()), AddCallFunc(callee, calleeRet, callArgs))
      ensures v == Value(|old(values)|, calleeRet)
      ensures blocks == Extended(old(blocks), currentBlock, CallFunc(callee, callArgs, v)) && values == old(values) + [v]
    {
      v := Value(|values|, calleeRet);
      AppendInstr(CallFunc(callee, callArgs, v));
      values := values + [v];
    }

    method CallPtrInstr(calleeRet: DataType, callee: Value, callArgs: seq<Value>) returns (v: Value)
      requires Valid()
      modifies this`blocks, this`values
      ensures Valid() && Built() == Apply(old(Built()), AddCallPtr(calleeRet, callee, callArgs))
      ensures v == Value(|old(values)|, calleeRet)
      ensures blocks == Extended(old(blocks), currentBlock, CallPtr(callee, callArgs, v)) && values == old(values) + [v]
    {
      v := Value(|values|, calleeRet);
      AppendInstr(CallPtr(callee, callArgs, v));
      values := values + [v];
    }

    method StoreInstr(addr: Value, stored: Value)
      requires Valid()
      modifies this`blocks
      ensures Valid() && Built() == Apply(old(Built()), AddStore(addr, stored))
      ensures blocks == Extended(old(blocks), currentBlock, Store(addr, stored))
    {
      AppendInstr(Store(addr, stored));
    }

    method Branch(target: nat)
      requires Valid()
      modifies this`blocks
      ensures Valid() && Built() == Apply(old(Built()), AddBr(target))
      ensures blocks == Extended(old(blocks), currentBlock, Br(target))
    {
      AppendInstr(Br(target));
    }

    method CondBranch(cond: Value, onTrue: nat, onFalse: nat)
      requires Valid()
      modifies this`blocks
      ensures Valid() && Built() == Apply(old(Built()), AddCondBr(cond, onTrue, onFalse))
      ensures blocks == Extended(old(blocks), currentBlock, CondBr(cond, onTrue, onFalse))
    {
      AppendInstr(CondBr(cond, onTrue, onFalse));
    }

    method Return(result: Value)
      requires Valid()
      modifies this`blocks
      ensures Valid() && Built() == Apply(old(Built()), AddRet(result))
      ensures blocks == Extended(old(blocks), currentBlock, Ret(result))
    {
      AppendInstr(Ret(result));
    }

    method ReturnVoid()
      requires Valid()
      modifies this`blocks
      ensures Valid() && Built() == Apply(old(Built()), AddRetVoid)
      ensures blocks == Extended(old(blocks), currentBlock, RetVoid)
    {
      AppendInstr(RetVoid);
    }
  }

  /** A module holds the builders of its functions, in creation order. */
  class CowModule {
    var funcs: seq<CowBuilder>

    constructor ()
      ensures funcs == []
    {
      funcs := [];
    }

    ghost function Contents(): Module
      reads this, funcs
    {
      seq(|funcs|, k requires 0 <= k < |funcs| reads this, funcs => funcs[k].Built().func)
    }

    method CreateFunc(args: seq<DataType>, ret: DataType) returns (f: CowBuilder, index: nat)
      modifies this
      ensures fresh(f) && funcs == old(funcs) + [f] && index == |old(funcs)|
      ensures f.Valid() && f.Built() == NewDraft(args, ret)
      ensures f.args == args && f.ret == ret && f.blocks == [[]] && f.currentBlock == 0 && |f.values| == |args|
      ensures forall k :: 0 <= k < |args| ==> f.values[k] == Value(k, args[k])
    {
      f := new CowBuilder(args, ret);
      index := |funcs|;
      funcs := funcs + [f];
    }
  }
}

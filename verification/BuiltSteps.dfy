/** What every builder call adds does when the interpreter reaches it. */
module BuiltSteps {
  import opened Words
  import opened Ir
  import opened Interp
  import opened Opcodes
  import opened Builder

  /** s is about to execute what call c added to d, whatever calls were made later. */
  predicate AtAdded(env: Env, s: State, d: Draft, c: Call, later: seq<Call>) {
    && d.current < |d.func.blocks| && s.func < |env.m|
    && ApplyAll(Apply(d, c), later).Some? && env.m[s.func] == ApplyAll(Apply(d, c), later).value.func
    && s.block == d.current && s.index == |d.func.blocks[d.current]|
  }

  /** Later calls leave what was built where it was. */
  lemma {:induction false} BuiltStays(d: Draft, later: seq<Call>, b: nat, j: nat)
    requires ApplyAll(d, later).Some? && b < |d.func.blocks| && j < |d.func.blocks[b]|
    ensures var f := ApplyAll(d, later).value.func;
            b < |f.blocks| && j < |f.blocks[b]| && f.blocks[b][j] == d.func.blocks[b][j]
    decreases |later|
  {
    if |later| > 0 {
      BuiltStays(d, later[..|later| - 1], b, j);
    }
  }

  lemma AddedIsExecuted(env: Env, s: State, d: Draft, c: Call, later: seq<Call>)
    requires AtAdded(env, s, d, c, later) && Appended(d, c).Some?
    ensures Executes(env, s, Appended(d, c).value)
  {
    BuiltStays(Apply(d, c), later, s.block, s.index);
  }

  predicate AllInPool(s: State, vs: seq<Value>) {
    forall k :: 0 <= k < |vs| ==> InPool(s, vs[k])
  }

  /** An operator computes on its left and right operand, in this order, into the next value. */
  lemma AddedOperator(env: Env, s: State, d: Draft, later: seq<Call>, op: BinOp, l: Value, r: Value)
    requires AtAdded(env, s, d, AddOp(op, l, r), later) && AllInPool(s, [l, r, Value(|d.func.values|, l.ty)])
    ensures InPool(s, l) && InPool(s, r)
    ensures op == Add || op == Sub || op == Mul ==> Wraps(env, s, op, l, r, Value(|d.func.values|, l.ty))
    ensures op == Div || op == IDiv ==> Divides(env, s, l, r, Value(|d.func.values|, l.ty))
    ensures op.IsCompare() ==> Compares(env, s, op, l, r, Value(|d.func.values|, l.ty))
  {
    hide Wraps, Divides, Compares;
    var g := Value(|d.func.values|, l.ty);
    AddedIsExecuted(env, s, d, AddOp(op, l, r), later);
    assert [l, r, g][0] == l && [l, r, g][1] == r && [l, r, g][2] == g;
    if op == Add || op == Sub || op == Mul {
      ArithmeticStep(env, s, op, l, r, g);
    } else if op == Div || op == IDiv {
      DivisionStep(env, s, op, l, r, g);
    } else {
      ComparisonStep(env, s, op, l, r, g);
    }
  }

  lemma AddedConst(env: Env, s: State, d: Draft, later: seq<Call>, kind: ConstKind, ty: DataType, imm: Word)
    requires AtAdded(env, s, d, AddConst(kind, ty, imm), later) && InPool(s, Value(|d.func.values|, ty))
    ensures Places(env, s, kind, imm, Value(|d.func.values|, ty))
  {
    hide Places;
    AddedIsExecuted(env, s, d, AddConst(kind, ty, imm), later);
    ConstStep(env, s, kind, imm, Value(|d.func.values|, ty));
  }

  lemma AddedNot(env: Env, s: State, d: Draft, later: seq<Call>, a: Value)
    requires AtAdded(env, s, d, AddNot(a), later) && InPool(s, a) && InPool(s, Value(|d.func.values|, a.ty))
    ensures Negates(env, s, a, Value(|d.func.values|, a.ty))
  {
    hide Negates;
    AddedIsExecuted(env, s, d, AddNot(a), later);
    NotStep(env, s, a, Value(|d.func.values|, a.ty));
  }

  /** A load reads at the address in a's slot with the requested type. */
  lemma AddedLoad(env: Env, s: State, d: Draft, later: seq<Call>, a: Value, ty: DataType)
    requires AtAdded(env, s, d, AddLoad(a, ty), later) && InPool(s, a) && InPool(s, Value(|d.func.values|, ty))
    ensures Loads(env, s, a, ty, Value(|d.func.values|, ty))
  {
    hide Loads;
    AddedIsExecuted(env, s, d, AddLoad(a, ty), later);
    LoadStep(env, s, a, ty, Value(|d.func.values|, ty));
  }

  /** A store writes v's slot at the address in a's slot. */
  lemma AddedStore(env: Env, s: State, d: Draft, later: seq<Call>, a: Value, v: Value)
    requires AtAdded(env, s, d, AddStore(a, v), later) && InPool(s, a) && InPool(s, v)
    ensures Stores(env, s, a, v)
  {
    hide Stores;
    AddedIsExecuted(env, s, d, AddStore(a, v), later);
    StoreStep(env, s, a, v);
  }

  lemma AddedCallPtr(env: Env, s: State, d: Draft, later: seq<Call>, ret: DataType, callee: Value, args: seq<Value>)
    requires AtAdded(env, s, d, AddCallPtr(ret, callee, args), later)
    ensures Step(env, s) == Running(s.(index := s.index + 1, clock := s.clock + 1))
  {
    AddedIsExecuted(env, s, d, AddCallPtr(ret, callee, args), later);
    CallPtrStep(env, s, callee, args, Value(|d.func.values|, ret));
  }

  /** A call enters the function named with the arguments in order, to return into the next value. */
  lemma AddedCallFunc(env: Env, s: State, d: Draft, later: seq<Call>, target: nat, ret: DataType, args: seq<Value>)
    requires AtAdded(env, s, d, AddCallFunc(target, ret, args), later) && CanCall(env, s, target, args)
    ensures Enters(env, s, target, args, Value(|d.func.values|, ret))
  {
    hide Enters, CanCall;
    AddedIsExecuted(env, s, d, AddCallFunc(target, ret, args), later);
    CallStep(env, s, target, args, Value(|d.func.values|, ret));
  }

  lemma AddedBranch(env: Env, s: State, d: Draft, later: seq<Call>, target: nat)
    requires AtAdded(env, s, d, AddBr(target), later)
    ensures Jumps(env, s, target)
  {
    hide Jumps;
    AddedIsExecuted(env, s, d, AddBr(target), later);
    BranchStep(env, s, Br(target));
  }

  /** A conditional branch goes to its first block when the condition holds, otherwise to its second. */
  lemma AddedCondBranch(env: Env, s: State, d: Draft, later: seq<Call>, c: Value, onTrue: nat, onFalse: nat)
    requires AtAdded(env, s, d, AddCondBr(c, onTrue, onFalse), later) && InPool(s, c)
    ensures Chooses(env, s, c, onTrue, onFalse)
  {
    hide Chooses;
    AddedIsExecuted(env, s, d, AddCondBr(c, onTrue, onFalse), later);
    BranchStep(env, s, CondBr(c, onTrue, onFalse));
  }

  lemma AddedReturn(env: Env, s: State, d: Draft, later: seq<Call>, v: Value)
    requires AtAdded(env, s, d, AddRet(v), later) && InPool(s, v)
    ensures GivesBack(env, s, v)
  {
    hide GivesBack;
    AddedIsExecuted(env, s, d, AddRet(v), later);
    RetStep(env, s, v);
  }

  lemma AddedReturnVoid(env: Env, s: State, d: Draft, later: seq<Call>)
    requires AtAdded(env, s, d, AddRetVoid, later)
    ensures Step(env, s) == if |s.frames| == 0 then Returned(0, s.mem) else Stop(VoidResult)
  {
    AddedIsExecuted(env, s, d, AddRetVoid, later);
    RetVoidStep(env, s);
  }
}

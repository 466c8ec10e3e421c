/**
  Bits that C leaves unspecified never matter in a module with a width typing: two runs whose
  unspecified bits differ in any way stay in lockstep and agree on every determined bit.
*/
module Lockstep {
  import opened Words
  import opened Ir
  import opened Interp
  import opened Activation
  import opened Refinement
  import opened Definite
  import opened Interpretation

  /** How many low bits of each register, and of each function's result, are determined. */
  datatype Typing = Typing(width: (nat, nat) -> Width, ret: nat -> Width)

  predicate Full(ty: Typing, f: nat, v: Value) {
    ty.width(f, v.id) == Bits64
  }

  function LoadWidth(k: Width): Width {
    if k == Bits16 then Bits32 else k
  }

  predicate TypedOp(ty: Typing, f: nat, op: BinOp, l: Value, r: Value, g: Value) {
    if op.IsCompare() then Full(ty, f, l) && Full(ty, f, r) && ty.width(f, g.id) == Bits8
    else if op.IsDivide() then Full(ty, f, l) && Full(ty, f, r)
    else ty.width(f, g.id).AtMost(ty.width(f, l.id)) && ty.width(f, g.id).AtMost(ty.width(f, r.id))
  }

  predicate TypedInstr(m: Module, ty: Typing, f: nat, i: Instr) {
    match i
    case Const(kind, _, g) => ty.width(f, g.id).AtMost(kind.Determines())
    case Op(op, l, r, g) => TypedOp(ty, f, op, l, r, g)
    case Not(a, _) => Full(ty, f, a)
    case Load(a, t, g) =>
      Full(ty, f, a) && (AccessWidth(t).Some? ==> ty.width(f, g.id).AtMost(LoadWidth(AccessWidth(t).value)))
    case Store(a, s) =>
      Full(ty, f, a) && (AccessWidth(s.ty).Some? ==> AccessWidth(s.ty).value.AtMost(ty.width(f, s.id)))
    case CallFunc(g, args, gen) =>
      && (g < |m| && |m[g].args| <= |args| ==>
            forall k :: 0 <= k < |m[g].args| ==> ty.width(g, k).AtMost(ty.width(f, args[k].id)))
      && ty.width(f, gen.id).AtMost(ty.ret(g))
    case Ret(v) => ty.ret(f).AtMost(ty.width(f, v.id))
    case _ => true
  }

  ghost predicate Typed(m: Module, ty: Typing) {
    forall f: nat, b: nat, j: nat :: At(m, f, b, j) ==> TypedInstr(m, ty, f, InstrAt(m, f, b, j))
  }

  // ----- the relation -----

  ghost predicate SameRegs(ty: Typing, f: nat, p: map<nat, Word>, q: map<nat, Word>) {
    p.Keys == q.Keys && forall k :: k in p ==> Agree(ty.width(f, k), p[k], q[k])
  }

  ghost predicate SameAct(ty: Typing, a: Act, b: Act) {
    a.func == b.func && a.block == b.block && a.index == b.index && a.room == b.room
    && SameRegs(ty, a.func, a.regs, b.regs)
  }

  ghost predicate SameCaller(ty: Typing, c: Caller, d: Caller, callee: nat) {
    SameAct(ty, c.act, d.act) && c.gen == d.gen && ty.width(c.act.func, c.gen).AtMost(ty.ret(callee))
  }

  function CalleeOf(r: Stack, k: nat): nat
    requires k < |r.callers|
  {
    if k + 1 < |r.callers| then r.callers[k + 1].act.func else r.cur.func
  }

  /** Same control, same memory, registers equal on their determined bits. */
  ghost predicate InStep(ty: Typing, p: Stack, q: Stack) {
    && SameAct(ty, p.cur, q.cur) && p.mem == q.mem && p.clock == q.clock
    && |p.callers| == |q.callers|
    && (forall k :: 0 <= k < |p.callers| ==> SameCaller(ty, p.callers[k], q.callers[k], CalleeOf(p, k)))
  }

  ghost predicate SameData(k: Width, d: DataResult, e: DataResult) {
    match d
    case Wrote(w) => e.Wrote? && Agree(k, w, e.w)
    case _ => d == e
  }

  // ----- one instruction -----

  lemma FullMeansEqual(a: Word, b: Word)
    requires Agree(Bits64, a, b)
    ensures a == b
  {
  }

  lemma BinResultsAgree(k: Width, op: BinOp, a: Word, b: Word, c: Word, d: Word, junk: Word, junk': Word)
    requires if op.IsCompare() then k == Bits8 && a == c && b == d
             else if op.IsDivide() then a == c && b == d
             else Agree(k, a, c) && Agree(k, b, d)
    ensures SameData(k, BinResult(op, a, b, junk), BinResult(op, c, d, junk'))
  {
    if !op.IsCompare() && !op.IsDivide() {
      AgreeArithmetic(k, a, b, c, d);
      WrapAgrees(k, a + b);
      WrapAgrees(k, c + d);
      WrapAgrees(k, a - b);
      WrapAgrees(k, c - d);
      WrapAgrees(k, a * b);
      WrapAgrees(k, c * d);
    }
  }

  lemma LoadsAgree(k: Width, mem: Memory, addr: Word, t: DataType, junk: Word, junk': Word)
    requires AccessWidth(t).Some? ==> k.AtMost(LoadWidth(AccessWidth(t).value))
    ensures SameData(k, LoadFrom(mem, addr, t, junk), LoadFrom(mem, addr, t, junk'))
  {
    var d, e := LoadFrom(mem, addr, t, junk), LoadFrom(mem, addr, t, junk');
    if d.Wrote? {
      AgreeWeaken(k, LoadWidth(AccessWidth(t).value), d.w, e.w);
    }
  }

  lemma StoresAgree(j: Width, mem: Memory, addr: Word, t: DataType, v: Word, w: Word)
    requires Agree(j, v, w) && (AccessWidth(t).Some? ==> AccessWidth(t).value.AtMost(j))
    ensures StoreTo(mem, addr, t, v) == StoreTo(mem, addr, t, w)
  {
    if AccessWidth(t).Some? {
      var k := AccessWidth(t).value;
      AgreeWeaken(k, j, v, w);
      Pow256Values();
      SameLE(k.Bytes(), v, w);
    }
  }

  predicate OperandsAgree(ty: Typing, f: nat, ids: seq<nat>, v: seq<Word>, w: seq<Word>) {
    |v| == |ids| && |w| == |ids| && forall k :: 0 <= k < |ids| ==> Agree(ty.width(f, ids[k]), v[k], w[k])
  }

  lemma OpAgrees(ty: Typing, f: nat, i: Instr, v: seq<Word>, w: seq<Word>, junk: Word, junk': Word)
    requires i.Op? && TypedOp(ty, f, i.op, i.left, i.right, i.gen) && OperandsAgree(ty, f, DataUses(i), v, w)
    ensures SameData(ty.width(f, i.gen.id), BinResult(i.op, v[0], v[1], junk), BinResult(i.op, w[0], w[1], junk'))
  {
    var k := ty.width(f, i.gen.id);
    assert DataUses(i)[0] == i.left.id && DataUses(i)[1] == i.right.id;
    if i.op.IsCompare() || i.op.IsDivide() {
      FullMeansEqual(v[0], w[0]);
      FullMeansEqual(v[1], w[1]);
    } else {
      AgreeWeaken(k, ty.width(f, i.left.id), v[0], w[0]);
      AgreeWeaken(k, ty.width(f, i.right.id), v[1], w[1]);
    }
    BinResultsAgree(k, i.op, v[0], v[1], w[0], w[1], junk, junk');
  }

  lemma MemoryAgrees(m: Module, ty: Typing, f: nat, i: Instr, v: seq<Word>, w: seq<Word>, mem: Memory, junk: Word, junk': Word)
    requires (i.Load? || i.Store?) && TypedInstr(m, ty, f, i) && OperandsAgree(ty, f, DataUses(i), v, w)
    ensures var k := if i.HasGen() then ty.width(f, i.gen.id) else Bits64;
            SameData(k, DataStep(i, v, mem, junk), DataStep(i, w, mem, junk'))
  {
    assert DataUses(i)[0] == i.addr.id;
    FullMeansEqual(v[0], w[0]);
    if i.Load? {
      LoadsAgree(ty.width(f, i.gen.id), mem, v[0], i.ty, junk, junk');
    } else {
      assert DataUses(i)[1] == i.stored.id;
      StoresAgree(ty.width(f, i.stored.id), mem, v[0], i.stored.ty, v[1], w[1]);
    }
  }

  lemma DataAgrees(m: Module, ty: Typing, f: nat, i: Instr, v: seq<Word>, w: seq<Word>, mem: Memory, junk: Word, junk': Word)
    requires i.IsData() && TypedInstr(m, ty, f, i) && OperandsAgree(ty, f, DataUses(i), v, w)
    ensures var k := if i.HasGen() then ty.width(f, i.gen.id) else Bits64;
            SameData(k, DataStep(i, v, mem, junk), DataStep(i, w, mem, junk'))
  {
    match i
    case Const(kind, imm, g) =>
      AgreeWeaken(ty.width(f, g.id), kind.Determines(),
                  Narrow(kind.Determines(), imm, junk), Narrow(kind.Determines(), imm, junk'));
    case Op(_, _, _, _) => OpAgrees(ty, f, i, v, w, junk, junk');
    case Not(a, _) =>
      assert DataUses(i)[0] == a.id;
      FullMeansEqual(v[0], w[0]);
    case Load(_, _, _) => MemoryAgrees(m, ty, f, i, v, w, mem, junk, junk');
    case Store(_, _) => MemoryAgrees(m, ty, f, i, v, w, mem, junk, junk');
    case CallPtr(_, _, _) =>
  }

  lemma ReadsAgree(ty: Typing, a: Act, b: Act, ids: seq<nat>)
    requires SameAct(ty, a, b)
    ensures match ReadRegs(a, ids)
            case Bad(f) => ReadRegs(b, ids) == Bad(f)
            case Got(v) => ReadRegs(b, ids).Got? && OperandsAgree(ty, a.func, ids, v, ReadRegs(b, ids).v)
  {
    assert forall k :: 0 <= k < |ids| ==> (ids[k] in a.regs <==> ids[k] in b.regs);
  }

  /** Two moves of related activations: the same kind, with related contents. */
  ghost predicate SameMove(ty: Typing, a: Act, p: Move, q: Move) {
    match p
    case Traps(f) => q == Traps(f)
    case ReturnsVoid => q.ReturnsVoid?
    case Returns(w) => q.Returns? && Agree(ty.ret(a.func), w, q.w)
    case Goes(act, mem) => q.Goes? && SameAct(ty, act, q.act) && mem == q.mem && act.func == a.func
    case Calls(callee, gen) =>
      q.Calls? && SameAct(ty, callee, q.callee) && gen == q.gen && ty.width(a.func, gen).AtMost(ty.ret(callee.func))
  }

  lemma CommitAgrees(ty: Typing, i: Instr, a: Act, b: Act, mem: Memory, d: DataResult, e: DataResult)
    requires SameAct(ty, a, b)
    requires SameData(if i.HasGen() then ty.width(a.func, i.gen.id) else Bits64, d, e)
    ensures SameMove(ty, a, CommitAct(i, a, mem, d), CommitAct(i, b, mem, e))
  {
  }

  lemma DataMovesAgree(m: Module, ty: Typing, i: Instr, a: Act, b: Act, mem: Memory, junk: Word, junk': Word)
    requires i.IsData() && TypedInstr(m, ty, a.func, i) && SameAct(ty, a, b)
    ensures SameMove(ty, a, DecideData(i, a, mem, junk), DecideData(i, b, mem, junk'))
  {
    ReadsAgree(ty, a, b, DataUses(i));
    match ReadRegs(a, DataUses(i))
    case Bad(_) =>
    case Got(v) =>
      var w := ReadRegs(b, DataUses(i)).v;
      DataAgrees(m, ty, a.func, i, v, w, mem, junk, junk');
      CommitAgrees(ty, i, a, b, mem, DataStep(i, v, mem, junk), DataStep(i, w, mem, junk'));
  }

  lemma EntersAgree(m: Module, ty: Typing, i: Instr, a: Act, b: Act, room: int)
    requires i.CallFunc? && TypedInstr(m, ty, a.func, i) && SameAct(ty, a, b)
    requires i.func < |m| && |m[i.func].args| <= |i.args|
    ensures var ids := Ids(i.args[..|m[i.func].args|]);
            SameMove(ty, a, Enter(i, room, ReadRegs(a, ids)), Enter(i, room, ReadRegs(b, ids)))
  {
    var ids := Ids(i.args[..|m[i.func].args|]);
    ReadsAgree(ty, a, b, ids);
    if ReadRegs(a, ids).Got? {
      var v, w := ReadRegs(a, ids).v, ReadRegs(b, ids).v;
      forall k | 0 <= k < |ids|
        ensures Agree(ty.width(i.func, k), v[k], w[k])
      {
        assert ids[k] == i.args[k].id;
        AgreeWeaken(ty.width(i.func, k), ty.width(a.func, ids[k]), v[k], w[k]);
      }
    }
  }

  lemma MovesAgree(env: Env, env': Env, ty: Typing, depth: nat, a: Act, b: Act, mem: Memory, junk: Word, junk': Word)
    requires Typed(env.m, ty) && env'.m == env.m && env'.frameCap == env.frameCap && SameAct(ty, a, b)
    ensures SameMove(ty, a, Decide(env, depth, a, mem, junk), Decide(env', depth, b, mem, junk'))
  {
    hide DecideData;
    if At(env.m, a.func, a.block, a.index) {
      var i := InstrAt(env.m, a.func, a.block, a.index);
      assert TypedInstr(env.m, ty, a.func, i);
      match i
      case Br(_) =>
      case RetVoid =>
      case CondBr(c, _, _) => ConditionsAgree(ty, a, b, c.id);
      case Ret(v) => ResultsAgree(ty, a, b, v.id);
      case CallFunc(g, args, _) =>
        if g < |env.m| && |env.m[g].args| <= |args| {
          EntersAgree(env.m, ty, i, a, b, a.room - |env.m[g].values|);
        }
      case _ => DataMovesAgree(env.m, ty, i, a, b, mem, junk, junk');
    }
  }

  lemma ConditionsAgree(ty: Typing, a: Act, b: Act, id: nat)
    requires SameAct(ty, a, b)
    ensures match ReadRegs(a, [id])
            case Bad(f) => ReadRegs(b, [id]) == Bad(f)
            case Got(v) => ReadRegs(b, [id]).Got? && v[0] % 0x100 == ReadRegs(b, [id]).v[0] % 0x100
  {
    assert [id][0] == id;
    ReadsAgree(ty, a, b, [id]);
    if ReadRegs(a, [id]).Got? {
      AgreeWeaken(Bits8, ty.width(a.func, id), ReadRegs(a, [id]).v[0], ReadRegs(b, [id]).v[0]);
    }
  }

  lemma ResultsAgree(ty: Typing, a: Act, b: Act, id: nat)
    requires SameAct(ty, a, b) && ty.ret(a.func).AtMost(ty.width(a.func, id))
    ensures match ReadRegs(a, [id])
            case Bad(f) => ReadRegs(b, [id]) == Bad(f)
            case Got(v) => ReadRegs(b, [id]).Got? && Agree(ty.ret(a.func), v[0], ReadRegs(b, [id]).v[0])
  {
    assert [id][0] == id;
    ReadsAgree(ty, a, b, [id]);
    if ReadRegs(a, [id]).Got? {
      AgreeWeaken(ty.ret(a.func), ty.width(a.func, id), ReadRegs(a, [id]).v[0], ReadRegs(b, [id]).v[0]);
    }
  }

  // ----- whole runs -----

  ghost predicate SameOutcome(ty: Typing, entry: nat, o: Outcome<Stack>, o': Outcome<Stack>) {
    match o
    case Running(p) => o'.Running? && InStep(ty, p, o'.s) && EntryOf(p) == entry
    case Returned(w, mem) => o'.Returned? && Agree(ty.ret(entry), w, o'.w) && mem == o'.mem
    case Stop(f) => o' == Stop(f)
  }

  function EntryOf(p: Stack): nat {
    if |p.callers| == 0 then p.cur.func else p.callers[0].act.func
  }

  lemma FollowAgrees(ty: Typing, p: Stack, q: Stack, move: Move, move': Move)
    requires InStep(ty, p, q) && SameMove(ty, p.cur, move, move')
    ensures SameOutcome(ty, EntryOf(p), Follow(p, move), Follow(q, move'))
  {
    var n := |p.callers|;
    match move
    case Traps(_) =>
    case ReturnsVoid =>
    case Goes(_, _) =>
    case Calls(_, _) => PushInStep(ty, p, q, move, move');
    case Returns(w) =>
      if n > 0 {
        assert SameCaller(ty, p.callers[n - 1], q.callers[n - 1], CalleeOf(p, n - 1));
        if p.callers[n - 1].gen < p.callers[n - 1].act.room {
          PopInStep(ty, p, q, w, move'.w);
        }
      }
  }

  lemma PushInStep(ty: Typing, p: Stack, q: Stack, move: Move, move': Move)
    requires InStep(ty, p, q) && SameMove(ty, p.cur, move, move') && move.Calls?
    ensures InStep(ty, Follow(p, move).s, Follow(q, move').s) && EntryOf(Follow(p, move).s) == EntryOf(p)
  {
    var p', q' := Follow(p, move).s, Follow(q, move').s;
    forall k | 0 <= k < |p'.callers|
      ensures SameCaller(ty, p'.callers[k], q'.callers[k], CalleeOf(p', k))
    {
      if k < |p.callers| {
        assert SameCaller(ty, p.callers[k], q.callers[k], CalleeOf(p, k));
      }
    }
  }

  lemma DeliversAgree(ty: Typing, c: Caller, d: Caller, callee: nat, w: Word, w': Word)
    requires SameCaller(ty, c, d, callee) && Agree(ty.ret(callee), w, w')
    ensures SameAct(ty, Deliver(c.act, c.gen, w), Deliver(d.act, d.gen, w'))
  {
    AgreeWeaken(ty.width(c.act.func, c.gen), ty.ret(callee), w, w');
  }

  lemma PopInStep(ty: Typing, p: Stack, q: Stack, w: Word, w': Word)
    requires InStep(ty, p, q) && |p.callers| > 0 && Agree(ty.ret(p.cur.func), w, w')
    ensures var n := |p.callers| - 1;
            var c, d := p.callers[n], q.callers[n];
            var p' := Stack(Deliver(c.act, c.gen, w), p.callers[..n], p.mem, p.clock + 1);
            InStep(ty, p', Stack(Deliver(d.act, d.gen, w'), q.callers[..n], q.mem, q.clock + 1))
            && EntryOf(p') == EntryOf(p)
  {
    hide Agree, SameAct;
    var n := |p.callers| - 1;
    var c, d := p.callers[n], q.callers[n];
    assert SameCaller(ty, c, d, CalleeOf(p, n));
    DeliversAgree(ty, c, d, p.cur.func, w, w');
    var p' := Stack(Deliver(c.act, c.gen, w), p.callers[..n], p.mem, p.clock + 1);
    forall k | 0 <= k < n
      ensures SameCaller(ty, p.callers[k], q.callers[k], CalleeOf(p', k))
    {
      assert SameCaller(ty, p.callers[k], q.callers[k], CalleeOf(p, k));
    }
  }

  lemma {:induction false} RunsAgree(env: Env, env': Env, ty: Typing, p: Stack, q: Stack, limit: nat)
    requires Typed(env.m, ty) && env'.m == env.m && env'.frameCap == env.frameCap && InStep(ty, p, q)
    ensures SameOutcome(ty, EntryOf(p), StackRun(env, p, limit), StackRun(env', q, limit))
    decreases limit - p.clock
  {
    if p.clock < limit {
      MovesAgree(env, env', ty, |p.callers|, p.cur, q.cur, p.mem, env.junk(p.clock), env'.junk(p.clock));
      FollowAgrees(ty, p, q, Decide(env, |p.callers|, p.cur, p.mem, env.junk(p.clock)),
                   Decide(env', |p.callers|, q.cur, p.mem, env'.junk(p.clock)));
      if StackStep(env, p).Running? {
        RunsAgree(env, env', ty, StackStep(env, p).s, StackStep(env', q).s, limit);
      }
    }
  }

  /** What two interpretations share: position, or fault, or memory and determined result bits. */
  ghost predicate Indistinct(ty: Typing, entry: nat, o: Outcome<State>, o': Outcome<State>) {
    match o
    case Running(s) =>
      && o'.Running?
      && s.func == o'.s.func && s.block == o'.s.block && s.index == o'.s.index && s.base == o'.s.base
      && s.frames == o'.s.frames && s.mem == o'.s.mem
    case Returned(w, mem) => o'.Returned? && Agree(ty.ret(entry), w, o'.w) && mem == o'.mem
    case Stop(f) => o' == Stop(f)
  }

  lemma SamePlace(m: Module, ty: Typing, s: State, s': State, p: Stack, q: Stack)
    requires Represents(m, s, p) && Represents(m, s', q) && InStep(ty, p, q) && |s.pool| == |s'.pool|
    ensures s.func == s'.func && s.block == s'.block && s.index == s'.index && s.base == s'.base
    ensures s.frames == s'.frames && s.mem == s'.mem
  {
    forall k | 0 <= k < |s.frames|
      ensures s.frames[k] == s'.frames[k]
    {
      assert FrameOf(m, p.callers[k], s.frames[k], s.pool);
      assert FrameOf(m, q.callers[k], s'.frames[k], s'.pool);
      assert SameCaller(ty, p.callers[k], q.callers[k], CalleeOf(p, k));
    }
  }

  /**
    Two interpretations of the same function, started on pools with any contents and arguments equal
    on their determined bits, with any choice of unspecified bits: after every number of iterations
    they are at the same place with the same memory, or have failed alike, or have returned results
    equal on their determined bits.
  */
  lemma UnspecifiedBitsNeverMatter(env: Env, env': Env, cert: Cert, ty: Typing, func: nat,
                                   values: seq<Word>, values': seq<Word>, pool: seq<Word>, pool': seq<Word>,
                                   mem: Memory, limit: nat)
    requires Windowed(env.m) && ArgsFit(env.m) && Certified(env.m, cert) && Typed(env.m, ty)
    requires env'.m == env.m && env'.frameCap == env.frameCap && |pool'| == |pool|
    requires |values'| == |values|
    requires forall k :: 0 <= k < |values| ==> Agree(ty.width(func, k), values[k], values'[k])
    ensures Indistinct(ty, func, EvalFunc(env, func, values, pool, mem, limit),
                       EvalFunc(env', func, values', pool', mem, limit))
  {
    var s, s' := Start(env, func, values, pool, mem), Start(env', func, values', pool', mem);
    if s.Running? {
      var p := Stack(FirstAct(env.m, func, values, |pool|), [], mem, 0);
      var q := Stack(FirstAct(env.m, func, values', |pool|), [], mem, 0);
      RunsAgree(env, env', ty, p, q, limit);
      RunRefines(env, s.s, p, limit);
      RunRefines(env', s'.s, q, limit);
      NeverUninit(env, cert, p, limit);
      RunPoolSize(env, s.s, limit);
      RunPoolSize(env', s'.s, limit);
      if StackRun(env, p, limit).Running? {
        SamePlace(env.m, ty, Run(env, s.s, limit).s, Run(env', s'.s, limit).s,
                  StackRun(env, p, limit).s, StackRun(env', q, limit).s);
      }
    }
  }
}

/**
  Definite assignment: a certificate names, for every block, ids that hold a value on every
  path to it. A module with a certificate never reads a register that was not written.
*/
module Definite {
  import opened Words
  import opened Ir
  import opened Interp
  import opened Activation

  type Cert = seq<seq<set<nat>>>

  /** The id an instruction is sure to write. */
  function Written(i: Instr): set<nat> {
    match i
    case Const(_, _, g) => {g.id}
    case Op(_, _, _, g) => {g.id}
    case Not(_, g) => {g.id}
    case Load(_, ty, g) => if AccessWidth(ty).Some? then {g.id} else {}
    case CallFunc(_, _, g) => {g.id}
    case _ => {}
  }

  function DefinedAfter(entry: set<nat>, block: seq<Instr>, index: nat): set<nat>
    requires index <= |block|
  {
    if index == 0 then entry else DefinedAfter(entry, block, index - 1) + Written(block[index - 1])
  }

  predicate Shaped(m: Module, cert: Cert) {
    |cert| == |m| && forall f :: 0 <= f < |m| ==> |cert[f]| == |m[f].blocks|
  }

  function DefinedAt(m: Module, cert: Cert, f: nat, b: nat, j: nat): set<nat>
    requires Shaped(m, cert) && f < |m| && b < |m[f].blocks| && j <= |m[f].blocks[b]|
  {
    DefinedAfter(cert[f][b], m[f].blocks[b], j)
  }

  predicate AllIn(ids: seq<nat>, defined: set<nat>) {
    forall k :: 0 <= k < |ids| ==> ids[k] in defined
  }

  predicate EntryWithin(entries: seq<set<nat>>, b: nat, defined: set<nat>) {
    b < |entries| ==> entries[b] <= defined
  }

  /** An instruction reads defined ids only and branches to blocks that assume no more. */
  predicate DefiniteInstr(m: Module, entries: seq<set<nat>>, i: Instr, defined: set<nat>) {
    match i
    case Br(t) => EntryWithin(entries, t, defined)
    case CondBr(c, t, f) => c.id in defined && EntryWithin(entries, t, defined) && EntryWithin(entries, f, defined)
    case CallFunc(g, args, _) =>
      g < |m| && |m[g].args| <= |args| ==> AllIn(Ids(args[..|m[g].args|]), defined)
    case Ret(v) => v.id in defined
    case RetVoid => true
    case _ => AllIn(DataUses(i), defined)
  }

  ghost predicate Certified(m: Module, cert: Cert) {
    && Shaped(m, cert)
    && (forall f :: 0 <= f < |m| && |m[f].blocks| > 0 ==>
          forall k :: k in cert[f][0] ==> k < |m[f].args|)
    && (forall f: nat, b: nat, j: nat :: At(m, f, b, j) ==>
          DefiniteInstr(m, cert[f], InstrAt(m, f, b, j), DefinedAt(m, cert, f, b, j)))
  }

  /** The registers set at act's position include every id the certificate promises there. */
  ghost predicate Holds(m: Module, cert: Cert, act: Act)
    requires Shaped(m, cert)
  {
    act.func < |m| && act.block < |m[act.func].blocks| && act.index <= |m[act.func].blocks[act.block]| ==>
      DefinedAt(m, cert, act.func, act.block, act.index) <= act.regs.Keys
  }

  /** A suspended caller holds what its call needs once the result arrives. */
  ghost predicate Waiting(m: Module, cert: Cert, c: Caller)
    requires Shaped(m, cert)
  {
    && At(m, c.act.func, c.act.block, c.act.index)
    && Written(InstrAt(m, c.act.func, c.act.block, c.act.index)) == {c.gen}
    && Holds(m, cert, c.act)
  }

  ghost predicate Initialized(m: Module, cert: Cert, r: Stack)
    requires Shaped(m, cert)
  {
    Holds(m, cert, r.cur) && forall k :: 0 <= k < |r.callers| ==> Waiting(m, cert, r.callers[k])
  }

  lemma ReadsDefined(act: Act, ids: seq<nat>, defined: set<nat>)
    requires AllIn(ids, defined) && defined <= act.regs.Keys
    ensures ReadRegs(act, ids) != Bad(Uninit)
  {
  }

  lemma DataKeepsDefinite(env: Env, cert: Cert, act: Act, i: Instr, mem: Memory, junk: Word)
    requires Shaped(env.m, cert) && Holds(env.m, cert, act) && At(env.m, act.func, act.block, act.index)
    requires i == InstrAt(env.m, act.func, act.block, act.index) && i.IsData()
    requires DefiniteInstr(env.m, cert[act.func], i, DefinedAt(env.m, cert, act.func, act.block, act.index))
    ensures var d := DecideData(i, act, mem, junk);
            d != Traps(Uninit) && (d.Goes? ==> Holds(env.m, cert, d.act))
  {
    var defined := DefinedAt(env.m, cert, act.func, act.block, act.index);
    ReadsDefined(act, DataUses(i), defined);
    var d := DecideData(i, act, mem, junk);
    if d.Goes? {
      assert Written(i) <= d.act.regs.Keys;
    }
  }

  /** What one instruction asks for never depends on an unset register, and keeps the promise. */
  lemma DecideStaysDefinite(env: Env, cert: Cert, depth: nat, act: Act, mem: Memory, junk: Word)
    requires Certified(env.m, cert) && Holds(env.m, cert, act)
    ensures var d := Decide(env, depth, act, mem, junk);
            && d != Traps(Uninit)
            && (d.Goes? ==> Holds(env.m, cert, d.act))
            && (d.Calls? ==> Holds(env.m, cert, d.callee) && Waiting(env.m, cert, Caller(act, d.gen)))
  {
    hide DataUses;
    var m := env.m;
    if At(m, act.func, act.block, act.index) {
      var i := InstrAt(m, act.func, act.block, act.index);
      var defined := DefinedAt(m, cert, act.func, act.block, act.index);
      assert DefiniteInstr(m, cert[act.func], i, defined);
      match i
      case Br(_) =>
      case CondBr(c, _, _) => ReadsDefined(act, [c.id], defined);
      case Ret(v) => ReadsDefined(act, [v.id], defined);
      case RetVoid =>
      case CallFunc(g, args, _) => CallStaysDefinite(env, cert, depth, act, i, defined);
      case _ => DataKeepsDefinite(env, cert, act, i, mem, junk);
    }
  }

  lemma CallStaysDefinite(env: Env, cert: Cert, depth: nat, act: Act, i: Instr, defined: set<nat>)
    requires Certified(env.m, cert) && defined <= act.regs.Keys
    requires act.func < |env.m| && i.CallFunc? && DefiniteInstr(env.m, cert[act.func], i, defined)
    ensures var d := DecideCall(env, depth, i, act);
            d != Traps(Uninit) && (d.Calls? ==> Holds(env.m, cert, d.callee))
  {
    if i.func < |env.m| && |env.m[i.func].args| <= |i.args| {
      ReadsDefined(act, Ids(i.args[..|env.m[i.func].args|]), defined);
    }
  }

  /** One step never reads an unset register and keeps the promise in every activation. */
  lemma StepStaysDefinite(env: Env, cert: Cert, r: Stack)
    requires Certified(env.m, cert) && Initialized(env.m, cert, r)
    ensures var o := StackStep(env, r);
            o != Stop(Uninit) && (o.Running? ==> Initialized(env.m, cert, o.s))
  {
    hide Decide, Holds;
    DecideStaysDefinite(env, cert, |r.callers|, r.cur, r.mem, env.junk(r.clock));
    var o := StackStep(env, r);
    if o.Running? && |o.s.callers| < |r.callers| {
      DeliverStaysDefinite(env.m, cert, r.callers[|r.callers| - 1], o.s.cur.regs[r.callers[|r.callers| - 1].gen]);
    }
  }

  lemma DeliverStaysDefinite(m: Module, cert: Cert, c: Caller, w: Word)
    requires Shaped(m, cert) && Waiting(m, cert, c)
    ensures Holds(m, cert, Deliver(c.act, c.gen, w))
  {
  }

  lemma {:induction false} NeverUninit(env: Env, cert: Cert, r: Stack, limit: nat)
    requires Certified(env.m, cert) && Initialized(env.m, cert, r)
    ensures StackRun(env, r, limit) != Stop(Uninit)
    decreases limit - r.clock
  {
    if r.clock < limit {
      StepStaysDefinite(env, cert, r);
      if StackStep(env, r).Running? {
        NeverUninit(env, cert, StackStep(env, r).s, limit);
      }
    }
  }
}

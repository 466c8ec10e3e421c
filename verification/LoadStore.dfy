/** Loads read back what stores wrote, in any run, as long as no store in between touches the bytes. */
module LoadStore {
  import opened Words
  import opened Ir
  import opened Interp
  import opened Opcodes

  /** The bytes that a load or store of this type moves. */
  function AccessSize(ty: DataType): nat {
    match ty
    case I64 | F64 | Ptr => 8
    case I32 | F32 => 4
    case I16 => 2
    case I8 => 1
    case Void => 0
  }

  predicate StoresAt(env: Env, s: State) {
    && At(env.m, s.func, s.block, s.index) && InstrAt(env.m, s.func, s.block, s.index).Store?
    && InstrAt(env.m, s.func, s.block, s.index).stored.ty != Void
    && s.base + InstrAt(env.m, s.func, s.block, s.index).addr.id < |s.pool|
  }

  /** The address and size of the store that s is about to make. */
  function StoreAddress(env: Env, s: State): Word
    requires StoresAt(env, s)
  {
    s.pool[s.base + InstrAt(env.m, s.func, s.block, s.index).addr.id]
  }

  function StoreSize(env: Env, s: State): nat
    requires StoresAt(env, s)
  {
    AccessSize(InstrAt(env.m, s.func, s.block, s.index).stored.ty)
  }

  predicate Disjoint(a: int, n: int, b: int, m: int) {
    a + n <= b || b + m <= a
  }

  /** No store from s on, before the limit, touches the n bytes at address a. */
  ghost predicate RunAvoids(env: Env, s: State, a: int, n: nat, limit: nat)
    decreases limit - s.clock
  {
    s.clock < limit ==>
      && (StoresAt(env, s) ==> Disjoint(StoreAddress(env, s), StoreSize(env, s), a, n))
      && (Step(env, s).Running? ==> RunAvoids(env, Step(env, s).s, a, n, limit))
  }

  ghost predicate SameBytes(p: Memory, q: Memory, a: int, n: nat) {
    forall k :: a <= k < a + n && k in p ==> k in q && q[k] == p[k]
  }

  /** Only a store changes memory. */
  lemma StepMemory(env: Env, s: State)
    requires Step(env, s).Running?
    ensures if StoresAt(env, s)
            then Mapped(s.mem, StoreAddress(env, s), StoreSize(env, s))
                 && |DataUses(InstrAt(env.m, s.func, s.block, s.index))| == 2
                 && s.base + InstrAt(env.m, s.func, s.block, s.index).stored.id < |s.pool|
                 && Step(env, s).s.mem == WriteBytes(s.mem, StoreAddress(env, s),
                      ToLE(StoreSize(env, s), s.pool[s.base + InstrAt(env.m, s.func, s.block, s.index).stored.id]))
            else Step(env, s).s.mem == s.mem
  {
    var i := InstrAt(env.m, s.func, s.block, s.index);
    if i.Store? {
      assert DataUses(i)[0] == i.addr.id && DataUses(i)[1] == i.stored.id;
    }
  }

  lemma StepKeepsBytes(env: Env, s: State, a: int, n: nat)
    requires Step(env, s).Running?
    requires StoresAt(env, s) ==> Disjoint(StoreAddress(env, s), StoreSize(env, s), a, n)
    ensures SameBytes(s.mem, Step(env, s).s.mem, a, n)
  {
    StepMemory(env, s);
  }

  lemma {:induction false} RunKeepsBytes(env: Env, s: State, a: int, n: nat, limit: nat)
    requires RunAvoids(env, s, a, n, limit) && Run(env, s, limit).Running?
    ensures SameBytes(s.mem, Run(env, s, limit).s.mem, a, n)
    decreases limit - s.clock
  {
    if s.clock < limit {
      StepKeepsBytes(env, s, a, n);
      RunKeepsBytes(env, Step(env, s).s, a, n, limit);
    }
  }

  lemma ReadsBack(mem: Memory, a: int, n: nat, x: int)
    requires Mapped(mem, a, n)
    ensures var after := WriteBytes(mem, a, ToLE(n, x));
            Mapped(after, a, n) && FromLE(ReadBytes(after, a, n)) == x % Pow256(n)
  {
    var after := WriteBytes(mem, a, ToLE(n, x));
    assert ReadBytes(after, a, n) == ToLE(n, x);
    RoundTripLE(n, x);
  }

  lemma SameBytesReadSame(p: Memory, q: Memory, a: int, n: nat)
    requires Mapped(p, a, n) && SameBytes(p, q, a, n)
    ensures Mapped(q, a, n) && ReadBytes(q, a, n) == ReadBytes(p, a, n)
  {
  }

  /** What a load of type ty yields of a slot that was stored as ty. */
  predicate Restores(ty: DataType, stored: Word, loaded: Word) {
    match ty
    case I64 | F64 | Ptr => loaded == stored
    case I32 | F32 => loaded % 0x1_0000_0000 == stored % 0x1_0000_0000
    case I16 => loaded % 0x1_0000_0000 == Extended16(stored % 0x1_0000)
    case I8 => loaded % 0x100 == stored % 0x100
    case Void => true
  }

  lemma LoadRestores(mem: Memory, a: Word, ty: DataType, stored: Word, junk: Word)
    requires ty != Void && Mapped(mem, a, AccessSize(ty))
    requires FromLE(ReadBytes(mem, a, AccessSize(ty))) == stored % Pow256(AccessSize(ty))
    ensures LoadFrom(mem, a, ty, junk).Wrote? && Restores(ty, stored, LoadFrom(mem, a, ty, junk).w)
  {
    hide FromLE, Pow256;
    Pow256Values();
    ModOfMod(stored, Pow256(AccessSize(ty)), 1);
  }

  /**
    A store of type ty at s, then any run that leaves its bytes alone, then a load of ty from the
    same address at u: the loaded slot restores the stored one at the width of ty, a 16-bit value
    coming back sign-extended to 32 bits.
  */
  lemma LoadAfterStore(env: Env, s: State, t: State, limit: nat, u: State, v: State)
    requires StoresAt(env, s) && Step(env, s) == Running(t)
    requires RunAvoids(env, t, StoreAddress(env, s), StoreSize(env, s), limit) && Run(env, t, limit) == Running(u)
    requires At(env.m, u.func, u.block, u.index) && Step(env, u) == Running(v)
    requires var store, load := InstrAt(env.m, s.func, s.block, s.index), InstrAt(env.m, u.func, u.block, u.index);
             && load.Load? && load.ty == store.stored.ty
             && u.base + load.addr.id < |u.pool| && u.pool[u.base + load.addr.id] == StoreAddress(env, s)
    ensures var store, load := InstrAt(env.m, s.func, s.block, s.index), InstrAt(env.m, u.func, u.block, u.index);
            && s.base + store.stored.id < |s.pool| && u.base + load.gen.id < |v.pool|
            && Restores(load.ty, s.pool[s.base + store.stored.id], v.pool[u.base + load.gen.id])
  {
    var store, load := InstrAt(env.m, s.func, s.block, s.index), InstrAt(env.m, u.func, u.block, u.index);
    var a, n := StoreAddress(env, s), StoreSize(env, s);
    StepMemory(env, s);
    var stored := s.pool[s.base + store.stored.id];
    ReadsBack(s.mem, a, n, stored);
    RunKeepsBytes(env, t, a, n, limit);
    SameBytesReadSame(t.mem, u.mem, a, n);
    LoadRestores(u.mem, a, load.ty, stored, env.junk(u.clock));
    LoadCommits(env, u, v);
  }

  lemma LoadCommits(env: Env, u: State, v: State)
    requires At(env.m, u.func, u.block, u.index) && InstrAt(env.m, u.func, u.block, u.index).Load?
    requires Step(env, u) == Running(v)
    ensures var i := InstrAt(env.m, u.func, u.block, u.index);
            u.base + i.addr.id < |u.pool| &&
            match LoadFrom(u.mem, u.pool[u.base + i.addr.id], i.ty, env.junk(u.clock))
            case Wrote(w) => u.base + i.gen.id < |u.pool| && v.pool == u.pool[u.base + i.gen.id := w]
            case _ => true
  {
    var i := InstrAt(env.m, u.func, u.block, u.index);
    assert DataUses(i)[0] == i.addr.id;
  }
}

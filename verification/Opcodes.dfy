/**
  What one iteration of the interpreter computes, opcode by opcode, in terms of the numbers in its
  slots and the bytes of memory only.
*/
module Opcodes {
  import opened Words
  import opened Ir
  import opened Interp

  /** The next iteration from s executes i. */
  predicate Executes(env: Env, s: State, i: Instr) {
    At(env.m, s.func, s.block, s.index) && InstrAt(env.m, s.func, s.block, s.index) == i
  }

  predicate InPool(s: State, v: Value) {
    s.base + v.id < |s.pool|
  }

  function Slot(s: State, v: Value): Word
    requires InPool(s, v)
  {
    s.pool[s.base + v.id]
  }

  /** A slot as a signed 64-bit number. */
  function Int64(w: Word): int {
    if w < 0x8000_0000_0000_0000 then w else w - 0x1_0000_0000_0000_0000
  }

  /** The iteration from s to t moved on to the next instruction and kept memory. */
  predicate MovedOn(s: State, t: State) {
    t == s.(index := s.index + 1, clock := s.clock + 1, pool := t.pool)
  }

  /** And wrote no other slot than v's. */
  ghost predicate WroteOnly(s: State, t: State, v: Value) {
    && MovedOn(s, t) && |t.pool| == |s.pool| && InPool(s, v)
    && forall k :: 0 <= k < |s.pool| && k != s.base + v.id ==> t.pool[k] == s.pool[k]
  }

  /** The bits of w above those below m come from the iteration's unspecified word. */
  predicate RestUnspecified(env: Env, s: State, w: Word, m: int)
    requires m > 0
  {
    w / m == env.junk(s.clock) / m
  }

  // ----- operators -----

  lemma OpReads(env: Env, s: State, op: BinOp, l: Value, r: Value, g: Value)
    requires Executes(env, s, Op(op, l, r, g)) && InPool(s, l) && InPool(s, r) && InPool(s, g)
    ensures Step(env, s) == Commit(Op(op, l, r, g), s, BinResult(op, Slot(s, l), Slot(s, r), env.junk(s.clock)))
  {
    var i := Op(op, l, r, g);
    assert DataUses(i)[0] == l.id && DataUses(i)[1] == r.id;
    assert ReadPool(s.pool, s.base, DataUses(i)).Some?;
  }

  lemma SignedIsInt64(w: Word)
    ensures Signed(w) == Int64(w)
  {
  }

  /** A comparison leaves 1 in the low byte of its result if the signed operands relate so, else 0. */
  ghost predicate Compares(env: Env, s: State, op: BinOp, l: Value, r: Value, g: Value)
    requires InPool(s, l) && InPool(s, r)
  {
    && Step(env, s).Running? && WroteOnly(s, Step(env, s).s, g)
    && RestUnspecified(env, s, Slot(Step(env, s).s, g), 0x100)
    && var x, y, b := Int64(Slot(s, l)), Int64(Slot(s, r)), Slot(Step(env, s).s, g) % 0x100;
       && (op == Eq ==> b == if x == y then 1 else 0)
       && (op == Diff ==> b == if x != y then 1 else 0)
       && (op == Larger ==> b == if x > y then 1 else 0)
       && (op == LargerEq ==> b == if x >= y then 1 else 0)
       && (op == Smaller ==> b == if x < y then 1 else 0)
       && (op == SmallerEq ==> b == if x <= y then 1 else 0)
  }

  lemma ComparisonStep(env: Env, s: State, op: BinOp, l: Value, r: Value, g: Value)
    requires Executes(env, s, Op(op, l, r, g)) && InPool(s, l) && InPool(s, r) && InPool(s, g)
    requires op == Eq || op == Diff || op == Larger || op == LargerEq || op == Smaller || op == SmallerEq
    ensures Compares(env, s, op, l, r, g)
  {
    OpReads(env, s, op, l, r, g);
    hide Step, Narrow, SignedAt;
    SignedIsInt64(Slot(s, l));
    SignedIsInt64(Slot(s, r));
    NarrowRest(Bits8, if Compare(op, Signed(Slot(s, l)), Signed(Slot(s, r))) then 1 else 0, env.junk(s.clock));
  }

  /** ADD, SUB and MUL wrap to 64 bits. */
  ghost predicate Wraps(env: Env, s: State, op: BinOp, l: Value, r: Value, g: Value)
    requires InPool(s, l) && InPool(s, r)
  {
    && Step(env, s).Running? && WroteOnly(s, Step(env, s).s, g)
    && var a, b, w := Slot(s, l), Slot(s, r), Slot(Step(env, s).s, g);
       && (op == Add ==> exists k: int :: w == a + b + k * 0x1_0000_0000_0000_0000)
       && (op == Sub ==> exists k: int :: w == a - b + k * 0x1_0000_0000_0000_0000)
       && (op == Mul ==> exists k: int :: w == a * b + k * 0x1_0000_0000_0000_0000)
  }

  lemma ArithmeticStep(env: Env, s: State, op: BinOp, l: Value, r: Value, g: Value)
    requires Executes(env, s, Op(op, l, r, g)) && InPool(s, l) && InPool(s, r) && InPool(s, g)
    requires op == Add || op == Sub || op == Mul
    ensures Wraps(env, s, op, l, r, g)
  {
    OpReads(env, s, op, l, r, g);
    hide Step;
    var a: int, b: int := Slot(s, l), Slot(s, r);
    WrapsBy(if op == Add then a + b else if op == Sub then a - b else a * b);
  }

  lemma WrapsBy(x: int)
    ensures exists k: int :: Wrap(x) == x + k * 0x1_0000_0000_0000_0000
  {
    assert Wrap(x) == x + (-(x / W64)) * 0x1_0000_0000_0000_0000;
  }

  /** q is x / y with the remainder smaller than y and of x's sign. */
  predicate IsQuotient(x: int, y: int, q: int) {
    var rest := x - q * y;
    && (if y > 0 then -y < rest < y else y < rest < -y)
    && (rest > 0 ==> x > 0) && (rest < 0 ==> x < 0)
  }

  lemma TruncatedQuotient(x: int, y: int)
    requires y != 0
    ensures IsQuotient(x, y, TruncDiv(x, y))
  {
    if x >= 0 {
      assert x == x / y * y + x % y;
    } else {
      assert -x == (-x) / y * y + (-x) % y;
      assert (-((-x) / y)) * y == -((-x) / y * y);
    }
  }

  /** There is one such quotient. */
  lemma QuotientUnique(x: int, y: int, q: int, p: int)
    requires y != 0 && IsQuotient(x, y, q) && IsQuotient(x, y, p)
    ensures q == p
  {
    var d := q - p;
    assert d * y == q * y - p * y;
    MulSmall(if y > 0 then d else -d, if y > 0 then y else -y);
  }

  function Abs(x: int): nat {
    if x >= 0 then x else -x
  }

  lemma AbsProduct(q: int, y: int)
    ensures Abs(q * y) == Abs(q) * Abs(y)
  {
    assert (-q) * y == -(q * y) && q * (-y) == -(q * y) && (-q) * (-y) == q * y;
    if q >= 0 && y >= 0 {
      MulMonotone(0, q, y);
    } else if q >= 0 {
      MulMonotone(0, q, -y);
    } else if y >= 0 {
      MulMonotone(0, -q, y);
    } else {
      MulMonotone(0, -q, -y);
    }
  }

  lemma SmallProduct(q: int, y: int)
    requires Abs(q * y) < Abs(y)
    ensures q * y == 0
  {
    var d := if y > 0 then q else -q;
    assert (-q) * (-y) == q * y;
    assert d * Abs(y) == q * y;
    MulSmall(d, Abs(y));
  }

  lemma ProductSize(x: int, y: int, z: int)
    requires Abs(x - z) < Abs(y) && (x - z > 0 ==> x > 0) && (x - z < 0 ==> x < 0)
    requires Abs(z) < Abs(y) ==> z == 0
    ensures Abs(z) <= Abs(x)
  {
  }

  lemma QuotientSize(x: int, y: int, q: int)
    requires IsQuotient(x, y, q) && y != 0
    ensures Abs(q) * Abs(y) <= Abs(x)
  {
    AbsProduct(q, y);
    if Abs(q * y) < Abs(y) {
      SmallProduct(q, y);
    }
    ProductSize(x, y, q * y);
  }

  lemma QuotientFits(x: int, y: int, q: int)
    requires IsQuotient(x, y, q) && y != 0
    requires -0x8000_0000_0000_0000 <= x < 0x8000_0000_0000_0000 && !(x == -0x8000_0000_0000_0000 && y == -1)
    ensures -0x8000_0000_0000_0000 <= q < 0x8000_0000_0000_0000
  {
    QuotientSize(x, y, q);
    if Abs(y) >= 2 {
      MulMonotone(2, Abs(y), Abs(q));
      assert Abs(y) * Abs(q) == Abs(q) * Abs(y);
    } else {
      assert q * y == if y == 1 then q else -q;
    }
  }

  lemma DivisionFaults(op: BinOp, a: Word, b: Word, junk: Word)
    requires op == Div || op == IDiv
    ensures BinResult(op, a, b, junk) ==
            if Int64(b) == 0 || (Int64(a) == -0x8000_0000_0000_0000 && Int64(b) == -1) then Trapped(DivideTrap)
            else Wrote(Wrap(TruncDiv(Int64(a), Int64(b))))
  {
    SignedIsInt64(a);
    SignedIsInt64(b);
  }

  /** DIV and IDIV give the signed quotient rounded toward zero and fault exactly where C leaves it undefined. */
  ghost predicate Divides(env: Env, s: State, l: Value, r: Value, g: Value)
    requires InPool(s, l) && InPool(s, r)
  {
    var x, y := Int64(Slot(s, l)), Int64(Slot(s, r));
    if y == 0 || (x == -0x8000_0000_0000_0000 && y == -1) then Step(env, s) == Stop(DivideTrap)
    else Step(env, s).Running? && WroteOnly(s, Step(env, s).s, g)
         && IsQuotient(x, y, Int64(Slot(Step(env, s).s, g)))
  }

  lemma DivisionStep(env: Env, s: State, op: BinOp, l: Value, r: Value, g: Value)
    requires Executes(env, s, Op(op, l, r, g)) && InPool(s, l) && InPool(s, r) && InPool(s, g)
    requires op == Div || op == IDiv
    ensures Divides(env, s, l, r, g)
  {
    OpReads(env, s, op, l, r, g);
    hide Step, BinResult, TruncDiv, IsQuotient;
    var x, y := Int64(Slot(s, l)), Int64(Slot(s, r));
    DivisionFaults(op, Slot(s, l), Slot(s, r), env.junk(s.clock));
    if y != 0 && !(x == -0x8000_0000_0000_0000 && y == -1) {
      TruncatedQuotient(x, y);
      QuotientFits(x, y, TruncDiv(x, y));
      WrapKeeps(TruncDiv(x, y));
    }
  }

  lemma WrapKeeps(q: int)
    requires -0x8000_0000_0000_0000 <= q < 0x8000_0000_0000_0000
    ensures Int64(Wrap(q)) == q
  {
  }

  /** NOT is 1 for a slot of 0 and 0 for any other. */
  ghost predicate Negates(env: Env, s: State, a: Value, g: Value)
    requires InPool(s, a)
  {
    && Step(env, s).Running? && WroteOnly(s, Step(env, s).s, g)
    && Slot(Step(env, s).s, g) == if Slot(s, a) == 0 then 1 else 0
  }

  lemma NotStep(env: Env, s: State, a: Value, g: Value)
    requires Executes(env, s, Not(a, g)) && InPool(s, a) && InPool(s, g)
    ensures Negates(env, s, a, g)
  {
    assert DataUses(Not(a, g))[0] == a.id;
  }

  /** A constant determines as many low bits as its kind has. */
  ghost predicate Places(env: Env, s: State, kind: ConstKind, imm: Word, g: Value) {
    && Step(env, s).Running? && WroteOnly(s, Step(env, s).s, g)
    && var w := Slot(Step(env, s).s, g);
       && (kind.ConstI64? || kind.ConstPtr? ==> w == imm)
       && (kind.ConstI32? ==> w % 0x1_0000_0000 == imm % 0x1_0000_0000 && RestUnspecified(env, s, w, 0x1_0000_0000))
       && (kind.ConstI16? ==> w % 0x1_0000 == imm % 0x1_0000 && RestUnspecified(env, s, w, 0x1_0000))
       && (kind.ConstI8? ==> w % 0x100 == imm % 0x100 && RestUnspecified(env, s, w, 0x100))
  }

  lemma ConstStep(env: Env, s: State, kind: ConstKind, imm: Word, g: Value)
    requires Executes(env, s, Const(kind, imm, g)) && InPool(s, g)
    ensures Places(env, s, kind, imm, g)
  {
    hide Narrow;
    if kind.Determines() != Bits64 {
      NarrowRest(kind.Determines(), imm, env.junk(s.clock));
    } else {
      WholeWord(imm, env.junk(s.clock));
    }
  }

  lemma WholeWord(x: Word, junk: Word)
    ensures Narrow(Bits64, x, junk) == x
  {
  }

  /** An indirect call changes nothing. */
  lemma CallPtrStep(env: Env, s: State, callee: Value, args: seq<Value>, g: Value)
    requires Executes(env, s, CallPtr(callee, args, g))
    ensures Step(env, s) == Running(s.(index := s.index + 1, clock := s.clock + 1))
  {
  }

  // ----- memory -----

  /** q is p with the n low bytes of x at address a, lowest first. */
  ghost predicate HoldsBytes(p: Memory, q: Memory, a: int, n: nat, x: int) {
    && (forall k :: k in q <==> k in p)
    && (forall k :: k in p && !(a <= k < a + n) ==> q[k] == p[k])
    && (forall k :: 0 <= k < n ==> a + k in q && q[a + k] == x / Pow256(k) % 0x100)
  }

  lemma WritesBytes(mem: Memory, a: int, n: nat, x: int)
    requires Mapped(mem, a, n)
    ensures HoldsBytes(mem, WriteBytes(mem, a, ToLE(n, x)), a, n, x)
  {
    hide ToLE, Pow256;
    forall k | 0 <= k < n
      ensures ToLE(n, x)[k] == x / Pow256(k) % 0x100
    {
      ByteOfLE(n, x, k);
    }
  }

  /** From s to t the n low bytes of v's slot went to the address in a's slot, and nothing else changed. */
  ghost predicate StoredBytes(s: State, t: State, a: Value, v: Value, n: nat)
    requires InPool(s, a) && InPool(s, v)
  {
    && t == s.(index := s.index + 1, clock := s.clock + 1, mem := t.mem)
    && HoldsBytes(s.mem, t.mem, Slot(s, a), n, Slot(s, v))
  }

  /** A STORE of n bytes: it happens exactly if they are mapped. */
  ghost predicate StoresOf(env: Env, s: State, a: Value, v: Value, n: nat)
    requires InPool(s, a) && InPool(s, v)
  {
    if Mapped(s.mem, Slot(s, a), n) then Step(env, s).Running? && StoredBytes(s, Step(env, s).s, a, v, n)
    else Step(env, s) == Stop(BadAddress)
  }

  /** Eight bytes for I64, F64 and PTR, four for I32 and F32, two for I16, one for I8. */
  ghost predicate Stores(env: Env, s: State, a: Value, v: Value)
    requires InPool(s, a) && InPool(s, v)
  {
    && (v.ty == I64 || v.ty == F64 || v.ty == Ptr ==> StoresOf(env, s, a, v, 8))
    && (v.ty == I32 || v.ty == F32 ==> StoresOf(env, s, a, v, 4))
    && (v.ty == I16 ==> StoresOf(env, s, a, v, 2))
    && (v.ty == I8 ==> StoresOf(env, s, a, v, 1))
    && (v.ty == Void ==> Step(env, s) == Running(s.(index := s.index + 1, clock := s.clock + 1)))
  }

  lemma StoreStep(env: Env, s: State, a: Value, v: Value)
    requires Executes(env, s, Store(a, v)) && InPool(s, a) && InPool(s, v)
    ensures Stores(env, s, a, v)
  {
    hide ToLE, HoldsBytes, WriteBytes;
    assert DataUses(Store(a, v))[0] == a.id && DataUses(Store(a, v))[1] == v.id;
    if v.ty != Void {
      var n := AccessWidth(v.ty).value.Bytes();
      if Mapped(s.mem, Slot(s, a), n) {
        WritesBytes(s.mem, Slot(s, a), n, Slot(s, v));
      }
    }
  }

  function ByteAt(mem: Memory, a: int): int
    requires a in mem
  {
    mem[a]
  }

  /** The number whose bytes stand at address a, lowest first. */
  function Bytes2(mem: Memory, a: int): int
    requires Mapped(mem, a, 2)
  {
    ByteAt(mem, a) + 0x100 * ByteAt(mem, a + 1)
  }

  function Bytes4(mem: Memory, a: int): int
    requires Mapped(mem, a, 4)
  {
    ByteAt(mem, a) + 0x100 * ByteAt(mem, a + 1) + 0x1_0000 * ByteAt(mem, a + 2) + 0x100_0000 * ByteAt(mem, a + 3)
  }

  function Bytes8(mem: Memory, a: int): int
    requires Mapped(mem, a, 8)
  {
    Bytes4(mem, a) + 0x1_0000_0000 * Bytes4(mem, a + 4)
  }

  lemma ReadsBytes(mem: Memory, a: int)
    ensures Mapped(mem, a, 1) ==> FromLE(ReadBytes(mem, a, 1)) == mem[a]
    ensures Mapped(mem, a, 2) ==> FromLE(ReadBytes(mem, a, 2)) == Bytes2(mem, a)
    ensures Mapped(mem, a, 4) ==> FromLE(ReadBytes(mem, a, 4)) == Bytes4(mem, a)
    ensures Mapped(mem, a, 8) ==> FromLE(ReadBytes(mem, a, 8)) == Bytes8(mem, a)
  {
    if Mapped(mem, a, 1) {
      assert ReadBytes(mem, a, 1)[1..] == [];
    }
    if Mapped(mem, a, 2) {
      FromTwo(ReadBytes(mem, a, 2));
    }
    if Mapped(mem, a, 4) {
      FromFour(ReadBytes(mem, a, 4));
      assert ReadBytes(mem, a, 4)[4..] == [];
    }
    if Mapped(mem, a, 8) {
      FromFour(ReadBytes(mem, a, 8));
      FromFour(ReadBytes(mem, a, 8)[4..]);
      assert ReadBytes(mem, a, 8)[4..][4..] == [];
    }
  }

  /** A LOAD of n bytes: it happens exactly if they are mapped, and then its result is in one slot. */
  ghost predicate LoadsTo(env: Env, s: State, a: Value, g: Value, n: nat)
    requires InPool(s, a)
  {
    if Mapped(s.mem, Slot(s, a), n) then Step(env, s).Running? && WroteOnly(s, Step(env, s).s, g)
    else Step(env, s) == Stop(BadAddress)
  }

  /** The bits of w below m are x, the others unspecified. */
  predicate LoadedPart(env: Env, s: State, w: Word, m: int, x: int)
    requires m > 0
  {
    w % m == x && RestUnspecified(env, s, w, m)
  }

  lemma LoadReads(env: Env, s: State, a: Value, ty: DataType, g: Value)
    requires Executes(env, s, Load(a, ty, g)) && InPool(s, a) && InPool(s, g)
    ensures Step(env, s) == Commit(Load(a, ty, g), s, LoadFrom(s.mem, Slot(s, a), ty, env.junk(s.clock)))
  {
    assert DataUses(Load(a, ty, g))[0] == a.id;
  }

  lemma LoadedWord(mem: Memory, a: Word, ty: DataType, junk: Word)
    requires Mapped(mem, a, 8) && (ty == I64 || ty == F64 || ty == Ptr)
    ensures LoadFrom(mem, a, ty, junk) == Wrote(Bytes8(mem, a))
  {
    hide FromLE;
    ReadsBytes(mem, a);
  }

  lemma LoadedHalf(mem: Memory, a: Word, ty: DataType, junk: Word)
    requires Mapped(mem, a, 4) && (ty == I32 || ty == F32)
    ensures LoadFrom(mem, a, ty, junk).Wrote?
    ensures var w := LoadFrom(mem, a, ty, junk).w;
            w % 0x1_0000_0000 == Bytes4(mem, a) && w / 0x1_0000_0000 == junk / 0x1_0000_0000
  {
    hide FromLE, Narrow;
    ReadsBytes(mem, a);
    NarrowRest(Bits32, Bytes4(mem, a), junk);
  }

  /** The 16-bit number x as a signed one, seen as 32 bits. */
  function Extended16(x: int): int {
    if x < 0x8000 then x else x + 0xFFFF_0000
  }

  lemma LoadedShort(mem: Memory, a: Word, junk: Word)
    requires Mapped(mem, a, 2)
    ensures LoadFrom(mem, a, I16, junk).Wrote?
    ensures var w := LoadFrom(mem, a, I16, junk).w;
            w % 0x1_0000_0000 == Extended16(Bytes2(mem, a)) && w / 0x1_0000_0000 == junk / 0x1_0000_0000
  {
    hide FromLE, Narrow;
    ReadsBytes(mem, a);
    NarrowRest(Bits32, SignedAt(Bits16, Bytes2(mem, a)), junk);
  }

  lemma LoadedByte(mem: Memory, a: Word, junk: Word)
    requires Mapped(mem, a, 1)
    ensures LoadFrom(mem, a, I8, junk).Wrote?
    ensures var w := LoadFrom(mem, a, I8, junk).w;
            w % 0x100 == mem[a] && w / 0x100 == junk / 0x100
  {
    hide FromLE, Narrow;
    ReadsBytes(mem, a);
    NarrowRest(Bits8, mem[a], junk);
  }

  /** Eight bytes for I64, F64 and PTR, four for I32 and F32, two, sign-extended to 32 bits, for I16, one for I8. */
  ghost predicate Loads(env: Env, s: State, a: Value, ty: DataType, g: Value)
    requires InPool(s, a)
  {
    var o, addr := Step(env, s), Slot(s, a);
    && (ty == I64 || ty == F64 || ty == Ptr ==>
          LoadsTo(env, s, a, g, 8) && (o.Running? ==> Slot(o.s, g) == Bytes8(s.mem, addr)))
    && (ty == I32 || ty == F32 ==>
          LoadsTo(env, s, a, g, 4) && (o.Running? ==> LoadedPart(env, s, Slot(o.s, g), 0x1_0000_0000, Bytes4(s.mem, addr))))
    && (ty == I16 ==>
          LoadsTo(env, s, a, g, 2) &&
          (o.Running? ==> LoadedPart(env, s, Slot(o.s, g), 0x1_0000_0000, Extended16(Bytes2(s.mem, addr)))))
    && (ty == I8 ==>
          LoadsTo(env, s, a, g, 1) && (o.Running? ==> LoadedPart(env, s, Slot(o.s, g), 0x100, s.mem[addr])))
    && (ty == Void ==> o == Running(s.(index := s.index + 1, clock := s.clock + 1)))
  }

  lemma LoadStep(env: Env, s: State, a: Value, ty: DataType, g: Value)
    requires Executes(env, s, Load(a, ty, g)) && InPool(s, a) && InPool(s, g)
    ensures Loads(env, s, a, ty, g)
  {
    LoadReads(env, s, a, ty, g);
    hide Step, Bytes8, Bytes4, Bytes2, Extended16, Narrow, FromLE;
    var addr, junk := Slot(s, a), env.junk(s.clock);
    if Mapped(s.mem, addr, 8) && (ty == I64 || ty == F64 || ty == Ptr) {
      LoadedWord(s.mem, addr, ty, junk);
    } else if Mapped(s.mem, addr, 4) && (ty == I32 || ty == F32) {
      LoadedHalf(s.mem, addr, ty, junk);
    } else if Mapped(s.mem, addr, 2) && ty == I16 {
      LoadedShort(s.mem, addr, junk);
    } else if Mapped(s.mem, addr, 1) && ty == I8 {
      LoadedByte(s.mem, addr, junk);
    }
  }

  // ----- control -----

  ghost predicate Jumps(env: Env, s: State, target: nat) {
    Step(env, s) == Running(s.(block := target, index := 0, clock := s.clock + 1))
  }

  /** COND_BR goes to its first block on a low byte of 1, to its second on 0. */
  ghost predicate Chooses(env: Env, s: State, c: Value, onTrue: nat, onFalse: nat)
    requires InPool(s, c)
  {
    var bit := Slot(s, c) % 0x100;
    && (bit == 1 ==> Jumps(env, s, onTrue))
    && (bit == 0 ==> Jumps(env, s, onFalse))
    && (bit > 1 ==> Step(env, s) == Stop(BadBool))
  }

  lemma BranchStep(env: Env, s: State, i: Instr)
    requires Executes(env, s, i)
    ensures i.Br? ==> Jumps(env, s, i.target)
    ensures i.CondBr? && InPool(s, i.cond) ==> Chooses(env, s, i.cond, i.onTrue, i.onFalse)
  {
  }

  lemma {:induction false} CopiesInOrder(pool: seq<Word>, from: nat, to: nat, ids: seq<nat>)
    requires forall k :: 0 <= k < |ids| ==> from + ids[k] < |pool| && from + ids[k] < to
    requires |ids| > 0 ==> to + |ids| <= |pool|
    ensures CopyArgs(pool, from, to, ids).Some?
    ensures var r := CopyArgs(pool, from, to, ids).value;
            && (forall k :: 0 <= k < |ids| ==> r[to + k] == pool[from + ids[k]])
            && (forall j :: 0 <= j < |pool| && !(to <= j < to + |ids|) ==> r[j] == pool[j])
    decreases |ids|
  {
    if |ids| > 0 {
      CopiesInOrder(pool, from, to, ids[..|ids| - 1]);
    }
  }

  /** The callee has a frame, exists and finds its arguments in the pool, below its own window. */
  ghost predicate CanCall(env: Env, s: State, g: nat, args: seq<Value>) {
    && |s.frames| < env.frameCap && g < |env.m| && |env.m[g].args| <= |args|
    && (forall k :: 0 <= k < |env.m[g].args| ==> InPool(s, args[k]) && args[k].id < |env.m[g].values|)
    && (|env.m[g].args| > 0 ==> s.base + |env.m[g].values| + |env.m[g].args| <= |s.pool|)
  }

  /**
    Function g starts at its first instruction, in a window above its value count, with the arguments
    in order in its first slots; the caller becomes the top frame; no other slot changes.
  */
  ghost predicate Enters(env: Env, s: State, g: nat, args: seq<Value>, gen: Value)
    requires CanCall(env, s, g, args)
  {
    && Step(env, s).Running?
    && var t, n := Step(env, s).s, |env.m[g].args|;
       && t.func == g && t.block == 0 && t.index == 0 && t.base == s.base + |env.m[g].values|
       && t.frames == s.frames + [Frame(s.func, s.block, s.index, gen.id, s.base)] && t.mem == s.mem
       && |t.pool| == |s.pool|
       && (forall k :: 0 <= k < n ==> t.pool[t.base + k] == Slot(s, args[k]))
       && (forall j :: 0 <= j < |s.pool| && !(t.base <= j < t.base + n) ==> t.pool[j] == s.pool[j])
  }

  lemma CallStep(env: Env, s: State, g: nat, args: seq<Value>, gen: Value)
    requires Executes(env, s, CallFunc(g, args, gen)) && CanCall(env, s, g, args)
    ensures Enters(env, s, g, args, gen)
  {
    hide CopyArgs, StepData;
    CopiesInOrder(s.pool, s.base, s.base + |env.m[g].values|, Ids(args[..|env.m[g].args|]));
  }

  /** Without callers the run ends with the slot; otherwise the value goes to the caller's result slot. */
  ghost predicate GivesBack(env: Env, s: State, v: Value)
    requires InPool(s, v)
  {
    if |s.frames| == 0 then Step(env, s) == Returned(Slot(s, v), s.mem)
    else
      var f := s.frames[|s.frames| - 1];
      if f.base + f.gen < |s.pool| then
        Step(env, s) == Running(State(f.func, f.block, f.index + 1, f.base, s.frames[..|s.frames| - 1],
                                      s.pool[f.base + f.gen := Slot(s, v)], s.mem, s.clock + 1))
      else Step(env, s) == Stop(PoolOverflow)
  }

  lemma RetStep(env: Env, s: State, v: Value)
    requires Executes(env, s, Ret(v)) && InPool(s, v)
    ensures GivesBack(env, s, v)
  {
  }

  /** A RET_VOID without callers ends the run with 0. */
  lemma RetVoidStep(env: Env, s: State)
    requires Executes(env, s, RetVoid)
    ensures Step(env, s) == if |s.frames| == 0 then Returned(0, s.mem) else Stop(VoidResult)
  {
  }

  /** What C leaves undefined stops the run: no instruction, no frame, no such function, a slot outside the pool. */
  lemma UndefinedStops(env: Env, s: State, i: Instr)
    ensures !At(env.m, s.func, s.block, s.index) ==> Step(env, s) == Stop(OffBlock)
    ensures Executes(env, s, i) && i.CallFunc? && |s.frames| >= env.frameCap ==> Step(env, s) == Stop(FrameOverflow)
    ensures Executes(env, s, i) && i.CallFunc? && |s.frames| < env.frameCap && i.func >= |env.m| ==>
              Step(env, s) == Stop(BadTarget)
    ensures Executes(env, s, i) && i.Op? && !(InPool(s, i.left) && InPool(s, i.right)) ==> Step(env, s) == Stop(PoolOverflow)
    ensures Executes(env, s, i) && i.Ret? && !InPool(s, i.result) ==> Step(env, s) == Stop(PoolOverflow)
    ensures Executes(env, s, i) && i.CondBr? && !InPool(s, i.cond) ==> Step(env, s) == Stop(PoolOverflow)
    ensures Executes(env, s, i) && i.Const? && !InPool(s, i.gen) ==> Step(env, s) == Stop(PoolOverflow)
  {
    if i.Op? {
      assert DataUses(i)[0] == i.left.id && DataUses(i)[1] == i.right.id;
    }
  }
}

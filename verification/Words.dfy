/** Machine words, the width classes the engines use, and little-endian bytes. */
module Words {
  const W32 := 0x1_0000_0000
  const W64 := 0x1_0000_0000_0000_0000

  type Byte = b: int | 0 <= b < 0x100
  type Word = w: int | 0 <= w < 0x1_0000_0000_0000_0000

  datatype Option<+T> = None | Some(value: T)

  /** How many low bits of a 64-bit slot a write determines. */
  datatype Width = Bits8 | Bits16 | Bits32 | Bits64 {
    function Modulus(): int {
      match this
      case Bits8 => 0x100
      case Bits16 => 0x1_0000
      case Bits32 => 0x1_0000_0000
      case Bits64 => 0x1_0000_0000_0000_0000
    }

    function Bytes(): nat {
      match this
      case Bits8 => 1
      case Bits16 => 2
      case Bits32 => 4
      case Bits64 => 8
    }

    predicate AtMost(other: Width) {
      Bytes() <= other.Bytes()
    }
  }

  function Wrap(x: int): Word {
    x % W64
  }

  /** Two's complement reading of the low bits of x at width k. */
  function SignedAt(k: Width, x: int): int {
    var low := x % k.Modulus();
    if low < k.Modulus() / 2 then low else low - k.Modulus()
  }

  function Signed(w: Word): (r: int)
    ensures r == 0 <==> w == 0
  {
    SignedAt(Bits64, w)
  }

  lemma BelowMultiple(q: nat, low: nat, y: nat, m: nat, c: nat)
    requires y < m && q * m + low < m * c
    ensures q * m + y < m * c
  {
    if q >= c {
      MulMonotone(c, q, m);
    } else {
      MulMonotone(q + 1, c, m);
    }
  }

  /** Replacing the low part of a word leaves a word. */
  lemma LowPartFits(junk: Word, x: int, m: nat, c: nat)
    requires m > 0 && m * c == W64
    ensures 0 <= junk - junk % m + x % m < W64
    ensures (junk - junk % m + x % m) % m == x % m && (junk - junk % m + x % m) / m == junk / m
  {
    LowPartReplaced(junk / m, junk % m, x % m, m, c, junk);
  }

  lemma LowPartReplaced(q: nat, low: nat, y: nat, m: nat, c: nat, junk: Word)
    requires y < m && m * c == W64 && junk == q * m + low
    ensures 0 <= junk - low + y < W64 && (junk - low + y) % m == y && (junk - low + y) / m == q
  {
    BelowMultiple(q, low, y, m, c);
    assert q * m >= 0 by {
      MulMonotone(0, q, m);
    }
    DivModUnique(junk - low + y, m, q, y);
  }

  /** The low k bits of x, below upper bits taken from junk. */
  function Narrow(k: Width, x: int, junk: Word): (r: Word)
    ensures r % k.Modulus() == x % k.Modulus()
  {
    if k == Bits64 then Wrap(x)
    else
      LowPartFits(junk, x, k.Modulus(), Ratio(k, Bits64));
      junk - junk % k.Modulus() + x % k.Modulus()
  }

  /** The upper bits are those of the word given for them. */
  lemma NarrowRest(k: Width, x: int, junk: Word)
    requires k != Bits64
    ensures Narrow(k, x, junk) / k.Modulus() == junk / k.Modulus()
  {
    LowPartFits(junk, x, k.Modulus(), Ratio(k, Bits64));
  }

  /** x and y agree on their low k bits. */
  predicate Agree(k: Width, x: int, y: int) {
    x % k.Modulus() == y % k.Modulus()
  }

  /** Division is determined by its defining equation. */
  lemma DivModUnique(x: int, m: int, q: int, r: int)
    requires 0 <= r < m && x == q * m + r
    ensures x / m == q && x % m == r
  {
    var d := q - x / m;
    assert d * m == q * m - x / m * m;
    assert -m < d * m < m by {
      assert x == x / m * m + x % m;
    }
    MulSmall(d, m);
  }

  lemma MulSmall(d: int, m: int)
    requires -m < d * m < m
    ensures d == 0
  {
    assert d >= 1 ==> d * m >= m;
    assert d <= -1 ==> d * m <= -m;
  }

  lemma MulMonotone(a: nat, b: nat, m: nat)
    requires a <= b
    ensures a * m <= b * m
  {
    assert b * m - a * m == (b - a) * m;
  }

  lemma ModShift(x: int, m: int, k: int)
    requires m > 0
    ensures (x + k * m) % m == x % m
  {
    assert x == x / m * m + x % m;
    assert (x / m + k) * m == x / m * m + k * m;
    DivModUnique(x + k * m, m, x / m + k, x % m);
  }

  /** Reducing modulo a multiple of m first changes nothing modulo m. */
  lemma ModOfMod(x: int, m: int, k: int)
    requires m > 0 && k > 0 && m * k > 0
    ensures x % (m * k) % m == x % m
  {
    var q, r := x / (m * k), x % (m * k);
    assert x == q * (m * k) + r;
    assert q * (m * k) == (q * k) * m;
    ModShift(r, m, q * k);
  }

  lemma ModAdd(m: int, a: int, b: int)
    requires m > 0
    ensures (a + b) % m == (a % m + b % m) % m
  {
    assert a == a / m * m + a % m;
    assert b == b / m * m + b % m;
    assert (a / m + b / m) * m == a / m * m + b / m * m;
    ModShift(a % m + b % m, m, a / m + b / m);
  }

  lemma ModNeg(m: int, a: int)
    requires m > 0
    ensures (-a) % m == (-(a % m)) % m
  {
    assert a == a / m * m + a % m;
    assert (-(a / m)) * m == -(a / m * m);
    ModShift(-(a % m), m, -(a / m));
  }

  lemma ModMul(m: int, a: int, b: int)
    requires m > 0
    ensures (a * b) % m == (a % m * (b % m)) % m
  {
    ModMulLeft(m, a, b);
    ModMulLeft(m, b, a % m);
    assert b * (a % m) == a % m * b;
    assert b % m * (a % m) == a % m * (b % m);
    assert a * b == b * a;
  }

  lemma ModMulLeft(m: int, a: int, b: int)
    requires m > 0
    ensures (a * b) % m == (a % m * b) % m
  {
    var p, r := a / m, a % m;
    assert a == p * m + r;
    assert a * b == r * b + (p * b) * m by {
      assert a * b == (p * m) * b + r * b;
      assert (p * m) * b == (p * b) * m;
    }
    ModShift(r * b, m, p * b);
  }

  /** The low bits of a sum, difference or product depend only on the operands' low bits. */
  lemma AgreeArithmetic(k: Width, a: int, b: int, c: int, d: int)
    requires Agree(k, a, c) && Agree(k, b, d)
    ensures Agree(k, a + b, c + d) && Agree(k, a - b, c - d) && Agree(k, a * b, c * d)
  {
    ModArithmetic(k.Modulus(), a, b, c, d);
  }

  lemma ModArithmetic(m: int, a: int, b: int, c: int, d: int)
    requires m > 0 && a % m == c % m && b % m == d % m
    ensures (a + b) % m == (c + d) % m && (a - b) % m == (c - d) % m && (a * b) % m == (c * d) % m
  {
    ModAdd(m, a, b);
    ModAdd(m, c, d);
    ModDifference(m, a, b, c, d);
    ModMul(m, a, b);
    ModMul(m, c, d);
  }

  lemma ModDifference(m: int, a: int, b: int, c: int, d: int)
    requires m > 0 && a % m == c % m && b % m == d % m
    ensures (a - b) % m == (c - d) % m
  {
    ModNeg(m, b);
    ModNeg(m, d);
    ModAdd(m, a, -b);
    ModAdd(m, c, -d);
  }

  function Ratio(j: Width, k: Width): (r: int)
    requires j.AtMost(k)
    ensures r > 0 && j.Modulus() * r == k.Modulus()
  {
    match (j, k)
    case (Bits8, Bits8) => 1
    case (Bits8, Bits16) => 0x100
    case (Bits8, Bits32) => 0x100_0000
    case (Bits8, Bits64) => 0x100_0000_0000_0000
    case (Bits16, Bits16) => 1
    case (Bits16, Bits32) => 0x1_0000
    case (Bits16, Bits64) => 0x1_0000_0000_0000
    case (Bits32, Bits32) => 1
    case (Bits32, Bits64) => 0x1_0000_0000
    case (Bits64, _) => 1
  }

  lemma AgreeWeaken(j: Width, k: Width, x: int, y: int)
    requires j.AtMost(k) && Agree(k, x, y)
    ensures Agree(j, x, y)
  {
    ModOfMod(x, j.Modulus(), Ratio(j, k));
    ModOfMod(y, j.Modulus(), Ratio(j, k));
  }

  /** Wrapping to 64 bits keeps every lower width. */
  lemma WrapAgrees(k: Width, x: int)
    ensures Agree(k, Wrap(x), x)
  {
    ModOfMod(x, k.Modulus(), Ratio(k, Bits64));
  }

  // ----- little-endian bytes -----

  function Pow256(n: nat): (r: int)
    ensures r > 0
  {
    if n == 0 then 1 else 0x100 * Pow256(n - 1)
  }

  function ToLE(n: nat, x: int): (bytes: seq<Byte>)
    ensures |bytes| == n
  {
    if n == 0 then [] else [x % 0x100] + ToLE(n - 1, x / 0x100)
  }

  function FromLE(bytes: seq<Byte>): (x: int)
    ensures 0 <= x < Pow256(|bytes|)
  {
    if |bytes| == 0 then 0 else bytes[0] + 0x100 * FromLE(bytes[1..])
  }

  /** Reading back n little-endian bytes gives the value modulo 256^n. */
  lemma {:induction false} RoundTripLE(n: nat, x: int)
    ensures FromLE(ToLE(n, x)) == x % Pow256(n)
  {
    if n > 0 {
      RoundTripLE(n - 1, x / 0x100);
      assert ToLE(n, x)[1..] == ToLE(n - 1, x / 0x100);
      LowByteFirst(x / 0x100, x % 0x100, Pow256(n - 1));
    }
  }

  lemma LowByteFirst(y: int, b: Byte, p: int)
    requires p > 0
    ensures (0x100 * y + b) % (0x100 * p) == b + 0x100 * (y % p)
  {
    var q, r := y / p, y % p;
    assert y == q * p + r;
    RegroupByte(q, p);
    DivModUnique(0x100 * y + b, 0x100 * p, q, 0x100 * r + b);
  }

  lemma RegroupByte(q: int, p: int)
    ensures 0x100 * (q * p) == q * (0x100 * p)
  {
  }

  lemma {:induction false} FromLEInjective(a: seq<Byte>, b: seq<Byte>)
    requires |a| == |b| && FromLE(a) == FromLE(b)
    ensures a == b
  {
    if |a| > 0 {
      FromLEInjective(a[1..], b[1..]);
      assert a == [a[0]] + a[1..] && b == [b[0]] + b[1..];
    }
  }

  /** The bytes written depend only on the bits that fit. */
  lemma SameLE(n: nat, x: int, y: int)
    requires x % Pow256(n) == y % Pow256(n)
    ensures ToLE(n, x) == ToLE(n, y)
  {
    RoundTripLE(n, x);
    RoundTripLE(n, y);
    FromLEInjective(ToLE(n, x), ToLE(n, y));
  }

  lemma FirstByte(b: seq<Byte>, k: nat)
    requires k < |b|
    ensures FromLE(b[k..]) == b[k] + 0x100 * FromLE(b[k + 1..])
  {
    assert b[k..][1..] == b[k + 1..];
  }

  lemma FromTwo(b: seq<Byte>)
    requires |b| == 2
    ensures FromLE(b) == b[0] as int + 0x100 * b[1] as int
  {
    assert b[0..] == b && b[2..] == [];
    FirstByte(b, 0);
    FirstByte(b, 1);
  }

  lemma FromFour(b: seq<Byte>)
    requires |b| >= 4
    ensures FromLE(b) == b[0] + 0x100 * b[1] + 0x1_0000 * b[2] + 0x100_0000 * b[3] + 0x1_0000_0000 * FromLE(b[4..])
  {
    hide FromLE;
    assert b[0..] == b;
    FirstByte(b, 0);
    FirstByte(b, 1);
    FirstByte(b, 2);
    FirstByte(b, 3);
  }

  /** Byte k is the k-th digit to base 256, lowest first. */
  lemma {:induction false} ByteOfLE(n: nat, x: int, k: nat)
    requires k < n
    ensures ToLE(n, x)[k] == x / Pow256(k) % 0x100
  {
    if k > 0 {
      ByteOfLE(n - 1, x / 0x100, k - 1);
      DivideTwice(x, Pow256(k - 1));
    }
  }

  lemma DivideTwice(x: int, p: int)
    requires p > 0
    ensures x / 0x100 / p == x / (0x100 * p)
  {
    var q, r := x / 0x100 / p, x / 0x100 % p;
    assert x / 0x100 == q * p + r;
    RegroupByte(q, p);
    DivModUnique(x, 0x100 * p, q, 0x100 * r + x % 0x100);
  }

  lemma Pow256Values()
    ensures Pow256(0) == 1 && Pow256(1) == 0x100 && Pow256(2) == 0x1_0000 && Pow256(3) == 0x100_0000
    ensures Pow256(4) == W32 && Pow256(5) == 0x100 * W32 && Pow256(6) == 0x1_0000 * W32
    ensures Pow256(7) == 0x100_0000 * W32 && Pow256(8) == W64
  {
    assert Pow256(3) == 0x100_0000;
    assert Pow256(5) == 0x100 * W32;
    assert Pow256(6) == 0x1_0000 * W32;
    assert Pow256(7) == 0x100_0000 * W32;
  }

  // ----- byte memory -----

  type Memory = map<int, Byte>

  predicate Mapped(mem: Memory, addr: int, n: nat) {
    forall k :: addr <= k < addr + n ==> k in mem
  }

  function ReadBytes(mem: Memory, addr: int, n: nat): (bytes: seq<Byte>)
    requires Mapped(mem, addr, n)
    ensures |bytes| == n
  {
    seq(n, k requires 0 <= k < n => mem[addr + k])
  }

  function WriteBytes(mem: Memory, addr: int, bytes: seq<Byte>): Memory {
    map k | k in mem :: if addr <= k < addr + |bytes| then bytes[k - addr] else mem[k]
  }
}

/** 32-bit words, bitwise operators on naturals, and little-endian byte access.
    Words are mathematical integers with an explicit range; every wrap-around of
    the C code is written as a `% 0x1_0000_0000` where it happens. */
module Words {

  type byte = x: int | 0 <= x < 256
  type u32 = x: int | 0 <= x < 0x1_0000_0000

  /** Value of a 32-bit pattern read as a two's complement integer (`(int32_t)x`). */
  function Signed32(x: u32): int {
    if x < 0x8000_0000 then x else x - 0x1_0000_0000
  }

  /** Value of a 16-bit pattern read as a two's complement integer (`(int16_t)x`). */
  function Signed16(x: int): int
    requires 0 <= x < 0x1_0000
  {
    if x < 0x8000 then x else x - 0x1_0000
  }

  // ---------- bitwise operators ----------

  function Pow2(n: nat): (p: nat)
    ensures p >= 1
  {
    if n == 0 then 1 else 2 * Pow2(n - 1)
  }

  ghost predicate IsPow2(a: nat) {
    exists k: nat :: k < 32 && a == Pow2(k)
  }

  function And(x: nat, y: nat): (r: nat)
    ensures r <= x && r <= y
  {
    if x == 0 || y == 0 then 0
    else 2 * And(x / 2, y / 2) + (if x % 2 == 1 && y % 2 == 1 then 1 else 0)
  }

  function Or(x: nat, y: nat): (r: nat)
    ensures r >= x && r >= y
  {
    if x == 0 then y else if y == 0 then x
    else 2 * Or(x / 2, y / 2) + (if x % 2 == 1 || y % 2 == 1 then 1 else 0)
  }

  function Not32(x: u32): u32 {
    0xFFFF_FFFF - x
  }

  function Shr(x: nat, k: nat): nat {
    if k == 0 then x else Shr(x / 2, k - 1)
  }

  /** Bit k of x. */
  predicate Bit(x: nat, k: nat) {
    Shr(x, k) % 2 == 1
  }

  lemma {:induction false} ShrZero(k: nat)
    ensures Shr(0, k) == 0
  {
    if k > 0 { ShrZero(k - 1); }
  }

  /** The operators work on the lowest bit and on the rest independently. */
  lemma AndHalves(x: nat, y: nat)
    ensures And(x, y) / 2 == And(x / 2, y / 2) && (And(x, y) % 2 == 1 <==> x % 2 == 1 && y % 2 == 1)
  {
  }

  lemma OrHalves(x: nat, y: nat)
    ensures Or(x, y) / 2 == Or(x / 2, y / 2) && (Or(x, y) % 2 == 1 <==> x % 2 == 1 || y % 2 == 1)
  {
  }

  lemma {:induction false} BitAnd(x: nat, y: nat, k: nat)
    ensures Bit(And(x, y), k) <==> Bit(x, k) && Bit(y, k)
    decreases k
  {
    hide And;
    AndHalves(x, y);
    if k > 0 { BitAnd(x / 2, y / 2, k - 1); }
  }

  lemma {:induction false} BitOr(x: nat, y: nat, k: nat)
    ensures Bit(Or(x, y), k) <==> Bit(x, k) || Bit(y, k)
    decreases k
  {
    hide Or;
    OrHalves(x, y);
    if k > 0 { BitOr(x / 2, y / 2, k - 1); }
  }

  lemma {:induction false} OrBound(x: nat, y: nat, n: nat)
    requires x < Pow2(n) && y < Pow2(n)
    ensures Or(x, y) < Pow2(n)
  {
    if x != 0 && y != 0 {
      OrBound(x / 2, y / 2, n - 1);
    }
  }

  /** 1 << k has exactly bit k set. */
  lemma {:induction false} BitPow2(k: nat, j: nat)
    ensures Bit(Pow2(k), j) <==> j == k
  {
    if k == 0 {
      if j > 0 { ShrZero(j - 1); }
    } else if j > 0 {
      BitPow2(k - 1, j - 1);
    }
  }

  lemma {:induction false} BitComplement(x: nat, n: nat, j: nat)
    requires x < Pow2(n) && j < n
    ensures Bit(Pow2(n) - 1 - x, j) <==> !Bit(x, j)
  {
    if j > 0 {
      assert (Pow2(n) - 1 - x) / 2 == Pow2(n - 1) - 1 - x / 2;
      BitComplement(x / 2, n - 1, j - 1);
    }
  }

  lemma Pow2Of32()
    ensures Pow2(32) == 0x1_0000_0000
    ensures Pow2(24) == 0x100_0000
    ensures Pow2(16) == 0x1_0000
  {
    assert Pow2(8) == 0x100;
    Pow2Sum(8, 8);
    Pow2Sum(16, 8);
    Pow2Sum(16, 16);
  }

  lemma {:induction false} Pow2Sum(j: nat, k: nat)
    ensures Pow2(j + k) == Pow2(j) * Pow2(k)
  {
    if j > 0 { Pow2Sum(j - 1, k); }
  }

  lemma {:induction false} Pow2Monotone(j: nat, k: nat)
    requires j <= k
    ensures Pow2(j) <= Pow2(k)
  {
    if j < k { Pow2Monotone(j, k - 1); }
  }

  lemma ModDouble(y: nat, p: nat)
    requires p > 0
    ensures y % (2 * p) == 2 * ((y / 2) % p) + y % 2
  {
    var q, r := (y / 2) / p, (y / 2) % p;
    assert y == (2 * p) * q + (2 * r + y % 2) by {
      assert y / 2 == p * q + r;
      assert 2 * (p * q) == (2 * p) * q;
    }
    ModUnique(y, 2 * p, q, 2 * r + y % 2);
  }

  lemma ModUnique(y: int, d: int, q: int, r: int)
    requires d > 0 && 0 <= r < d && y == d * q + r
    ensures y % d == r && y / d == q
  {
    var q', r' := y / d, y % d;
    assert d * (q - q') == r' - r;
    assert d * (q' - q) == r - r';
    if q > q' {
      MulAtLeast(d, q - q');
    } else if q < q' {
      MulAtLeast(d, q' - q);
    }
  }

  lemma MulAtLeast(d: int, k: int)
    requires d > 0 && k >= 1
    ensures d * k >= d
  {
  }

  /** The k low bits of y. */
  function Low(y: nat, k: nat): (r: nat)
    ensures r <= y
  {
    if k == 0 then 0 else 2 * Low(y / 2, k - 1) + y % 2
  }

  lemma {:induction false} LowIsMod(y: nat, k: nat)
    ensures Low(y, k) == y % Pow2(k)
    decreases k
  {
    if k > 0 {
      LowIsMod(y / 2, k - 1);
      ModDouble(y, Pow2(k - 1));
    }
  }

  lemma {:induction false} AndLow(y: nat, k: nat)
    ensures And(y, Pow2(k) - 1) == Low(y, k)
    decreases k
  {
    if k > 0 && y != 0 {
      AndLow(y / 2, k - 1);
      assert (2 * Pow2(k - 1) - 1) / 2 == Pow2(k - 1) - 1;
    } else if y == 0 {
      LowOfZero(k);
    }
  }

  lemma {:induction false} LowOfZero(k: nat)
    ensures Low(0, k) == 0
  {
  }

  lemma {:induction false} AndHigh(y: nat, n: nat, k: nat)
    requires y < Pow2(n) && k <= n
    ensures Pow2(k) <= Pow2(n) && And(y, Pow2(n) - Pow2(k)) == y - Low(y, k)
    decreases n
  {
    hide And;
    Pow2Monotone(k, n);
    if k == 0 {
      AndAllOnes(y, n);
    } else {
      AndHigh(y / 2, n - 1, k - 1);
      AndEven(y, Pow2(n - 1) - Pow2(k - 1));
      if y == 0 { LowOfZero(k); }
    }
  }

  lemma AndEven(y: nat, m: nat)
    ensures And(y, 2 * m) == 2 * And(y / 2, m)
  {
    hide And;
    AndHalves(y, 2 * m);
  }

  lemma {:induction false} AndAllOnes(y: nat, n: nat)
    requires y < Pow2(n)
    ensures And(y, Pow2(n) - 1) == y
  {
    if y != 0 {
      AndAllOnes(y / 2, n - 1);
      assert (Pow2(n) - 1) / 2 == Pow2(n - 1) - 1;
    }
  }

  /** Masking with a low mask keeps the remainder modulo the power of two. */
  lemma AndLowMask(y: nat, k: nat)
    ensures And(y, Pow2(k) - 1) == y % Pow2(k)
  {
    AndLow(y, k);
    LowIsMod(y, k);
  }

  /** Masking with the n-bit complement of a power of two minus one rounds down to a multiple of it. */
  lemma AndHighMask(y: nat, n: nat, k: nat)
    requires y < Pow2(n) && k <= n
    ensures Pow2(k) <= Pow2(n) && And(y, Pow2(n) - Pow2(k)) == y - y % Pow2(k)
  {
    AndHigh(y, n, k);
    LowIsMod(y, k);
  }

  /** Or of two numbers that share no bits, split at bit k, is their sum. */
  lemma {:induction false} OrDisjoint(hi: nat, lo: nat, k: nat)
    requires Low(hi, k) == 0 && lo < Pow2(k)
    ensures Or(hi, lo) == hi + lo
    decreases k
  {
    if k > 0 && hi != 0 && lo != 0 {
      OrDisjoint(hi / 2, lo / 2, k - 1);
    }
  }

  // ---------- little-endian access ----------

  function Load16(m: seq<byte>, a: nat): (r: int)
    requires a + 2 <= |m|
    ensures 0 <= r < 0x1_0000
  {
    var b0: int, b1: int := m[a], m[a + 1];
    b0 + 256 * b1
  }

  function Load32(m: seq<byte>, a: nat): u32
    requires a + 4 <= |m|
  {
    var b0: int, b1: int, b2: int, b3: int := m[a], m[a + 1], m[a + 2], m[a + 3];
    b0 + 0x100 * b1 + 0x1_0000 * b2 + 0x100_0000 * b3
  }

  lemma LoadDigits(m: seq<byte>, a: nat)
    requires a + 4 <= |m|
    ensures var w := Load32(m, a);
      m[a] == w % 256 && m[a + 1] == w / 256 % 256 && m[a + 2] == w / 0x1_0000 % 256 && m[a + 3] == w / 0x100_0000
  {
    var b0: int, b1: int, b2: int, b3: int := m[a], m[a + 1], m[a + 2], m[a + 3];
    var w := Load32(m, a);
    ModUnique(w, 0x100, b1 + 0x100 * b2 + 0x1_0000 * b3, b0);
    ModUnique(w / 0x100, 0x100, b2 + 0x100 * b3, b1);
    ModUnique(w, 0x1_0000, b2 + 0x100 * b3, b0 + 0x100 * b1);
    ModUnique(w / 0x1_0000, 0x100, b3, b2);
    ModUnique(w, 0x100_0000, b3, b0 + 0x100 * b1 + 0x1_0000 * b2);
  }

  function Bytes16(v: int): (r: seq<byte>)
    requires 0 <= v < 0x1_0000
    ensures |r| == 2
  {
    [v % 256, v / 256]
  }

  function Bytes32(v: u32): (r: seq<byte>)
    ensures |r| == 4
  {
    [v % 256, v / 256 % 256, v / 0x1_0000 % 256, v / 0x100_0000]
  }

  lemma LoadBytes32(m: seq<byte>, a: nat, v: u32)
    requires a + 4 <= |m| && m[a..a + 4] == Bytes32(v)
    ensures Load32(m, a) == v
  {
    var b := m[a..a + 4];
    assert m[a] == b[0] && m[a + 1] == b[1] && m[a + 2] == b[2] && m[a + 3] == b[3];
    Digits(v);
  }

  lemma Digits(v: u32)
    ensures v == v % 0x100 + 0x100 * (v / 0x100 % 0x100) + 0x1_0000 * (v / 0x1_0000 % 0x100) + 0x100_0000 * (v / 0x100_0000)
  {
    var a := v / 0x100;
    var b := a / 0x100;
    assert b == v / 0x1_0000 && b / 0x100 == v / 0x100_0000;
    assert v == v % 0x100 + 0x100 * a && a == a % 0x100 + 0x100 * b && b == b % 0x100 + 0x100 * (b / 0x100);
  }

  lemma LoadBytes16(m: seq<byte>, a: nat, v: int)
    requires 0 <= v < 0x1_0000 && a + 2 <= |m| && m[a..a + 2] == Bytes16(v)
    ensures Load16(m, a) == v
  {
  }

  /** m' is m with the word at a replaced by v. */
  ghost predicate Stored(m: seq<byte>, m': seq<byte>, a: nat, v: u32) {
    && a + 4 <= |m| == |m'|
    && (forall k :: 0 <= k < |m| && !(a <= k < a + 4) ==> m'[k] == m[k])
    && m'[a..a + 4] == Bytes32(v)
    && Load32(m', a) == v
  }

  function Store32(m: seq<byte>, a: nat, v: u32): (r: seq<byte>)
    requires a + 4 <= |m|
    ensures |r| == |m| && Stored(m, r, a, v)
  {
    hide Load32;
    var r := m[..a] + Bytes32(v) + m[a + 4..];
    LoadBytes32(r, a, v);
    r
  }

  /** Two memories hold the same bytes in [lo, hi). */
  ghost predicate SameBytes(m: seq<byte>, m': seq<byte>, lo: int, hi: int) {
    0 <= lo && hi <= |m| == |m'| && forall k :: lo <= k < hi ==> m[k] == m'[k]
  }

  // ---------- multiples ----------

  predicate Aligned(i: nat, alignment: nat) {
    alignment <= 1 || i % alignment == 0
  }

  ghost predicate LeastAligned(r: nat, alignment: nat, x: nat) {
    && x <= r && Aligned(r, alignment)
    && forall q: nat :: x <= q < r ==> !Aligned(q, alignment)
  }

  lemma MultiplesApart(a: nat, q: nat, r: nat)
    requires a > 0 && q % a == 0 && r % a == 0 && q < r
    ensures q + a <= r
  {
    var x, y := q / a, r / a;
    assert q == a * x && r == a * y;
    if y > x {
      MulAtLeast(a, y - x);
      assert a * (y - x) == r - q;
    } else {
      MulMonotone(a, y, x);
    }
  }

  lemma MulMonotone(a: nat, y: nat, x: nat)
    requires y <= x
    ensures a * y <= a * x
  {
  }

  lemma RoundDown(a: nat, y: nat)
    requires a > 0
    ensures 0 <= y - y % a && (y - y % a) % a == 0 && y - a < y - y % a <= y
  {
    assert y == a * (y / a) + y % a;
    ModUnique(y - y % a, a, y / a, 0);
  }

  lemma LeastMultiple(a: nat, x: nat, r: nat)
    requires a > 0 && r % a == 0 && x <= r < x + a
    ensures LeastAligned(r, a, x)
  {
    forall q: nat | x <= q < r ensures !Aligned(q, a) {
      if a > 1 && q % a == 0 { MultiplesApart(a, q, r); }
    }
  }
}

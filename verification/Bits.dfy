/**
  The C integer operators the headers are written with, on unbounded naturals:
  `|` and `&` bit by bit, `<<` truncated to a word width, arithmetic `>>`, `~` on a
  word, and the conversions to unsigned and signed types of a given width.
 */
module Bits {

  function Min(x: nat, y: nat): nat {
    if x < y then x else y
  }

  function Pow2(k: nat): (r: nat)
    ensures r > 0
  {
    if k == 0 then 1 else 2 * Pow2(k - 1)
  }

  /** `x | y` */
  function BitOr(x: nat, y: nat): nat
    decreases x
  {
    if x == 0 then y
    else (if x % 2 == 1 || y % 2 == 1 then 1 else 0) + 2 * BitOr(x / 2, y / 2)
  }

  /** `x & y` */
  function BitAnd(x: nat, y: nat): nat
    decreases x
  {
    if x == 0 then 0
    else (if x % 2 == 1 && y % 2 == 1 then 1 else 0) + 2 * BitAnd(x / 2, y / 2)
  }

  /** `x` moved up `k` bits, nothing cut off */
  function ShiftUp(x: nat, k: nat): nat {
    if k == 0 then x else 2 * ShiftUp(x, k - 1)
  }

  /** `x << k` in a `w`-bit unsigned type */
  function Shl(w: nat, x: nat, k: nat): nat {
    ShiftUp(x, k) % Pow2(w)
  }

  /** `x >> k`, arithmetic for negative `x` (Dafny's division by a positive number rounds down) */
  function Shr(x: int, k: nat): int {
    x / Pow2(k)
  }

  /** `~x` in a `w`-bit unsigned type */
  function Complement(w: nat, x: nat): nat
    requires x < Pow2(w)
  {
    Pow2(w) - 1 - x
  }

  /** Conversion to a `w`-bit unsigned type */
  function Unsigned(w: nat, x: int): (r: nat)
    ensures r < Pow2(w)
  {
    x % Pow2(w)
  }

  /** Conversion of a `w`-bit pattern to the signed type of the same width (two's complement) */
  function Signed(w: nat, x: nat): int
    requires w > 0 && x < Pow2(w)
  {
    if x < Pow2(w - 1) then x else x - Pow2(w)
  }

  /** Bit `i` of `x` */
  predicate Bit(x: nat, i: nat) {
    x / Pow2(i) % 2 == 1
  }

  lemma HalfShift(x: nat, i: nat)
    ensures x / Pow2(i + 1) == x / 2 / Pow2(i)
  {
    var p := Pow2(i);
    var q := x / 2 / p;
    assert x == 2 * (x / 2) + x % 2;
    assert x / 2 == p * q + x / 2 % p;
    QuotientUnique(x, 2 * p, q, 2 * (x / 2 % p) + x % 2);
  }

  lemma BitHalf(x: nat, i: nat)
    requires i > 0
    ensures Bit(x, i) == Bit(x / 2, i - 1)
  {
    HalfShift(x, i - 1);
  }

  lemma QuotientUnique(x: int, d: nat, q: int, r: int)
    requires d > 0 && x == d * q + r && 0 <= r < d
    ensures x / d == q && x % d == r
  {
    var q', r' := x / d, x % d;
    assert d * (q - q') == r' - r;
    if q > q' {
      assert d * (q - q') >= d by { MulAtLeast(d, q - q'); }
    } else if q < q' {
      assert d * (q' - q) >= d by { MulAtLeast(d, q' - q); }
    }
  }

  lemma MulAtLeast(d: nat, m: int)
    requires m >= 1
    ensures d * m >= d
  {
  }

  lemma MulAssoc(c: int, x: int, d: int)
    ensures c * (x * d) == x * (c * d)
    ensures (x * c) * d == x * (c * d)
  {
  }

  /** Dividing twice is dividing by the product. */
  lemma DivDiv(v: int, a: nat, b: nat)
    requires a > 0 && b > 0
    ensures a * b > 0 && v / a / b == v / (a * b)
    ensures v % (a * b) == v % a + a * (v / a % b)
  {
    var m := v / a;
    var q, r := m / b, m % b;
    MulAssoc(a, q, b);
    assert v == a * (q * b + r) + v % a;
    assert a * (q * b + r) == a * (q * b) + a * r;
    MulMonotone(r, b - 1, a);
    assert (b - 1) * a == a * b - a;
    QuotientUnique(v, a * b, q, a * r + v % a);
  }

  lemma ModSmall(x: nat, d: nat)
    requires x < d
    ensures x % d == x
  {
    QuotientUnique(x, d, 0, x);
  }

  lemma ModMod(v: int, a: nat, b: nat)
    requires a > 0 && b > 0
    ensures a * b > 0 && v % (a * b) % a == v % a
  {
    DivDiv(v, a, b);
    ModAddMultiple(v % a, v / a % b, a);
    ModSmall(v % a, a);
  }

  /** `BitOr` is the bitwise or. */
  lemma {:induction false} OrBit(x: nat, y: nat, i: nat)
    ensures Bit(BitOr(x, y), i) <==> Bit(x, i) || Bit(y, i)
  {
    if x == 0 {
      assert 0 / Pow2(i) == 0 by { QuotientUnique(0, Pow2(i), 0, 0); }
    } else if i > 0 {
      OrBit(x / 2, y / 2, i - 1);
      assert BitOr(x, y) / 2 == BitOr(x / 2, y / 2);
      BitHalf(x, i);
      BitHalf(y, i);
      BitHalf(BitOr(x, y), i);
    } else {
      assert Pow2(0) == 1;
    }
  }

  /** `BitAnd` is the bitwise and. */
  lemma {:induction false} AndBit(x: nat, y: nat, i: nat)
    ensures Bit(BitAnd(x, y), i) <==> Bit(x, i) && Bit(y, i)
  {
    if x == 0 {
      assert 0 / Pow2(i) == 0 by { QuotientUnique(0, Pow2(i), 0, 0); }
    } else if i > 0 {
      AndBit(x / 2, y / 2, i - 1);
      assert BitAnd(x, y) / 2 == BitAnd(x / 2, y / 2);
      BitHalf(x, i);
      BitHalf(y, i);
      BitHalf(BitAnd(x, y), i);
    } else {
      assert Pow2(0) == 1;
    }
  }

  lemma {:induction false} OrCommutes(x: nat, y: nat)
    ensures BitOr(x, y) == BitOr(y, x)
    decreases x + y
  {
    if x != 0 || y != 0 {
      OrCommutes(x / 2, y / 2);
    }
  }

  lemma {:induction false} Pow2Add(j: nat, k: nat)
    ensures Pow2(j + k) == Pow2(j) * Pow2(k)
  {
    if j > 0 {
      Pow2Add(j - 1, k);
      assert Pow2(j + k) == 2 * Pow2(j - 1 + k);
    }
  }

  lemma {:induction false} Pow2Monotone(j: nat, k: nat)
    requires j <= k
    ensures Pow2(j) <= Pow2(k)
  {
    if j < k {
      Pow2Monotone(j, k - 1);
    }
  }

  lemma Pow2Table()
    ensures Pow2(8) == 0x100 && Pow2(16) == 0x1_0000 && Pow2(24) == 0x100_0000 && Pow2(32) == 0x1_0000_0000
    ensures Pow2(23) == 0x80_0000 && Pow2(31) == 0x8000_0000
  {
    assert Pow2(8) == 0x100;
    Pow2Add(8, 8);
    Pow2Add(16, 8);
    Pow2Add(16, 16);
    assert Pow2(24) == 2 * Pow2(23);
    assert Pow2(32) == 2 * Pow2(31);
  }

  lemma {:induction false} ShiftUpIsMul(x: nat, k: nat)
    ensures ShiftUp(x, k) == x * Pow2(k)
  {
    if k > 0 {
      ShiftUpIsMul(x, k - 1);
      MulAssoc(2, x, Pow2(k - 1));
    }
  }

  lemma {:induction false} ShiftUpShiftUp(x: nat, j: nat, k: nat)
    ensures ShiftUp(ShiftUp(x, j), k) == ShiftUp(x, j + k)
  {
    if k > 0 {
      ShiftUpShiftUp(x, j, k - 1);
    }
  }

  /** Or-ing in a value above every bit of `x` is addition. */
  lemma {:induction false} OrIsSum(x: nat, y: nat, k: nat)
    requires x < Pow2(k)
    ensures BitOr(x, ShiftUp(y, k)) == x + ShiftUp(y, k)
  {
    if x != 0 {
      OrIsSum(x / 2, y, k - 1);
    }
  }

  /** And with a mask whose low `k` bits are clear ignores the low `k` bits. */
  lemma {:induction false} AndShifted(high: nat, low: nat, y: nat, k: nat)
    requires low < Pow2(k)
    ensures BitAnd(ShiftUp(high, k) + low, ShiftUp(y, k)) == ShiftUp(BitAnd(high, y), k)
  {
    if k > 0 {
      AndShifted(high, low / 2, y, k - 1);
      var x := ShiftUp(high, k) + low;
      AndEven(x, ShiftUp(y, k - 1));
      assert x / 2 == ShiftUp(high, k - 1) + low / 2;
    }
  }

  lemma AndEven(x: nat, z: nat)
    ensures BitAnd(x, 2 * z) == 2 * BitAnd(x / 2, z)
  {
    assert 2 * z / 2 == z && 2 * z % 2 == 0;
  }

  /** And with `m` ones keeps an `m`-bit number. */
  lemma {:induction false} AndOnes(x: nat, m: nat)
    requires x < Pow2(m)
    ensures BitAnd(x, Pow2(m) - 1) == x
  {
    if m > 0 {
      AndOnes(x / 2, m - 1);
      var ones := Pow2(m) - 1;
      assert ones / 2 == Pow2(m - 1) - 1 && ones % 2 == 1;
      AndStep(x, ones);
    }
  }

  /** And with a `k`-bit mask ignores the bits above. */
  lemma {:induction false} AndLow(high: nat, low: nat, y: nat, k: nat)
    requires low < Pow2(k) && y < Pow2(k)
    ensures BitAnd(ShiftUp(high, k) + low, y) == BitAnd(low, y)
  {
    if k > 0 {
      AndLow(high, low / 2, y / 2, k - 1);
      var x := ShiftUp(high, k) + low;
      assert x / 2 == ShiftUp(high, k - 1) + low / 2 && x % 2 == low % 2;
      AndStep(x, y);
      AndStep(low, y);
    } else {
      AndZero(ShiftUp(high, 0));
    }
  }

  lemma AndMod(x: nat, y: nat, k: nat)
    requires y < Pow2(k)
    ensures BitAnd(x, y) == BitAnd(x % Pow2(k), y)
  {
    var high, low := DivMod(x, Pow2(k));
    ShiftUpIsMul(high, k);
    AndLow(high, low, y, k);
  }

  /** The definition of `&` without its case for zero */
  lemma AndStep(x: nat, y: nat)
    ensures BitAnd(x, y) == (if x % 2 == 1 && y % 2 == 1 then 1 else 0) + 2 * BitAnd(x / 2, y / 2)
  {
  }

  lemma {:induction false} AndZero(x: nat)
    ensures BitAnd(x, 0) == 0
  {
    if x != 0 {
      AndZero(x / 2);
    }
  }

  lemma {:induction false} BitOfPow2(k: nat, i: nat)
    ensures Bit(Pow2(k), i) <==> i == k
  {
    if k > 0 && i > 0 {
      BitOfPow2(k - 1, i - 1);
      HalfShift(Pow2(k), i - 1);
    } else if k == 0 && i > 0 {
      HalfShift(1, i - 1);
      QuotientUnique(0, Pow2(i - 1), 0, 0);
    }
  }

  /** Clearing the low `k` bits of a `w`-bit number by masking rounds it down to a multiple of 2^k. */
  lemma ClearLowBits(w: nat, x: nat, k: nat)
    requires k <= w && x < Pow2(w)
    ensures Pow2(k) - 1 < Pow2(w)
    ensures BitAnd(x, Complement(w, Pow2(k) - 1)) == x - x % Pow2(k)
  {
    var high, low := SplitAt(w, x, k);
    MaskIsHighOnes(w, k);
    AndHigh(high, low, w - k, k);
  }

  /** `~(2^k - 1)` is a run of ones above `k` zeros. */
  lemma MaskIsHighOnes(w: nat, k: nat)
    requires k <= w
    ensures Pow2(k) - 1 < Pow2(w)
    ensures Complement(w, Pow2(k) - 1) == ShiftUp(Pow2(w - k) - 1, k)
  {
    Pow2Monotone(k, w);
    Pow2Add(w - k, k);
    ShiftUpIsMul(Pow2(w - k) - 1, k);
  }

  /** And with `m` ones above `k` zeros keeps the part above bit `k` of an `m + k`-bit number. */
  lemma AndHigh(high: nat, low: nat, m: nat, k: nat)
    requires low < Pow2(k) && high < Pow2(m)
    ensures BitAnd(ShiftUp(high, k) + low, ShiftUp(Pow2(m) - 1, k)) == ShiftUp(high, k)
  {
    AndShifted(high, low, Pow2(m) - 1, k);
    AndOnes(high, m);
  }

  /** A `w`-bit number cut at bit `k` */
  lemma SplitAt(w: nat, x: nat, k: nat) returns (high: nat, low: nat)
    requires k <= w && x < Pow2(w)
    ensures x == ShiftUp(high, k) + low && low == x % Pow2(k) < Pow2(k) && high < Pow2(w - k)
  {
    high, low := DivMod(x, Pow2(k));
    ShiftUpIsMul(high, k);
    Pow2Add(w - k, k);
    QuotientBound(x, Pow2(k), Pow2(w - k));
  }

  lemma DivMod(x: nat, d: nat) returns (q: nat, r: nat)
    requires d > 0
    ensures x == q * d + r && r < d && q == x / d && r == x % d
  {
    q, r := x / d, x % d;
  }

  lemma MulSucc(q: int, l: int)
    ensures (q + 1) * l == q * l + l
  {
  }

  lemma QuotientBound(x: nat, d: nat, q: nat)
    requires d > 0 && x < q * d
    ensures x / d < q
  {
    if x / d >= q {
      MulMonotone(q, x / d, d);
    }
  }

  lemma MulMonotone(x: int, y: int, d: nat)
    requires x <= y
    ensures x * d <= y * d
  {
  }

  /** Adding a multiple of the divisor does not change the remainder. */
  lemma ModAddMultiple(x: int, m: int, d: nat)
    requires d > 0
    ensures (x + m * d) % d == x % d
    ensures (x + m * d) / d == x / d + m
  {
    assert x + m * d == d * (x / d + m) + x % d;
    QuotientUnique(x + m * d, d, x / d + m, x % d);
  }
}

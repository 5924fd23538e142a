/**
  Numbers as byte strings of any length, low byte first and high byte first: the format
  the headers call machine independent, and the key format of the MyISAM packer.
 */
module Endian {
  import opened Bits

  type byte = x: int | 0 <= x < 256

  /** The number a byte string denotes, low byte first */
  function LeValue(b: seq<byte>): nat {
    if b == [] then 0 else b[0] + 256 * LeValue(b[1..])
  }

  /** The number a byte string denotes, high byte first */
  function BeValue(b: seq<byte>): nat {
    if b == [] then 0 else 256 * BeValue(b[..|b| - 1]) + b[|b| - 1]
  }

  /** The low `n` bytes of `v` in two's complement, low byte first */
  function LeBytes(v: int, n: nat): (b: seq<byte>)
    ensures |b| == n
    decreases n
  {
    if n == 0 then [] else [v % 256] + LeBytes(v / 256, n - 1)
  }

  function Reverse(b: seq<byte>): (r: seq<byte>)
    ensures |r| == |b|
  {
    if b == [] then [] else Reverse(b[1..]) + [b[0]]
  }

  /** The low `n` bytes of `v`, high byte first */
  function BeBytes(v: int, n: nat): (b: seq<byte>)
    ensures |b| == n
  {
    Reverse(LeBytes(v, n))
  }

  function Zeros(n: nat): (b: seq<byte>)
    ensures |b| == n
  {
    seq(n, _ => 0)
  }

  // ---- low byte first ----

  lemma {:induction false} LeBound(b: seq<byte>)
    ensures LeValue(b) < Pow2(8 * |b|)
  {
    if b != [] {
      LeBound(b[1..]);
      Pow2Add(8, 8 * |b[1..]|);
      assert Pow2(8) == 256;
    }
  }

  lemma ShiftUpByte(x: nat)
    ensures ShiftUp(x, 8) == 256 * x
  {
    ShiftUpIsMul(x, 8);
    assert Pow2(8) == 256;
  }

  /** A concatenation is the low part plus the high part shifted past it. */
  lemma {:induction false} LeConcat(x: seq<byte>, y: seq<byte>)
    ensures LeValue(x + y) == LeValue(x) + ShiftUp(LeValue(y), 8 * |x|)
  {
    if x == [] {
      assert x + y == y;
    } else {
      assert (x + y)[1..] == x[1..] + y;
      LeConcat(x[1..], y);
      ShiftUpByte(ShiftUp(LeValue(y), 8 * |x[1..]|));
      ShiftUpShiftUp(LeValue(y), 8 * |x[1..]|, 8);
    }
  }

  /**
    The idea behind every shift-and-or load: shifting the high part past the low part and
    or-ing the two gives the number of the concatenated bytes, in any word wide enough.
   */
  lemma OrConcat(w: nat, x: seq<byte>, y: seq<byte>)
    requires 8 * (|x| + |y|) <= w
    ensures BitOr(LeValue(x), Shl(w, LeValue(y), 8 * |x|)) == LeValue(x + y)
  {
    LeBound(x);
    LeBound(x + y);
    LeConcat(x, y);
    Pow2Monotone(8 * |x + y|, w);
    ModSmall(ShiftUp(LeValue(y), 8 * |x|), Pow2(w));
    OrIsSum(LeValue(x), LeValue(y), 8 * |x|);
  }

  /** One more byte of a shift-and-or load */
  lemma OrByte(w: nat, x: seq<byte>, y: byte)
    requires 8 * (|x| + 1) <= w
    ensures BitOr(LeValue(x), Shl(w, y, 8 * |x|)) == LeValue(x + [y])
  {
    assert LeValue([y]) == y;
    OrConcat(w, x, [y]);
  }

  /** Load after store is the operand modulo 256^n. */
  lemma {:induction false} LeLoadStore(v: int, n: nat)
    ensures LeValue(LeBytes(v, n)) == v % Pow2(8 * n)
    decreases n
  {
    if n > 0 {
      LeLoadStore(v / 256, n - 1);
      assert LeBytes(v, n)[1..] == LeBytes(v / 256, n - 1);
      Pow2Add(8, 8 * (n - 1));
      assert Pow2(8) == 256;
      DivDiv(v, 256, Pow2(8 * (n - 1)));
    } else {
      assert v % 1 == 0;
    }
  }

  /** Store after load restores the bytes. */
  lemma {:induction false} LeStoreLoad(b: seq<byte>)
    ensures LeBytes(LeValue(b), |b|) == b
  {
    if b != [] {
      LeStoreLoad(b[1..]);
      QuotientUnique(LeValue(b), 256, LeValue(b[1..]), b[0]);
      assert b == [b[0]] + b[1..];
    }
  }

  /** Only the residue modulo 256^n of the operand reaches the bytes. */
  lemma LeBytesCongruent(v: int, u: int, n: nat)
    requires v % Pow2(8 * n) == u % Pow2(8 * n)
    ensures LeBytes(v, n) == LeBytes(u, n)
  {
    LeLoadStore(v, n);
    LeLoadStore(u, n);
    LeStoreLoad(LeBytes(v, n));
    LeStoreLoad(LeBytes(u, n));
  }

  lemma LeBytesUnsigned(v: int, w: nat, n: nat)
    requires 8 * n <= w
    ensures LeBytes(Unsigned(w, v), n) == LeBytes(v, n)
  {
    Pow2Add(8 * n, w - 8 * n);
    ModMod(v, Pow2(8 * n), Pow2(w - 8 * n));
    LeBytesCongruent(Unsigned(w, v), v, n);
  }

  /** Byte `k` of a store is the operand shifted right `8 * k` times, truncated. */
  lemma {:induction false} LeByteAt(v: int, n: nat, k: nat)
    requires k < n
    ensures LeBytes(v, n)[k] == Unsigned(8, Shr(v, 8 * k))
    decreases n
  {
    assert Pow2(8) == 256;
    if k == 0 {
      assert v / 1 == v;
    } else {
      LeByteAt(v / 256, n - 1, k - 1);
      ShrShr(v, 8, 8 * (k - 1));
    }
  }

  lemma ShrShr(v: int, j: nat, k: nat)
    ensures Shr(Shr(v, j), k) == Shr(v, j + k)
  {
    Pow2Add(j, k);
    DivDiv(v, Pow2(j), Pow2(k));
  }

  /** A store of `m + n` bytes is a store of the low `m` followed by one of the operand shifted. */
  lemma {:induction false} LeBytesSplit(v: int, m: nat, n: nat)
    ensures LeBytes(v, m + n) == LeBytes(v, m) + LeBytes(Shr(v, 8 * m), n)
    decreases m
  {
    if m == 0 {
      assert v / 1 == v;
    } else {
      LeBytesSplit(v / 256, m - 1, n);
      assert Shr(v / 256, 8 * (m - 1)) == Shr(v, 8 * m) by {
        assert Pow2(8) == 256;
        ShrShr(v, 8, 8 * (m - 1));
      }
      var first, middle, last := [v % 256], LeBytes(v / 256, m - 1), LeBytes(Shr(v, 8 * m), n);
      assert LeBytes(v, m + n) == first + (middle + last);
      assert LeBytes(v, m) + last == first + middle + last;
    }
  }

  // ---- high byte first ----

  lemma {:induction false} ReverseConcat(x: seq<byte>, y: seq<byte>)
    ensures Reverse(x + y) == Reverse(y) + Reverse(x)
  {
    if x == [] {
      assert x + y == y;
      assert Reverse(y) + Reverse(x) == Reverse(y);
    } else {
      assert (x + y)[1..] == x[1..] + y;
      ReverseConcat(x[1..], y);
    }
  }

  lemma {:induction false} ReverseInvolutive(b: seq<byte>)
    ensures Reverse(Reverse(b)) == b
  {
    if b != [] {
      ReverseConcat(Reverse(b[1..]), [b[0]]);
      ReverseInvolutive(b[1..]);
      assert Reverse([b[0]]) == [b[0]];
      assert b == [b[0]] + b[1..];
    }
  }

  lemma {:induction false} ReverseAt(b: seq<byte>, i: nat)
    requires i < |b|
    ensures Reverse(b)[i] == b[|b| - 1 - i]
  {
    if i < |b| - 1 {
      ReverseAt(b[1..], i);
    }
  }

  /** The high-byte-first number is the low-byte-first number of the reversed bytes. */
  lemma {:induction false} BeIsLeReversed(b: seq<byte>)
    ensures BeValue(b) == LeValue(Reverse(b))
  {
    if b != [] {
      var front, last := b[..|b| - 1], b[|b| - 1];
      BeIsLeReversed(front);
      assert b == front + [last];
      ReverseConcat(front, [last]);
      assert Reverse([last]) == [last];
      assert Reverse(b)[1..] == Reverse(front);
    }
  }

  lemma ReverseZeros(n: nat)
    ensures Reverse(Zeros(n)) == Zeros(n)
  {
    if n > 0 {
      assert Zeros(n)[1..] == Zeros(n - 1);
      ReverseZeros(n - 1);
    }
  }

  lemma {:induction false} ZerosValue(n: nat)
    ensures LeValue(Zeros(n)) == 0
  {
    if n > 0 {
      assert Zeros(n)[1..] == Zeros(n - 1);
      ZerosValue(n - 1);
    }
  }

  lemma PadLow(b: seq<byte>, k: nat)
    ensures LeValue(Zeros(k) + b) == ShiftUp(LeValue(b), 8 * k)
  {
    LeConcat(Zeros(k), b);
    ZerosValue(k);
  }

  lemma PadHigh(b: seq<byte>, k: nat)
    ensures LeValue(b + Zeros(k)) == LeValue(b)
  {
    LeConcat(b, Zeros(k));
    ZerosValue(k);
    ShiftUpIsMul(0, 8 * |b|);
  }

  /** Reversal of the `m` bytes of a word (`bswapq` is the case `m == 8`) */
  function ByteSwap(v: nat, m: nat): nat {
    LeValue(Reverse(LeBytes(v, m)))
  }

  /**
    Loading `n` bytes low byte first into an `m`-byte word, moving them to the top of the
    word and swapping its bytes reads them high byte first.
   */
  lemma SwapReads(b: seq<byte>, m: nat)
    requires |b| <= m
    ensures ByteSwap(Shl(8 * m, LeValue(b), 8 * (m - |b|)), m) == BeValue(b)
  {
    var k := m - |b|;
    var word := Zeros(k) + b;
    assert |word| == m;
    PadLow(b, k);
    LeBound(word);
    ModSmall(LeValue(word), Pow2(8 * m));
    LeStoreLoad(word);
    ReverseConcat(Zeros(k), b);
    ReverseZeros(k);
    PadHigh(Reverse(b), k);
    BeIsLeReversed(b);
  }

  // ---- two's complement ----

  /** The signed number a byte string denotes, low byte first */
  function LeSigned(b: seq<byte>): int
    requires b != []
  {
    LeBound(b);
    Signed(8 * |b|, LeValue(b))
  }

  /** The signed value is the one number of the signed range congruent to the pattern. */
  lemma SignedUnique(w: nat, v: int, x: int)
    requires w > 0
    ensures -(Pow2(w - 1) as int) <= Signed(w, Unsigned(w, v)) < Pow2(w - 1)
    ensures Signed(w, Unsigned(w, v)) % Pow2(w) == v % Pow2(w)
    ensures -(Pow2(w - 1) as int) <= x < Pow2(w - 1) && x % Pow2(w) == v % Pow2(w)
            ==> x == Signed(w, Unsigned(w, v))
  {
    var p: int, u: int := Pow2(w), Unsigned(w, v);
    assert p == 2 * Pow2(w - 1);
    QuotientUnique(u, p, 0, u);
    ModAddMultiple(u, -1, p);
    assert (u + -1 * p) % p == u % p;
    if -(p / 2) <= x < Pow2(w - 1) {
      if x >= 0 {
        QuotientUnique(x, p, 0, x);
      } else {
        QuotientUnique(x, p, -1, x + p);
      }
    }
  }
}

/**
  byte_order_generic_x86.h and byte_order_generic_x86_64.h: the forms that read and write
  whole words in the processor's own (low byte first) order. Every contract equates the
  fast form with the reference form, or with the bytes the reference form writes.
 */
module CodecX86 {
  import opened Bits
  import opened Endian
  import opened Memory
  import CodecGeneric
  import HighByteFirst

  /** A four-byte word access and a one-byte access */
  function Uint5korr(a: seq<byte>): (r: nat)
    requires |a| >= 5
    ensures r == CodecGeneric.Uint5korr(a) == LeValue(a[..5])
  {
    var lo, hi := Word(Little, a[..4]), a[4];
    CodecGeneric.NextByte(64, a, 4, lo);
    BitOr(lo, Shl(64, hi, 32))
  }

  /** A four-byte and a two-byte word access */
  function Uint6korr(a: seq<byte>): (r: nat)
    requires |a| >= 6
    ensures r == CodecGeneric.Uint6korr(a) == LeValue(a[..6])
  {
    var lo, hi := Word(Little, a[..4]), Word(Little, a[4..6]);
    OrConcat(64, a[..4], a[4..6]);
    assert a[..4] + a[4..6] == a[..6];
    BitOr(lo, Shl(64, hi, 32))
  }

  /** The middle byte goes through a conversion to a 32-bit type here. */
  method Int3store(t: array<byte>, at: nat, v: int)
    requires at + 3 <= t.Length
    modifies t
    ensures t[..] == Splice(old(t[..]), at, LeBytes(v, 3))
  {
    t[at] := Unsigned(8, v);
    t[at + 1] := Unsigned(8, Shr(Unsigned(32, v), 8));
    t[at + 2] := Unsigned(8, Shr(v, 16));
    CodecGeneric.StoredBytes(v, 3);
    LeBytesUnsigned(v, 32, 3);
    LeByteAt(Unsigned(32, v), 3, 1);
    assert t[at + 1] == LeBytes(v, 3)[1];
  }

  method Int5store(t: array<byte>, at: nat, v: int)
    requires at + 5 <= t.Length
    modifies t
    ensures t[..] == Splice(old(t[..]), at, LeBytes(v, 5))
  {
    StoreWord(Little, t, at, Unsigned(32, v), 4);
    LeBytesUnsigned(v, 32, 4);
    ghost var mid := t[..];
    t[at + 4] := Unsigned(8, Shr(v, 32));
    SpliceOfSame(mid, t[..], at + 4, [t[at + 4]]);
    SpliceAdjacent(old(t[..]), at, LeBytes(v, 4), [t[at + 4]]);
    FifthByte(v);
  }

  lemma FifthByte(v: int)
    ensures LeBytes(v, 5) == LeBytes(v, 4) + [Unsigned(8, Shr(v, 32))]
  {
    LeBytesSplit(v, 4, 1);
    LeByteAt(Shr(v, 32), 1, 0);
    assert Shr(Shr(v, 32), 0) == Shr(v, 32);
  }

  method Int6store(t: array<byte>, at: nat, v: int)
    requires at + 6 <= t.Length
    modifies t
    ensures t[..] == Splice(old(t[..]), at, LeBytes(v, 6))
  {
    StoreWord(Little, t, at, Unsigned(32, v), 4);
    StoreWord(Little, t, at + 4, Unsigned(16, Shr(v, 32)), 2);
    LeBytesUnsigned(v, 32, 4);
    LeBytesUnsigned(Shr(v, 32), 16, 2);
    LeBytesSplit(v, 4, 2);
    SpliceAdjacent(old(t[..]), at, LeBytes(v, 4), LeBytes(Shr(v, 32), 2));
  }

  /** `*(word *) t = (word) v` */
  method WordStore(t: array<byte>, at: nat, v: int, n: nat)
    requires at + n <= t.Length
    modifies t
    ensures t[..] == Splice(old(t[..]), at, LeBytes(v, n))
  {
    StoreWord(Little, t, at, Unsigned(8 * n, v), n);
    LeBytesUnsigned(v, 8 * n, n);
  }

  /** The `bswapq` instruction */
  function Bswapq(v: nat): nat {
    ByteSwap(v, 8)
  }

  function MiUint5korr(a: seq<byte>): (r: nat)
    requires |a| >= 5
    ensures r == HighByteFirst.MiUint5korr(a) == BeValue(a[..5])
  {
    SwapReads(a[..5], 8);
    Bswapq(Shl(64, Uint5korr(a), 24))
  }

  function MiUint6korr(a: seq<byte>): (r: nat)
    requires |a| >= 6
    ensures r == HighByteFirst.MiUint6korr(a) == BeValue(a[..6])
  {
    SwapReads(a[..6], 8);
    Bswapq(Shl(64, Uint6korr(a), 16))
  }

  function MiUint7korr(a: seq<byte>): (r: nat)
    requires |a| >= 7
    ensures r == HighByteFirst.MiUint7korr(a) == BeValue(a[..7])
  {
    var lo, mid, hi := Word(Little, a[..4]), Word(Little, a[4..6]), a[6];
    SevenBytes(a);
    SwapReads(a[..7], 8);
    Bswapq(Shl(64, BitOr(BitOr(lo, Shl(64, mid, 32)), Shl(64, hi, 48)), 8))
  }

  /** A four-byte, a two-byte and a one-byte access */
  lemma SevenBytes(a: seq<byte>)
    requires |a| >= 7
    ensures BitOr(BitOr(LeValue(a[..4]), Shl(64, LeValue(a[4..6]), 32)), Shl(64, a[6], 48)) == LeValue(a[..7])
  {
    OrConcat(64, a[..4], a[4..6]);
    assert a[..4] + a[4..6] == a[..6];
    CodecGeneric.NextByte(64, a, 6, LeValue(a[..6]));
  }

  /** Defined here and again, unguarded, in private/myisampack.h; the two agree everywhere. */
  function MiUint8korr(a: seq<byte>): (r: nat)
    requires |a| >= 8
    ensures r == HighByteFirst.MiUint8korr(a) == BeValue(a[..8])
  {
    var b := a[..8];
    SwapReads(b, 8);
    LeBound(b);
    ModSmall(LeValue(b), Pow2(64));
    assert Shl(64, LeValue(b), 0) == LeValue(b);
    Bswapq(Word(Little, b))
  }
}

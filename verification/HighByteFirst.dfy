/**
  High-byte-first loads by shifts alone: the portable readers of private/myisampack.h
  (the ones a byte-swapping reader replaces) and the network-order load of my_byteorder.h.
 */
module HighByteFirst {
  import opened Bits
  import opened Endian
  import opened CodecGeneric

  /** Low bytes `x` or-ed with high bytes `y` read `a` backwards. */
  lemma Backwards(a: seq<byte>, x: seq<byte>, y: seq<byte>)
    requires |a| == |x| + |y| <= 8
    requires forall i :: 0 <= i < |a| ==> (x + y)[i] == a[|a| - 1 - i]
    ensures BitOr(LeValue(x), Shl(64, LeValue(y), 8 * |x|)) == BeValue(a)
  {
    forall i | 0 <= i < |a|
      ensures Reverse(a)[i] == (x + y)[i]
    {
      ReverseAt(a, i);
    }
    assert Reverse(a) == x + y;
    OrConcat(64, x, y);
    BeIsLeReversed(a);
  }

  function MiUint5korr(a: seq<byte>): (r: nat)
    requires |a| >= 5
    ensures r == BeValue(a[..5])
  {
    assert LeValue([a[0]]) == a[0];
    Backwards(a[..5], [a[4], a[3], a[2], a[1]], [a[0]]);
    BitOr(OrFour(a[4], a[3], a[2], a[1]), Shl(64, a[0], 32))
  }

  function MiUint6korr(a: seq<byte>): (r: nat)
    requires |a| >= 6
    ensures r == BeValue(a[..6])
  {
    OrUp([a[1], a[0]], 2);
    Backwards(a[..6], [a[5], a[4], a[3], a[2]], [a[1], a[0]]);
    BitOr(OrFour(a[5], a[4], a[3], a[2]), Shl(64, BitOr(a[1], Shl(32, a[0], 8)), 32))
  }

  function MiUint7korr(a: seq<byte>): (r: nat)
    requires |a| >= 7
    ensures r == BeValue(a[..7])
  {
    OrUp([a[2], a[1], a[0]], 3);
    Backwards(a[..7], [a[6], a[5], a[4], a[3]], [a[2], a[1], a[0]]);
    BitOr(OrFour(a[6], a[5], a[4], a[3]),
          Shl(64, BitOr(BitOr(a[2], Shl(32, a[1], 8)), Shl(32, a[0], 16)), 32))
  }

  function MiUint8korr(a: seq<byte>): (r: nat)
    requires |a| >= 8
    ensures r == BeValue(a[..8])
  {
    Backwards(a[..8], [a[7], a[6], a[5], a[4]], [a[3], a[2], a[1], a[0]]);
    BitOr(OrFour(a[7], a[6], a[5], a[4]), Shl(64, OrFour(a[3], a[2], a[1], a[0]), 32))
  }

  /** The shift-and-or form of two or three bytes */
  lemma OrUp(b: seq<byte>, n: nat)
    requires 2 <= n == |b| <= 3
    ensures n == 2 ==> BitOr(b[0], Shl(32, b[1], 8)) == LeValue(b)
    ensures n == 3 ==> BitOr(BitOr(b[0], Shl(32, b[1], 8)), Shl(32, b[2], 16)) == LeValue(b)
  {
    FirstByte(b);
    NextByte(32, b, 1, b[0]);
    if n == 3 {
      NextByte(32, b, 2, BitOr(b[0], Shl(32, b[1], 8)));
    }
    assert b[..n] == b;
  }

  /** The signed number in network byte order (Appendix B of RFC 791) */
  function Int4net(a: seq<byte>): (r: int)
    requires |a| >= 4
    ensures BeValue(a[..4]) < Pow2(32) && r == Signed(32, BeValue(a[..4]))
  {
    FourBackwards(a[..4]);
    Signed(32, OrFour(a[3], a[2], a[1], a[0]))
  }

  lemma FourBackwards(a: seq<byte>)
    requires |a| == 4
    ensures LeValue([a[3], a[2], a[1], a[0]]) == BeValue(a)
  {
    var x := [a[3], a[2], a[1], a[0]];
    forall i | 0 <= i < 4
      ensures Reverse(a)[i] == x[i]
    {
      ReverseAt(a, i);
    }
    assert Reverse(a) == x;
    BeIsLeReversed(a);
  }
}

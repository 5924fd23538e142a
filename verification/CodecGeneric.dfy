/**
  byte_order_generic.h: the reference loads and stores, one byte at a time with shifts.
  A load's argument is the memory from the pointer on.
 */
module CodecGeneric {
  import opened Bits
  import opened Endian
  import opened Memory

  /** One more step of a shift-and-or load */
  lemma NextByte(w: nat, a: seq<byte>, k: nat, front: nat)
    requires k < |a| && 8 * (k + 1) <= w && front == LeValue(a[..k])
    ensures BitOr(front, Shl(w, a[k], 8 * k)) == LeValue(a[..k + 1])
  {
    OrByte(w, a[..k], a[k]);
    assert a[..k] + [a[k]] == a[..k + 1];
  }

  lemma FirstByte(a: seq<byte>)
    requires |a| >= 1
    ensures LeValue(a[..1]) == a[0]
  {
    assert a[..1] == [a[0]];
  }

  /** A cast to a wide enough unsigned type changes nothing. */
  lemma Fits(w: nat, b: seq<byte>)
    requires 8 * |b| <= w
    ensures Unsigned(w, LeValue(b)) == LeValue(b) < Pow2(8 * |b|) <= Pow2(w)
  {
    LeBound(b);
    Pow2Monotone(8 * |b|, w);
    ModSmall(LeValue(b), Pow2(w));
  }

  function Uint2korr(a: seq<byte>): (r: nat)
    requires |a| >= 2
    ensures r == LeValue(a[..2])
  {
    FirstByte(a);
    NextByte(32, a, 1, a[0]);
    Fits(16, a[..2]);
    Unsigned(16, BitOr(a[0], Shl(32, a[1], 8)))
  }

  function Uint3korr(a: seq<byte>): (r: nat)
    requires |a| >= 3
    ensures r == LeValue(a[..3])
  {
    FirstByte(a);
    NextByte(32, a, 1, a[0]);
    NextByte(32, a, 2, BitOr(a[0], Shl(32, a[1], 8)));
    Fits(32, a[..3]);
    Unsigned(32, BitOr(BitOr(a[0], Shl(32, a[1], 8)), Shl(32, a[2], 16)))
  }

  /** The four-byte shift-and-or expression shared by the loads of four bytes and more */
  function OrFour(b0: byte, b1: byte, b2: byte, b3: byte): (r: nat)
    ensures r == LeValue([b0, b1, b2, b3]) < Pow2(32)
  {
    FourBytes([b0, b1, b2, b3]);
    BitOr(BitOr(BitOr(b0, Shl(32, b1, 8)), Shl(32, b2, 16)), Shl(32, b3, 24))
  }

  lemma FourBytes(b: seq<byte>)
    requires |b| == 4
    ensures BitOr(BitOr(BitOr(b[0], Shl(32, b[1], 8)), Shl(32, b[2], 16)), Shl(32, b[3], 24)) == LeValue(b) < Pow2(32)
  {
    FirstByte(b);
    var two := BitOr(b[0], Shl(32, b[1], 8));
    NextByte(32, b, 1, b[0]);
    var three := BitOr(two, Shl(32, b[2], 16));
    NextByte(32, b, 2, two);
    NextByte(32, b, 3, three);
    assert b[..4] == b;
    Fits(32, b);
  }

  function Uint4korr(a: seq<byte>): (r: nat)
    requires |a| >= 4
    ensures r == LeValue(a[..4])
  {
    assert a[..4] == [a[0], a[1], a[2], a[3]];
    Fits(32, a[..4]);
    Unsigned(32, OrFour(a[0], a[1], a[2], a[3]))
  }

  function Uint5korr(a: seq<byte>): (r: nat)
    requires |a| >= 5
    ensures r == LeValue(a[..5])
  {
    NextByte(64, a, 4, Uint4korr(a));
    BitOr(Uint4korr(a), Shl(64, a[4], 32))
  }

  function Uint6korr(a: seq<byte>): (r: nat)
    requires |a| >= 6
    ensures r == LeValue(a[..6])
  {
    NextByte(64, a, 4, Uint4korr(a));
    NextByte(64, a, 5, BitOr(Uint4korr(a), Shl(64, a[4], 32)));
    BitOr(BitOr(Uint4korr(a), Shl(64, a[4], 32)), Shl(64, a[5], 40))
  }

  function Uint8korr(a: seq<byte>): (r: nat)
    requires |a| >= 8
    ensures r == LeValue(a[..8]) < Pow2(64)
  {
    OrConcat(64, a[..4], a[4..8]);
    assert a[4..][..4] == a[4..8] && a[..4] + a[4..8] == a[..8];
    Fits(64, a[..8]);
    BitOr(Uint4korr(a), Shl(64, Uint4korr(a[4..]), 32))
  }

  function Sint2korr(a: seq<byte>): (r: int)
    requires |a| >= 2
    ensures r == LeSigned(a[..2])
  {
    FirstByte(a);
    NextByte(32, a, 1, a[0]);
    Fits(16, a[..2]);
    Signed(16, Unsigned(16, BitOr(a[0], Shl(32, a[1], 8))))
  }

  /** The 24-bit load tests the sign bit itself and ors in the eight missing ones. */
  function Sint3korr(a: seq<byte>): (r: int)
    requires |a| >= 3
    ensures r == LeSigned(a[..3])
  {
    Sint3Cases(a);
    if BitAnd(a[2], 128) != 0 then
      Signed(32, BitOr(BitOr(BitOr(Shl(32, 255, 24), Shl(32, a[2], 16)), Shl(32, a[1], 8)), a[0]))
    else
      Signed(32, BitOr(BitOr(Shl(32, a[2], 16), Shl(32, a[1], 8)), a[0]))
  }

  function Sint4korr(a: seq<byte>): (r: int)
    requires |a| >= 4
    ensures r == LeSigned(a[..4])
  {
    Fits(32, a[..4]);
    Signed(32, Uint4korr(a))
  }

  function Sint8korr(a: seq<byte>): (r: int)
    requires |a| >= 8
    ensures r == LeSigned(a[..8])
  {
    Signed(64, Uint8korr(a))
  }

  lemma ShiftTable(x: nat)
    ensures ShiftUp(x, 8) == 0x100 * x && ShiftUp(x, 16) == 0x1_0000 * x && ShiftUp(x, 24) == 0x100_0000 * x
    ensures Pow2(8) == 0x100 && Pow2(16) == 0x1_0000 && Pow2(24) == 0x100_0000 && Pow2(32) == 0x1_0000_0000
  {
    ShiftUpByte(x);
    ShiftUpByte(0x100 * x);
    ShiftUpByte(0x1_0000 * x);
    ShiftUpShiftUp(x, 8, 8);
    ShiftUpShiftUp(x, 16, 8);
    Pow2Table();
  }

  /** Or-ing the low part into a shifted high part */
  lemma OrLow(high: nat, low: nat, k: nat)
    requires low < Pow2(k)
    ensures BitOr(ShiftUp(high, k), low) == ShiftUp(high, k) + low
  {
    OrCommutes(ShiftUp(high, k), low);
    OrIsSum(low, high, k);
  }

  lemma SignBit(x: byte)
    ensures BitAnd(x, 128) != 0 <==> x >= 128
  {
    assert Pow2(7) == 128;
    assert ShiftUp(1, 7) == 128;
    var high := x / 128;
    ShiftUpIsMul(high, 7);
    AndShifted(high, x % 128, 1, 7);
    ShiftUpIsMul(BitAnd(high, 1), 7);
  }

  function ThreeBytes(x: int, y: int, z: int): int {
    x + 0x100 * y + 0x1_0000 * z
  }

  lemma Le3(a: seq<byte>)
    requires |a| >= 3
    ensures LeValue(a[..3]) == ThreeBytes(a[0], a[1], a[2])
  {
    var b := a[..3];
    assert b[1..][1..] == [b[2]];
    assert b[1..][0] == b[1];
    assert LeValue([b[2]]) == b[2];
  }

  lemma Sint3Cases(a: seq<byte>)
    requires |a| >= 3
    ensures Pow2(23) == 0x80_0000 && Pow2(24) == 0x100_0000
    ensures Pow2(31) == 0x8000_0000 && Pow2(32) == 0x1_0000_0000
    ensures LeValue(a[..3]) == ThreeBytes(a[0], a[1], a[2])
    ensures BitAnd(a[2], 128) != 0 <==> a[2] >= 128
    ensures BitOr(BitOr(Shl(32, a[2], 16), Shl(32, a[1], 8)), a[0]) == LeValue(a[..3])
    ensures BitOr(BitOr(BitOr(Shl(32, 255, 24), Shl(32, a[2], 16)), Shl(32, a[1], 8)), a[0])
            == 0xFF00_0000 + LeValue(a[..3])
  {
    Le3(a);
    SignBit(a[2]);
    Pow2Table();
    ShlByte(0);
    OrFromTop(a[0], a[1], a[2], 0);
    OrFromTop(a[0], a[1], a[2], 255);
  }

  lemma ShlByte(x: nat)
    requires x < 256
    ensures Shl(32, x, 8) == 0x100 * x && Shl(32, x, 16) == 0x1_0000 * x && Shl(32, x, 24) == 0x100_0000 * x
  {
    ShiftTable(x);
    ModSmall(0x100 * x, Pow2(32));
    ModSmall(0x1_0000 * x, Pow2(32));
    ModSmall(0x100_0000 * x, Pow2(32));
  }

  /** A four-byte word or-ed together from its top byte down */
  lemma OrFromTop(x: nat, y: nat, z: nat, top: nat)
    requires x < 256 && y < 256 && z < 256 && top < 256
    ensures BitOr(BitOr(BitOr(Shl(32, top, 24), Shl(32, z, 16)), Shl(32, y, 8)), x)
            == 0x100_0000 * top + ThreeBytes(x, y, z)
  {
    var upper := BitOr(Shl(32, top, 24), Shl(32, z, 16));
    OrTop(top, z);
    OrMiddle(upper, 0x100 * top + z, y);
    OrBottom(BitOr(upper, Shl(32, y, 8)), 0x1_0000 * top + 0x100 * z + y, x);
  }

  lemma OrTop(top: nat, z: nat)
    requires top < 256 && z < 256
    ensures BitOr(Shl(32, top, 24), Shl(32, z, 16)) == 0x1_0000 * (0x100 * top + z)
  {
    ShlByte(top);
    ShlByte(z);
    OrTable(top, 0x1_0000 * z);
  }

  lemma OrMiddle(upper: nat, h: nat, y: nat)
    requires upper == 0x1_0000 * h && y < 256
    ensures BitOr(upper, Shl(32, y, 8)) == 0x100 * (0x100 * h + y)
  {
    ShlByte(y);
    OrTable(h, 0x100 * y);
  }

  lemma OrBottom(upper: nat, h: nat, x: nat)
    requires upper == 0x100 * h && x < 256
    ensures BitOr(upper, x) == 0x100 * h + x
  {
    OrTable(h, x);
  }

  /** Or-ing a low part into a number moved up by one, two or three bytes is addition. */
  lemma OrTable(high: nat, low: nat)
    ensures low < 0x100 ==> BitOr(0x100 * high, low) == 0x100 * high + low
    ensures low < 0x1_0000 ==> BitOr(0x1_0000 * high, low) == 0x1_0000 * high + low
    ensures low < 0x100_0000 ==> BitOr(0x100_0000 * high, low) == 0x100_0000 * high + low
  {
    ShiftTable(high);
    if low < 0x100 {
      OrLow(high, low, 8);
    }
    if low < 0x1_0000 {
      OrLow(high, low, 16);
    }
    if low < 0x100_0000 {
      OrLow(high, low, 24);
    }
  }

  method Int2store(t: array<byte>, at: nat, v: int)
    requires at + 2 <= t.Length
    modifies t
    ensures t[..] == Splice(old(t[..]), at, LeBytes(v, 2))
  {
    var temp := Unsigned(32, v);
    t[at] := Unsigned(8, temp);
    t[at + 1] := Unsigned(8, Shr(temp, 8));
    StoredBytes(temp, 2);
    LeBytesUnsigned(v, 32, 2);
  }

  /** The bytes a store assigns, in the form it computes them */
  lemma StoredBytes(v: int, n: nat)
    ensures Shr(v, 0) == v && Pow2(8) == 256
    ensures forall k :: 0 <= k < n ==> LeBytes(v, n)[k] == Unsigned(8, Shr(v, 8 * k))
  {
    assert v / 1 == v;
    forall k | 0 <= k < n
      ensures LeBytes(v, n)[k] == Unsigned(8, Shr(v, 8 * k))
    {
      LeByteAt(v, n, k);
    }
  }

  method Int3store(t: array<byte>, at: nat, v: int)
    requires at + 3 <= t.Length
    modifies t
    ensures t[..] == Splice(old(t[..]), at, LeBytes(v, 3))
  {
    StoredBytes(v, 3);
    t[at] := Unsigned(8, v);
    t[at + 1] := Unsigned(8, Shr(v, 8));
    t[at + 2] := Unsigned(8, Shr(v, 16));
  }

  method Int4store(t: array<byte>, at: nat, v: int)
    requires at + 4 <= t.Length
    modifies t
    ensures t[..] == Splice(old(t[..]), at, LeBytes(v, 4))
  {
    StoredBytes(v, 4);
    t[at] := Unsigned(8, v);
    t[at + 1] := Unsigned(8, Shr(v, 8));
    t[at + 2] := Unsigned(8, Shr(v, 16));
    t[at + 3] := Unsigned(8, Shr(v, 24));
  }

  method Int5store(t: array<byte>, at: nat, v: int)
    requires at + 5 <= t.Length
    modifies t
    ensures t[..] == Splice(old(t[..]), at, LeBytes(v, 5))
  {
    StoredBytes(v, 5);
    t[at] := Unsigned(8, v);
    t[at + 1] := Unsigned(8, Shr(v, 8));
    t[at + 2] := Unsigned(8, Shr(v, 16));
    t[at + 3] := Unsigned(8, Shr(v, 24));
    t[at + 4] := Unsigned(8, Shr(v, 32));
    SpliceOfSame(old(t[..]), t[..], at, LeBytes(v, 5));
  }

  method Int6store(t: array<byte>, at: nat, v: int)
    requires at + 6 <= t.Length
    modifies t
    ensures t[..] == Splice(old(t[..]), at, LeBytes(v, 6))
  {
    t[at] := Unsigned(8, v);
    t[at + 1] := Unsigned(8, Shr(v, 8));
    t[at + 2] := Unsigned(8, Shr(v, 16));
    t[at + 3] := Unsigned(8, Shr(v, 24));
    t[at + 4] := Unsigned(8, Shr(v, 32));
    t[at + 5] := Unsigned(8, Shr(v, 40));
    assert t[at..at + 6] == LeBytes(v, 6) by { StoredBytes(v, 6); }
    SpliceOfSame(old(t[..]), t[..], at, LeBytes(v, 6));
  }

  /** Two four-byte stores of the halves of the operand */
  method Int8store(t: array<byte>, at: nat, v: int)
    requires at + 8 <= t.Length
    modifies t
    ensures t[..] == Splice(old(t[..]), at, LeBytes(v, 8))
  {
    var temp, temp2 := Unsigned(32, v), Unsigned(32, Shr(v, 32));
    Int4store(t, at, temp);
    Int4store(t, at + 4, temp2);
    LeBytesUnsigned(v, 32, 4);
    LeBytesUnsigned(Shr(v, 32), 32, 4);
    LeBytesSplit(v, 4, 4);
    SpliceAdjacent(old(t[..]), at, LeBytes(v, 4), LeBytes(Shr(v, 32), 4));
  }
}

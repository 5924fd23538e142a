/**
  The hosts my_byteorder.h distinguishes, and what big_endian.h, little_endian.h and
  byte_order_generic_x86.h do with floating-point values, which are bit patterns here.
 */
module Hosts {
  import opened Bits
  import opened Endian
  import opened Memory

  /**
    `OtherLittle(true)` is the little-endian processor that keeps the high word of a double
    first (`__FLOAT_WORD_ORDER == __BIG_ENDIAN`).
   */
  datatype Host = I386 | X86_64 | OtherLittle(floatHighWordFirst: bool) | OtherBig
  {
    function Order(): ByteOrder {
      if OtherBig? then Big else Little
    }
  }

  /** The bytes of a `double` variable holding the given bit pattern */
  function DoubleObject(h: Host, bits: nat): (b: seq<byte>)
    ensures |b| == 8
  {
    match h
    case OtherBig => BeBytes(bits, 8)
    case OtherLittle(true) => LeBytes(Shr(bits, 32), 4) + LeBytes(bits, 4)
    case _ => LeBytes(bits, 8)
  }

  /** The bit pattern of a `double` variable with the given bytes */
  function DoubleBits(h: Host, b: seq<byte>): nat
    requires |b| == 8
  {
    match h
    case OtherBig => BeValue(b)
    case OtherLittle(true) => LeValue(b[4..] + b[..4])
    case _ => LeValue(b)
  }

  /** A variable holds the bit pattern assigned to it, on every host. */
  lemma DoubleObjectBits(h: Host, bits: nat)
    requires bits < Pow2(64)
    ensures DoubleBits(h, DoubleObject(h, bits)) == bits
  {
    LeLoadStore(bits, 8);
    ModSmall(bits, Pow2(64));
    if h.OtherBig? {
      WordLoadStore(Big, bits, 8);
    } else if h == OtherLittle(true) {
      ExchangedWords(bits);
    }
  }

  /** And the other way round: a variable's bytes are those of the pattern they hold. */
  lemma DoubleBitsObject(h: Host, b: seq<byte>)
    requires |b| == 8
    ensures DoubleBits(h, b) < Pow2(64) && DoubleObject(h, DoubleBits(h, b)) == b
  {
    if h == OtherLittle(true) {
      var c := b[4..] + b[..4];
      LeBound(c);
      LeStoreLoad(c);
      ExchangedWords(LeValue(c));
      var d := DoubleObject(h, LeValue(c));
      assert d == c[4..] + c[..4] by { assert d[4..] + d[..4] == c; }
    } else {
      WordStoreLoad(h.Order(), b);
      WordBound(h.Order(), b);
    }
  }

  lemma WordBound(o: ByteOrder, b: seq<byte>)
    ensures Word(o, b) < Pow2(8 * |b|)
  {
    LeBound(b);
    LeBound(Reverse(b));
    BeIsLeReversed(b);
  }

  lemma ExchangedWords(bits: nat)
    ensures var b := DoubleObject(OtherLittle(true), bits); b[4..] + b[..4] == LeBytes(bits, 8)
  {
    LeBytesSplit(bits, 4, 4);
  }

  /** big_endian.h: the object's bytes, last first */
  method BigFloat8Store(t: array<byte>, at: nat, bits: nat)
    requires at + 8 <= t.Length
    modifies t
    ensures t[..] == Splice(old(t[..]), at, LeBytes(bits, 8))
  {
    var v := DoubleObject(OtherBig, bits);
    ReversedObject(LeBytes(bits, 8));
    t[at] := v[7];
    t[at + 1] := v[6];
    t[at + 2] := v[5];
    t[at + 3] := v[4];
    t[at + 4] := v[3];
    t[at + 5] := v[2];
    t[at + 6] := v[1];
    t[at + 7] := v[0];
  }

  /** little_endian.h, high word of a double first: the two words exchanged */
  method SwappedDoubleStore(t: array<byte>, at: nat, bits: nat)
    requires at + 8 <= t.Length
    modifies t
    ensures t[..] == Splice(old(t[..]), at, LeBytes(bits, 8))
  {
    StoreExchanged(t, at, DoubleObject(OtherLittle(true), bits));
    ExchangedWords(bits);
  }

  /** The assignments of the macro */
  method StoreExchanged(t: array<byte>, at: nat, v: seq<byte>)
    requires at + 8 <= t.Length && |v| == 8
    modifies t
    ensures t[..] == Splice(old(t[..]), at, v[4..] + v[..4])
  {
    t[at] := v[4];
    t[at + 1] := v[5];
    t[at + 2] := v[6];
    t[at + 3] := v[7];
    t[at + 4] := v[0];
    t[at + 5] := v[1];
    t[at + 6] := v[2];
    t[at + 7] := v[3];
    assert t[at..at + 8] == v[4..] + v[..4];
    SpliceOfSame(old(t[..]), t[..], at, v[4..] + v[..4]);
  }

  /** byte_order_generic_x86.h: two 32-bit words through a union */
  method I386DoubleStore(t: array<byte>, at: nat, bits: nat)
    requires at + 8 <= t.Length
    modifies t
    ensures t[..] == Splice(old(t[..]), at, LeBytes(bits, 8))
  {
    var v := DoubleObject(I386, bits);
    StoreWord(Little, t, at, Word(Little, v[..4]), 4);
    StoreWord(Little, t, at + 4, Word(Little, v[4..]), 4);
    WordStoreLoad(Little, v[..4]);
    WordStoreLoad(Little, v[4..]);
    SpliceAdjacent(old(t[..]), at, v[..4], v[4..]);
    assert v[..4] + v[4..] == v;
  }

  /** `float8store`: the value's eight bytes, low byte first, whatever the host */
  method Float8Store(h: Host, t: array<byte>, at: nat, bits: nat)
    requires at + 8 <= t.Length
    modifies t
    ensures t[..] == Splice(old(t[..]), at, LeBytes(bits, 8))
  {
    match h {
      case OtherBig => BigFloat8Store(t, at, bits);
      case OtherLittle(true) => SwappedDoubleStore(t, at, bits);
      case I386 => I386DoubleStore(t, at, bits);
      case _ => CopyBytes(t, at, DoubleObject(h, bits));
    }
  }

  lemma ReversedObject(b: seq<byte>)
    ensures forall i :: 0 <= i < |b| ==> Reverse(b)[i] == b[|b| - 1 - i]
  {
    forall i | 0 <= i < |b|
      ensures Reverse(b)[i] == b[|b| - 1 - i]
    {
      ReverseAt(b, i);
    }
  }

  lemma ReversedIs(b: seq<byte>, r: seq<byte>)
    requires |r| == |b| && forall i :: 0 <= i < |b| ==> r[i] == b[|b| - 1 - i]
    ensures r == Reverse(b) && BeValue(r) == LeValue(b)
  {
    ReversedObject(b);
    assert r == Reverse(b);
    ReverseInvolutive(b);
    BeIsLeReversed(r);
  }

  /** big_endian.h: the object filled last byte first */
  method BigFloat8Get(m: seq<byte>) returns (bits: nat)
    requires |m| >= 8
    ensures bits == LeValue(m[..8])
  {
    var temp := [m[7], m[6], m[5], m[4], m[3], m[2], m[1], m[0]];
    bits := DoubleBits(OtherBig, temp);
    ReversedIs(m[..8], temp);
  }

  /** little_endian.h, high word of a double first: the two words exchanged */
  method SwappedDoubleGet(m: seq<byte>) returns (bits: nat)
    requires |m| >= 8
    ensures bits == LeValue(m[..8])
  {
    var temp := [m[4], m[5], m[6], m[7], m[0], m[1], m[2], m[3]];
    bits := DoubleBits(OtherLittle(true), temp);
    assert temp[4..] + temp[..4] == m[..8];
  }

  /** byte_order_generic_x86.h: two 32-bit words through a union */
  method I386DoubleGet(m: seq<byte>) returns (bits: nat)
    requires |m| >= 8
    ensures bits == LeValue(m[..8])
  {
    var m0, m1 := Word(Little, m[..4]), Word(Little, m[4..8]);
    bits := DoubleBits(I386, WordBytes(Little, m0, 4) + WordBytes(Little, m1, 4));
    WordStoreLoad(Little, m[..4]);
    WordStoreLoad(Little, m[4..8]);
    assert m[..4] + m[4..8] == m[..8];
  }

  /** `float8get` reads the pattern of eight bytes kept low byte first, whatever the host. */
  method Float8Get(h: Host, m: seq<byte>) returns (bits: nat)
    requires |m| >= 8
    ensures bits == LeValue(m[..8]) < Pow2(64)
  {
    LeBound(m[..8]);
    match h {
      case OtherBig => bits := BigFloat8Get(m);
      case OtherLittle(true) => bits := SwappedDoubleGet(m);
      case I386 => bits := I386DoubleGet(m);
      case _ => bits := DoubleBits(h, m[..8]);
    }
  }

  /** `float4store` */
  method Float4Store(h: Host, t: array<byte>, at: nat, bits: nat)
    requires at + 4 <= t.Length
    modifies t
    ensures t[..] == Splice(old(t[..]), at, LeBytes(bits, 4))
  {
    var v := WordBytes(h.Order(), bits, 4);
    if h.OtherBig? {
      t[at] := v[3];
      t[at + 1] := v[2];
      t[at + 2] := v[1];
      t[at + 3] := v[0];
      ReversedObject(LeBytes(bits, 4));
    } else {
      CopyBytes(t, at, v);
    }
  }

  /** `float4get` */
  method Float4Get(h: Host, m: seq<byte>) returns (bits: nat)
    requires |m| >= 4
    ensures bits == LeValue(m[..4]) < Pow2(32)
  {
    LeBound(m[..4]);
    if h.OtherBig? {
      var temp := [m[3], m[2], m[1], m[0]];
      bits := Word(Big, temp);
      ReversedIs(m[..4], temp);
    } else {
      bits := Word(Little, m[..4]);
    }
  }

  /**
    The bytes `float8store` writes for a double variable: last first on a big-endian host,
    the halves exchanged where the high word comes first, and as they are elsewhere.
   */
  lemma DoubleLayout(h: Host, v: seq<byte>, wire: seq<byte>)
    requires WireOf(h, v, wire)
    ensures match h
            case OtherBig => forall i :: 0 <= i < 8 ==> wire[i] == v[7 - i] && v[i] == wire[7 - i]
            case OtherLittle(true) => wire == v[4..] + v[..4] && v == wire[4..] + wire[..4]
            case _ => wire == v
  {
    if h.OtherBig? {
      BeIsLeReversed(v);
      LeStoreLoad(Reverse(v));
      ReversedObject(v);
    } else if h == OtherLittle(true) {
      LeStoreLoad(v[4..] + v[..4]);
    } else {
      LeStoreLoad(v);
    }
  }

  /** The bytes `float4store` writes for a float variable */
  lemma FloatLayout(h: Host, v: seq<byte>, wire: seq<byte>)
    requires FloatWireOf(h, v, wire)
    ensures if h.OtherBig? then forall i :: 0 <= i < |v| ==> wire[i] == v[|v| - 1 - i] && v[i] == wire[|v| - 1 - i]
            else wire == v
  {
    if h.OtherBig? {
      BeIsLeReversed(v);
      LeStoreLoad(Reverse(v));
      ReversedObject(v);
    } else {
      LeStoreLoad(v);
    }
  }

  /**
    A double variable stored on one host and fetched into a variable on another; `wire` is
    what is stored in between. The value is kept, and each host's bytes relate to the
    stored ones in its own way.
   */
  method TransferDouble(source: Host, target: Host, variable: seq<byte>) returns (wire: seq<byte>, r: seq<byte>)
    requires |variable| == 8
    ensures |wire| == |r| == 8 && DoubleBits(target, r) == DoubleBits(source, variable)
    ensures match source
            case OtherBig => forall i :: 0 <= i < 8 ==> wire[i] == variable[7 - i]
            case OtherLittle(true) => wire == variable[4..] + variable[..4]
            case _ => wire == variable
    ensures match target
            case OtherBig => forall i :: 0 <= i < 8 ==> r[i] == wire[7 - i]
            case OtherLittle(true) => r == wire[4..] + wire[..4]
            case _ => r == wire
    ensures source == target ==> r == variable
  {
    wire, r := SendDouble(source, target, variable);
    DoubleLayout(source, variable, wire);
    DoubleLayout(target, r, wire);
  }

  /** The transfer itself */
  method SendDouble(source: Host, target: Host, variable: seq<byte>) returns (wire: seq<byte>, r: seq<byte>)
    requires |variable| == 8
    ensures |wire| == |r| == 8 && DoubleBits(target, r) == DoubleBits(source, variable)
    ensures WireOf(source, variable, wire) && WireOf(target, r, wire)
  {
    var t := new byte[8];
    var bits := DoubleBits(source, variable);
    DoubleBitsObject(source, variable);
    Float8Store(source, t, 0, bits);
    wire := t[..];
    assert wire[..8] == wire == LeBytes(bits, 8);
    var got := Float8Get(target, wire);
    LeLoadStore(bits, 8);
    ModSmall(bits, Pow2(64));
    r := DoubleObject(target, got);
    DoubleObjectBits(target, got);
  }

  /** The stored bytes are those of the variable's bit pattern. */
  ghost predicate WireOf(h: Host, v: seq<byte>, wire: seq<byte>) {
    |v| == |wire| && |v| == 8 && wire == LeBytes(DoubleBits(h, v), |v|)
  }

  /** The same for a float: its bytes are turned round between hosts of different byte orders. */
  method TransferFloat(source: Host, target: Host, variable: seq<byte>) returns (wire: seq<byte>, r: seq<byte>)
    requires |variable| == 4
    ensures |wire| == |r| == 4 && Word(target.Order(), r) == Word(source.Order(), variable)
    ensures if source.OtherBig? then forall i :: 0 <= i < 4 ==> wire[i] == variable[3 - i] else wire == variable
    ensures if source.OtherBig? != target.OtherBig? then forall i :: 0 <= i < 4 ==> r[i] == variable[3 - i]
            else r == variable
  {
    wire, r := SendFloat(source, target, variable);
    FloatLayout(source, variable, wire);
    FloatLayout(target, r, wire);
    assert source.OtherBig? && target.OtherBig? ==> forall i :: 0 <= i < 4 ==> r[i] == wire[3 - i] == variable[i];
  }

  method SendFloat(source: Host, target: Host, variable: seq<byte>) returns (wire: seq<byte>, r: seq<byte>)
    requires |variable| == 4
    ensures |wire| == |r| == 4 && Word(target.Order(), r) == Word(source.Order(), variable)
    ensures FloatWireOf(source, variable, wire) && FloatWireOf(target, r, wire)
  {
    var t := new byte[4];
    var bits := Word(source.Order(), variable);
    WordBound(source.Order(), variable);
    WordStoreLoad(source.Order(), variable);
    Float4Store(source, t, 0, bits);
    wire := t[..];
    assert wire[..4] == wire == LeBytes(bits, 4);
    var got := Float4Get(target, wire);
    LeLoadStore(bits, 4);
    ModSmall(bits, Pow2(32));
    r := WordBytes(target.Order(), got, 4);
    WordLoadStore(target.Order(), got, 4);
  }

  ghost predicate FloatWireOf(h: Host, v: seq<byte>, wire: seq<byte>) {
    |v| == |wire| && wire == LeBytes(Word(h.Order(), v), |v|)
  }

  // ---- machine format on a big-endian host ----

  /** `shortstore` writes the host's own representation. */
  method ShortStore(t: array<byte>, at: nat, v: int)
    requires at + 2 <= t.Length
    modifies t
    ensures t[..] == Splice(old(t[..]), at, WordBytes(Big, v, 2))
  {
    var temp := Unsigned(32, v);
    t[at + 1] := Unsigned(8, temp);
    t[at] := Unsigned(8, Shr(temp, 8));
    LeBytesUnsigned(v, 32, 2);
    LeByteAt(temp, 2, 0);
    LeByteAt(temp, 2, 1);
    assert temp / 1 == temp;
    ReversedObject(LeBytes(v, 2));
  }

  /** `longstore` writes the host's own representation. */
  method LongStore(t: array<byte>, at: nat, v: int)
    requires at + 4 <= t.Length
    modifies t
    ensures t[..] == Splice(old(t[..]), at, WordBytes(Big, v, 4))
  {
    BigBytes(v);
    t[at + 3] := Unsigned(8, v);
    t[at + 2] := Unsigned(8, Shr(v, 8));
    t[at + 1] := Unsigned(8, Shr(v, 16));
    t[at] := Unsigned(8, Shr(v, 24));
  }

  /** The bytes of a big-endian word, by shifts */
  lemma BigBytes(v: int)
    ensures WordBytes(Big, v, 4)
            == [Unsigned(8, Shr(v, 24)), Unsigned(8, Shr(v, 16)), Unsigned(8, Shr(v, 8)), Unsigned(8, v)]
  {
    var b := LeBytes(v, 4);
    assert v / 1 == v;
    LeByteAt(v, 4, 0);
    LeByteAt(v, 4, 1);
    LeByteAt(v, 4, 2);
    LeByteAt(v, 4, 3);
    ReverseAt(b, 0);
    ReverseAt(b, 1);
    ReverseAt(b, 2);
    ReverseAt(b, 3);
  }

  /** `ushortget` adds the shifted high byte; the sum is the host's word. */
  function UshortGet(m: seq<byte>): (r: nat)
    requires |m| >= 2
    ensures r == Word(Big, m[..2])
  {
    Big2(m);
    Unsigned(16, m[1] as int + Shl(32, m[0], 8))
  }

  /** `shortget` */
  function ShortGet(m: seq<byte>): (r: int)
    requires |m| >= 2
    ensures Word(Big, m[..2]) < Pow2(16) && r == Signed(16, Word(Big, m[..2]))
  {
    Big2(m);
    Signed(16, Unsigned(16, m[1] as int + Shl(32, m[0], 8)))
  }

  lemma Big2(m: seq<byte>)
    requires |m| >= 2
    ensures m[1] as int + Shl(32, m[0], 8) == BeValue(m[..2]) < Pow2(16)
    ensures Unsigned(16, BeValue(m[..2])) == BeValue(m[..2])
  {
    var b := m[..2];
    assert b[..1] == [m[0]] && b == [m[0], m[1]];
    assert BeValue([m[0]]) == m[0];
    ShiftUpByte(m[0]);
    BeIsLeReversed(b);
    LeBound(Reverse(b));
    Pow2Monotone(16, 32);
    ModSmall(ShiftUp(m[0], 8), Pow2(32));
    ModSmall(BeValue(b), Pow2(16));
  }
}

/**
  The codec a program sees after my_byteorder.h has chosen the file for its host, and the
  laws that do not depend on the choice.
 */
module Codec {
  import opened Bits
  import opened Endian
  import opened Memory
  import opened Hosts
  import CodecGeneric
  import CodecX86

  predicate IsWidth(n: nat) {
    n == 2 || n == 3 || n == 4 || n == 5 || n == 6 || n == 8
  }

  predicate IsSignedWidth(n: nat) {
    n == 2 || n == 3 || n == 4 || n == 8
  }

  /** `uintNkorr` of the host: the same number on every host, from exactly `n` bytes */
  function LoadUnsigned(h: Host, n: nat, a: seq<byte>): (r: nat)
    requires IsWidth(n) && |a| >= n
    ensures r == LeValue(a[..n])
  {
    if n == 3 then CodecGeneric.Uint3korr(a)
    else if n == 5 then
      if h.X86_64? then CodecX86.Uint5korr(a) else CodecGeneric.Uint5korr(a)
    else if n == 6 then
      if h.X86_64? then CodecX86.Uint6korr(a) else CodecGeneric.Uint6korr(a)
    else if h.I386? || h.X86_64? then Word(Little, a[..n])
    else if n == 2 then CodecGeneric.Uint2korr(a)
    else if n == 4 then CodecGeneric.Uint4korr(a)
    else CodecGeneric.Uint8korr(a)
  }

  /** `sintNkorr` of the host */
  function LoadSigned(h: Host, n: nat, a: seq<byte>): (r: int)
    requires IsSignedWidth(n) && |a| >= n
    ensures r == LeSigned(a[..n])
  {
    if n == 3 then CodecGeneric.Sint3korr(a)
    else if h.I386? || h.X86_64? then
      LeBound(a[..n]);
      Signed(8 * n, Word(Little, a[..n]))
    else if n == 2 then CodecGeneric.Sint2korr(a)
    else if n == 4 then CodecGeneric.Sint4korr(a)
    else CodecGeneric.Sint8korr(a)
  }

  /** `intNstore` of the host: the same `n` bytes on every host, and no other byte touched */
  method Store(h: Host, n: nat, t: array<byte>, at: nat, v: int)
    requires IsWidth(n) && at + n <= t.Length
    modifies t
    ensures t[..] == Splice(old(t[..]), at, LeBytes(v, n))
  {
    if n == 3 {
      if h.I386? || h.X86_64? { CodecX86.Int3store(t, at, v); } else { CodecGeneric.Int3store(t, at, v); }
    } else if n == 5 {
      if h.X86_64? { CodecX86.Int5store(t, at, v); } else { CodecGeneric.Int5store(t, at, v); }
    } else if n == 6 {
      if h.X86_64? { CodecX86.Int6store(t, at, v); } else { CodecGeneric.Int6store(t, at, v); }
    } else if h.I386? || h.X86_64? {
      CodecX86.WordStore(t, at, v, n);
    } else if n == 2 {
      CodecGeneric.Int2store(t, at, v);
    } else if n == 4 {
      CodecGeneric.Int4store(t, at, v);
    } else {
      CodecGeneric.Int8store(t, at, v);
    }
  }

  /** A number stored by one host and loaded by any other is the operand modulo 256^n. */
  lemma UnsignedPortable(h: Host, n: nat, v: int, rest: seq<byte>)
    requires IsWidth(n)
    ensures LoadUnsigned(h, n, LeBytes(v, n) + rest) == v % Pow2(8 * n)
  {
    assert (LeBytes(v, n) + rest)[..n] == LeBytes(v, n);
    LeLoadStore(v, n);
  }

  lemma SignedLoad(h: Host, n: nat, v: int, rest: seq<byte>)
    requires IsSignedWidth(n)
    ensures LoadSigned(h, n, LeBytes(v, n) + rest) == Signed(8 * n, Unsigned(8 * n, v))
  {
    assert (LeBytes(v, n) + rest)[..n] == LeBytes(v, n);
    LeLoadStore(v, n);
  }

  /** The signed load after a store is the one number of the signed range congruent to the operand. */
  lemma SignedPortable(h: Host, n: nat, v: int, rest: seq<byte>, x: int)
    requires IsSignedWidth(n)
    ensures x == LoadSigned(h, n, LeBytes(v, n) + rest)
            <==> -(Pow2(8 * n - 1) as int) <= x < Pow2(8 * n - 1) && x % Pow2(8 * n) == v % Pow2(8 * n)
  {
    SignedLoad(h, n, v, rest);
    SignedUnique(8 * n, v, x);
  }

  const INT_MIN24: int := -0x80_0000
  const INT_MAX24: int := 0x7F_FFFF

  /** The same for three bytes, with the bounds my_global.h gives */
  lemma Signed24(h: Host, v: int, rest: seq<byte>, x: int)
    ensures x == LoadSigned(h, 3, LeBytes(v, 3) + rest)
            <==> INT_MIN24 <= x <= INT_MAX24 && x % 0x100_0000 == v % 0x100_0000
  {
    SignedPortable(h, 3, v, rest, x);
    Pow2Table();
  }

  /** Storing what was loaded, signed or unsigned, restores the bytes. */
  lemma StoreAfterLoad(h: Host, a: seq<byte>)
    ensures IsWidth(|a|) ==> LeBytes(LoadUnsigned(h, |a|, a), |a|) == a
    ensures IsSignedWidth(|a|) ==> LeBytes(LoadSigned(h, |a|, a), |a|) == a
  {
    var n := |a|;
    assert a[..n] == a;
    LeStoreLoad(a);
    if IsSignedWidth(n) {
      LeBound(a);
      var u := LeValue(a);
      ModSmall(u, Pow2(8 * n));
      SignedUnique(8 * n, u, 0);
      LeBytesCongruent(LoadSigned(h, n, a), u, n);
    }
  }
}

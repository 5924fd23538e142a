/** Memory as the headers use it: byte ranges of a buffer, `memcpy`, and whole-word accesses. */
module Memory {
  import opened Bits
  import opened Endian

  /** `s` with the bytes from `at` on replaced by `b` */
  function Splice<T>(s: seq<T>, at: nat, b: seq<T>): (r: seq<T>)
    requires at + |b| <= |s|
    ensures |r| == |s|
  {
    s[..at] + b + s[at + |b|..]
  }

  lemma SliceOfSlice<T>(s: seq<T>, lo: nat, hi: nat, i: nat, n: nat)
    requires lo <= hi <= |s| && lo + i + n <= hi
    ensures s[lo..hi][i..i + n] == s[lo + i..lo + i + n]
  {
    var x, y := s[lo..hi][i..i + n], s[lo + i..lo + i + n];
    forall k | 0 <= k < |x|
      ensures x[k] == y[k]
    {
      assert s[lo..hi][i + k] == s[lo + (i + k)];
    }
  }

  /** A buffer that is unchanged around `n` places is the old one with those places replaced. */
  lemma SpliceOfSame<T>(s: seq<T>, r: seq<T>, at: nat, b: seq<T>)
    requires |r| == |s| && at + |b| <= |s|
    requires r[..at] == s[..at] && r[at..at + |b|] == b && r[at + |b|..] == s[at + |b|..]
    ensures r == Splice(s, at, b)
  {
    assert r == r[..at] + r[at..at + |b|] + r[at + |b|..];
  }

  /** Two adjacent writes are one write. */
  lemma SpliceAdjacent<T>(s: seq<T>, at: nat, x: seq<T>, y: seq<T>)
    requires at + |x| + |y| <= |s|
    ensures Splice(Splice(s, at, x), at + |x|, y) == Splice(s, at, x + y)
  {
  }

  /** The same when the upper one comes first */
  lemma SpliceBelow<T>(s: seq<T>, at: nat, x: seq<T>, y: seq<T>)
    requires at + |x| + |y| <= |s|
    ensures Splice(Splice(s, at + |x|, y), at, x) == Splice(s, at, x + y)
  {
  }

  /** A write leaves other ranges alone. */
  lemma SpliceElsewhere<T>(s: seq<T>, at: nat, b: seq<T>, lo: nat, hi: nat)
    requires at + |b| <= |s| && lo <= hi <= |s| && (at + |b| <= lo || hi <= at)
    ensures Splice(s, at, b)[lo..hi] == s[lo..hi]
  {
  }

  lemma SpliceTail<T>(s: seq<T>, at: nat, b: seq<T>, end: nat)
    requires at + |b| <= end <= |s|
    ensures Splice(s, at, b)[at..end] == b + s[at + |b|..end]
  {
  }

  /** `memcpy(dst + d, src + s, n)` between two distinct buffers */
  method MemCpy(dst: array<byte>, d: nat, src: array<byte>, s: nat, n: nat)
    requires dst != src && d + n <= dst.Length && s + n <= src.Length
    modifies dst
    ensures dst[..] == Splice(old(dst[..]), d, src[s..s + n])
  {
    forall i | 0 <= i < n {
      dst[d + i] := src[s + i];
    }
  }

  /** How a processor lays out a word in memory */
  datatype ByteOrder = Little | Big

  function WordBytes(o: ByteOrder, v: int, n: nat): (b: seq<byte>)
    ensures |b| == n
  {
    match o
    case Little => LeBytes(v, n)
    case Big => BeBytes(v, n)
  }

  /** The word found at the given bytes */
  function Word(o: ByteOrder, b: seq<byte>): nat {
    match o
    case Little => LeValue(b)
    case Big => BeValue(b)
  }

  /** A word read back is the word stored, cut to the width. */
  lemma WordLoadStore(o: ByteOrder, v: int, n: nat)
    ensures Word(o, WordBytes(o, v, n)) == v % Pow2(8 * n)
  {
    LeLoadStore(v, n);
    BeIsLeReversed(BeBytes(v, n));
    ReverseInvolutive(LeBytes(v, n));
  }

  /** Bytes read as a word and stored again are the same bytes. */
  lemma WordStoreLoad(o: ByteOrder, b: seq<byte>)
    ensures WordBytes(o, Word(o, b), |b|) == b
  {
    LeStoreLoad(b);
    LeStoreLoad(Reverse(b));
    BeIsLeReversed(b);
    ReverseInvolutive(b);
  }

  /** `memcpy` from an object given by its bytes */
  method CopyBytes(t: array<byte>, at: nat, b: seq<byte>)
    requires at + |b| <= t.Length
    modifies t
    ensures t[..] == Splice(old(t[..]), at, b)
  {
    forall i | 0 <= i < |b| {
      t[at + i] := b[i];
    }
  }

  /** `*(word *) (t + at) = v` for an `n`-byte word type */
  method StoreWord(o: ByteOrder, t: array<byte>, at: nat, v: int, n: nat)
    requires at + n <= t.Length
    modifies t
    ensures t[..] == Splice(old(t[..]), at, WordBytes(o, v, n))
  {
    CopyBytes(t, at, WordBytes(o, v, n));
  }
}

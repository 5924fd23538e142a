/**
  The file under a cache: a byte sequence read and written at a position. The k-th call
  may be told to fail; a failing write may leave any prefix of its bytes on the medium.
 */
module Disk {
  import opened Bits
  import opened Endian
  import opened Memory

  datatype Fault = NoFault | Fault(written: nat)

  /** How many of the calls numbered `from` to `to - 1` were told to fail */
  function Faults(faults: nat -> Fault, from: nat, to: nat): nat {
    if to <= from then 0 else Faults(faults, from, to - 1) + if faults(to - 1).Fault? then 1 else 0
  }

  ghost predicate Faultless(faults: nat -> Fault) {
    forall k :: faults(k).NoFault?
  }

  lemma {:induction false} FaultsSplit(faults: nat -> Fault, a: nat, b: nat, c: nat)
    requires a <= b <= c
    ensures Faults(faults, a, c) == Faults(faults, a, b) + Faults(faults, b, c)
  {
    if b < c {
      FaultsSplit(faults, a, b, c - 1);
    }
  }

  lemma {:induction false} FaultlessCount(faults: nat -> Fault, a: nat, b: nat)
    requires Faultless(faults)
    ensures Faults(faults, a, b) == 0
  {
    if a < b {
      FaultlessCount(faults, a, b - 1);
    }
  }

  /** How many of `n` bytes at `pos` a file of `len` bytes holds */
  function Avail(len: nat, pos: nat, n: nat): (r: nat)
    ensures r <= n
  {
    if pos >= len then 0 else Min(n, len - pos)
  }

  /** The at most `n` bytes of `s` from `pos` on */
  function Range(s: seq<byte>, pos: nat, n: nat): (r: seq<byte>)
    ensures |r| == Avail(|s|, pos, n)
    ensures |r| < n <==> pos + n > |s| && n > 0
  {
    s[Min(pos, |s|)..Min(pos + n, |s|)]
  }

  /** Reading on from where a read stopped is one longer read. */
  lemma RangeConcat(s: seq<byte>, pos: nat, m: nat, n: nat)
    ensures Range(s, pos, m) + Range(s, pos + m, n) == Range(s, pos, m + n)
  {
  }

  /** The same when the first read may have reached the end of the file */
  lemma RangeResume(s: seq<byte>, pos: nat, m: nat, n: nat)
    ensures Range(s, pos, m) + Range(s, pos + |Range(s, pos, m)|, n) == Range(s, pos, m + n)
  {
    RangeConcat(s, pos, m, n);
  }

  /** A part of a read is a shorter read. */
  lemma RangeSlice(s: seq<byte>, pos: nat, held: seq<byte>, i: nat, n: nat)
    requires held == Range(s, pos, |held|) && i + n <= |held|
    ensures held[i..i + n] == Range(s, pos + i, n)
  {
    if held != [] {
      SliceOfSlice(s, pos, pos + |held|, i, n);
    }
  }

  /** A read that came up short stopped at the end of the file. */
  lemma RangeShort(s: seq<byte>, pos: nat, n: nat, m: nat)
    requires |Range(s, pos, n)| < n <= m
    ensures Range(s, pos, m) == Range(s, pos, n) == Range(s, pos, |Range(s, pos, n)|)
  {
  }

  /** A short read inside a longer one can be served from the longer one. */
  lemma RangeWithin(s: seq<byte>, pos: nat, want: nat, capacity: nat, n: nat)
    requires want <= capacity
    requires n == Min(|Range(s, pos, capacity)|, want)
    ensures Range(s, pos, n) == Range(s, pos, want) && |Range(s, pos, want)| == n
  {
  }

  lemma RangeAppend(s: seq<byte>, start: nat, head: seq<byte>, pos: nat, n: nat)
    requires head == Range(s, start, |head|) && pos == start + |head|
    ensures head + Range(s, pos, n) == Range(s, start, |head| + n)
  {
    RangeConcat(s, start, |head|, n);
  }

  /** A read in three pieces: what is there already, a second piece, and the rest unless the file ended */
  lemma RangePieces(s: seq<byte>, start: nat, head: seq<byte>, pos: nat, n: nat, rest: nat)
    requires head == Range(s, start, |head|) && pos == start + |head|
    ensures Range(s, start, |head| + n + rest)
            == head + Range(s, pos, n) + if |Range(s, pos, n)| < n then [] else Range(s, pos + n, rest)
  {
    RangeAppend(s, start, head, pos, n);
    if |Range(s, pos, n)| < n {
      RangeShort(s, start, |head| + n, |head| + n + rest);
    } else {
      RangeAppend(s, start, head + Range(s, pos, n), pos + n, rest);
    }
  }

  /** The part of a transfer that is a multiple of the buffer's capacity */
  function WholeBuffers(count: nat, capacity: nat): (r: nat)
    requires capacity > 0
    ensures r <= count < r + capacity && (r > 0 ==> r >= capacity)
  {
    if count < capacity then 0 else capacity + WholeBuffers(count - capacity, capacity)
  }

  /** `s` with `b` written at `pos`, growing the file when it ends earlier */
  function Overwrite(s: seq<byte>, pos: nat, b: seq<byte>): (r: seq<byte>)
    requires pos <= |s|
    ensures |r| >= pos + |b| && r[..pos] == s[..pos] && r[..pos + |b|] == s[..pos] + b
    ensures |s| <= pos + |b| ==> |r| == pos + |b|
  {
    s[..pos] + b + if pos + |b| <= |s| then s[pos + |b|..] else []
  }

  class File {
    var contents: seq<byte>
    const faults: nat -> Fault
    var calls: nat

    constructor (contents: seq<byte>, faults: nat -> Fault)
      ensures this.contents == contents && this.faults == faults && calls == 0
    {
      this.contents, this.faults, calls := contents, faults, 0;
    }

    /** The bytes found, fewer than asked for only at the end of the file; or a failure */
    method PRead(pos: nat, len: nat) returns (ok: bool, data: seq<byte>)
      modifies this`calls
      ensures calls == old(calls) + 1
      ensures ok <==> faults(old(calls)).NoFault?
      ensures Faults(faults, old(calls), calls) == if ok then 0 else 1
      ensures data == if ok then Range(contents, pos, len) else []
    {
      ok := faults(calls).NoFault?;
      calls := calls + 1;
      data := if ok then Range(contents, pos, len) else [];
    }

    /** All bytes written, or a failure that may have written some of them */
    method PWrite(pos: nat, src: array<byte>, at: nat, len: nat) returns (ok: bool)
      requires at + len <= src.Length && pos <= |contents|
      modifies this
      ensures calls == old(calls) + 1
      ensures ok <==> faults(old(calls)).NoFault?
      ensures Faults(faults, old(calls), calls) == if ok then 0 else 1
      ensures ok ==> contents == Overwrite(old(contents), pos, src[at..at + len])
      ensures |contents| >= pos && contents[..pos] == old(contents[..pos])
    {
      var fault := faults(calls);
      calls := calls + 1;
      match fault {
        case NoFault =>
          contents := Overwrite(contents, pos, src[at..at + len]);
          return true;
        case Fault(written) =>
          var k := if written < len then written else len;
          contents := Overwrite(contents, pos, src[at..at + k]);
          return false;
      }
    }
  }
}

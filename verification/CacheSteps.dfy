/**
  What a call does to a cache as far as a caller can measure it: the position, the bytes left
  in the buffer, and the number of calls to the file. `cap` is the capacity of the buffer.
 */
module CacheSteps {
  import opened Bits
  import opened Endian
  import opened Disk

  /** A read cache: the next byte to deliver, the bytes of the buffer not read yet, the file calls so far */
  datatype Reading = Reading(pos: nat, unread: nat, calls: nat)

  /** A write cache: the bytes in the buffer and the file calls so far */
  datatype Writing = Writing(used: nat, calls: nat)

  /** The buffer filled at `pos` and `n` bytes taken from it */
  function RefillStep(len: nat, cap: nat, pos: nat, n: nat, calls: nat): Reading
    requires n <= cap
  {
    var taken := Avail(len, pos, n);
    Reading(pos + taken, Avail(len, pos, cap) - taken, calls)
  }

  /**
    `direct` bytes at `pos` that bypass the buffer, then `rest` bytes through it: one call for
    each part, but none for the rest when the file ended before.
   */
  function FetchStep(len: nat, cap: nat, pos: nat, direct: nat, rest: nat, calls: nat): Reading
    requires rest <= cap
  {
    if direct == 0 then RefillStep(len, cap, pos, rest, calls + 1)
    else if Avail(len, pos, direct) < direct then Reading(pos + Avail(len, pos, direct), 0, calls + 1)
    else RefillStep(len, cap, pos + direct, rest, calls + 2)
  }

  /** A read the buffer cannot serve: what is missing in whole buffers bypasses it. */
  function SlowReadStep(len: nat, cap: nat, st: Reading, count: nat): Reading
    requires cap > 0 && st.unread <= count
  {
    var missing := count - st.unread;
    var direct := WholeBuffers(missing, cap);
    FetchStep(len, cap, st.pos + st.unread, direct, missing - direct, st.calls)
  }

  /** A read makes no call to the file when the buffer holds enough. */
  function ReadStep(len: nat, cap: nat, st: Reading, count: nat): Reading
    requires cap > 0
  {
    if count <= st.unread then Reading(st.pos + count, st.unread - count, st.calls)
    else SlowReadStep(len, cap, st, count)
  }

  /** A fill skips what is unread and makes one call. */
  function FillStep(len: nat, cap: nat, st: Reading): Reading {
    Reading(st.pos + st.unread, Avail(len, st.pos + st.unread, cap), st.calls + 1)
  }

  lemma FillIsSlowRead(len: nat, cap: nat, st: Reading)
    requires cap > 0
    ensures SlowReadStep(len, cap, Reading(st.pos + st.unread, 0, st.calls), 0) == FillStep(len, cap, st)
  {
  }

  /** What is still to do when `rest` bytes at `pos`, less than a buffer, are missing after `head` */
  ghost predicate Missing(s: seq<byte>, cap: nat, head: seq<byte>, pos: nat, rest: nat, calls: nat,
                          want: seq<byte>, next: Reading)
  {
    rest < cap && want == head + Range(s, pos, rest) && next == RefillStep(|s|, cap, pos, rest, calls + 1)
  }

  /** The same when `direct` bytes that bypass the buffer come before them */
  ghost predicate MissingMore(s: seq<byte>, cap: nat, head: seq<byte>, pos: nat, direct: nat, rest: nat, calls: nat,
                              want: seq<byte>, next: Reading)
  {
    var data := Range(s, pos, direct);
    if |data| < direct then want == head + data && next == Reading(pos + |data|, 0, calls + 1)
    else Missing(s, cap, head + data, pos + direct, rest, calls + 1, want, next)
  }

  /** How a slow read goes on after the bytes it found in the buffer */
  lemma FetchPlan(s: seq<byte>, cap: nat, start: nat, head: seq<byte>, pos: nat, direct: nat, rest: nat, calls: nat)
    requires head == Range(s, start, |head|) && pos == start + |head| && rest < cap
    ensures var want, next := Range(s, start, |head| + direct + rest), FetchStep(|s|, cap, pos, direct, rest, calls);
            if direct == 0 then Missing(s, cap, head, pos, rest, calls, want, next)
            else MissingMore(s, cap, head, pos, direct, rest, calls, want, next)
  {
    RangePieces(s, start, head, pos, direct, rest);
  }

  /** What a refilled buffer serves of the rest */
  lemma ServeRest(s: seq<byte>, cap: nat, head: seq<byte>, pos: nat, rest: nat, calls: nat,
                  want: seq<byte>, next: Reading, held: nat, n: nat)
    requires Missing(s, cap, head, pos, rest, calls, want, next)
    requires held == |Range(s, pos, cap)| && n == Min(held, rest)
    ensures want == head + Range(s, pos, n) && next == Reading(pos + n, held - n, calls + 1)
  {
    RangeWithin(s, pos, rest, cap, n);
  }

  /** A flush makes one call, and none when nothing is buffered. */
  function FlushStep(st: Writing): Writing {
    Writing(0, st.calls + if st.used > 0 then 1 else 0)
  }

  /** Bytes put into an empty buffer: one call for the whole buffers that bypass it, if any */
  function WriteEmptyStep(cap: nat, calls: nat, count: nat): Writing
    requires cap > 0
  {
    var direct := WholeBuffers(count, cap);
    Writing(count - direct, calls + if direct > 0 then 1 else 0)
  }

  /** A write makes no call to the file when the bytes fit the buffer. */
  function WriteStep(cap: nat, st: Writing, count: nat): Writing
    requires cap > 0
  {
    if st.used + count <= cap then Writing(st.used + count, st.calls)
    else WriteEmptyStep(cap, FlushStep(st).calls, count)
  }

  /** A byte goes into the buffer, after a flush when that is full. */
  function WriteByteStep(cap: nat, st: Writing): Writing {
    if st.used >= cap then Writing(1, FlushStep(st).calls) else Writing(st.used + 1, st.calls)
  }

  lemma SlowReadIs(len: nat, cap: nat, st: Reading, count: nat, pos: nat, direct: nat, rest: nat)
    requires cap > 0 && st.unread <= count && direct == WholeBuffers(count - st.unread, cap)
    requires pos == st.pos + st.unread && count == st.unread + direct + rest
    ensures SlowReadStep(len, cap, st, count) == FetchStep(len, cap, pos, direct, rest, st.calls)
  {
  }

  lemma FetchShift(len: nat, cap: nat, pos: nat, direct: nat, rest: nat, calls: nat, extra: nat)
    requires rest <= cap
    ensures var r := FetchStep(len, cap, pos, direct, rest, calls);
            FetchStep(len, cap, pos, direct, rest, calls + extra) == r.(calls := r.calls + extra)
  {
  }

  /** Steps do not look at the number of file calls so far. */
  lemma ReadShift(len: nat, cap: nat, st: Reading, count: nat, extra: nat)
    requires cap > 0
    ensures var r := ReadStep(len, cap, st, count);
            ReadStep(len, cap, st.(calls := st.calls + extra), count) == r.(calls := r.calls + extra)
  {
    if count > st.unread {
      var pos, direct := st.pos + st.unread, WholeBuffers(count - st.unread, cap);
      var rest := count - st.unread - direct;
      SlowReadIs(len, cap, st, count, pos, direct, rest);
      SlowReadIs(len, cap, st.(calls := st.calls + extra), count, pos, direct, rest);
      FetchShift(len, cap, pos, direct, rest, st.calls, extra);
    }
  }

  /** A slow read moves on by what a plain read delivers. */
  lemma SlowReadPos(len: nat, cap: nat, st: Reading, count: nat)
    requires cap > 0 && st.unread <= count && st.unread <= Avail(len, st.pos, cap)
    ensures SlowReadStep(len, cap, st, count).pos == st.pos + Avail(len, st.pos, count)
  {
  }

  /** A read moves on by what a plain read delivers, and goes to the file exactly when the buffer is short. */
  lemma ReadStepMeaning(len: nat, cap: nat, st: Reading, count: nat)
    requires cap > 0 && st.unread <= Avail(len, st.pos, cap)
    ensures var next := ReadStep(len, cap, st, count);
            && next.pos == st.pos + Avail(len, st.pos, count)
            && next.unread <= Avail(len, next.pos, cap)
            && (next.calls > st.calls <==> count > st.unread)
            && next.calls <= st.calls + 2
  {
  }

  /** A write goes to the file exactly when the bytes do not fit. */
  lemma WriteStepMeaning(cap: nat, st: Writing, count: nat)
    requires cap > 0 && st.used <= cap
    ensures var next := WriteStep(cap, st, count);
            && next.used <= cap
            && (next.calls > st.calls <==> st.used + count > cap)
            && next.calls <= st.calls + 2
  {
  }

  // ---- sequences of reads and writes ----

  /** Writes of the given sizes, one after another */
  function WritesStep(cap: nat, st: Writing, counts: seq<nat>): Writing
    requires cap > 0
  {
    if counts == [] then st else WriteStep(cap, WritesStep(cap, st, counts[..|counts| - 1]), counts[|counts| - 1])
  }

  /** Reads of the given sizes, one after another */
  function ReadsStep(len: nat, cap: nat, st: Reading, counts: seq<nat>): Reading
    requires cap > 0
  {
    if counts == [] then st else ReadStep(len, cap, ReadsStep(len, cap, st, counts[..|counts| - 1]), counts[|counts| - 1])
  }

  lemma WritesExtend(cap: nat, st: Writing, counts: seq<nat>, i: nat)
    requires cap > 0 && i < |counts|
    ensures WritesStep(cap, st, counts[..i + 1]) == WriteStep(cap, WritesStep(cap, st, counts[..i]), counts[i])
  {
    assert counts[..i + 1][..i] == counts[..i];
  }

  lemma ReadsExtend(len: nat, cap: nat, st: Reading, counts: seq<nat>, i: nat)
    requires cap > 0 && i < |counts|
    ensures ReadsStep(len, cap, st, counts[..i + 1]) == ReadStep(len, cap, ReadsStep(len, cap, st, counts[..i]), counts[i])
  {
    assert counts[..i + 1][..i] == counts[..i];
  }

  lemma {:induction false} WritesMonotone(cap: nat, st: Writing, counts: seq<nat>, i: nat)
    requires cap > 0 && i <= |counts|
    ensures WritesStep(cap, st, counts[..i]).calls <= WritesStep(cap, st, counts).calls
  {
    var n := |counts| - 1;
    if i == |counts| {
      assert counts[..i] == counts;
    } else {
      assert counts[..n][..i] == counts[..i];
      WritesMonotone(cap, st, counts[..n], i);
    }
  }

  lemma {:induction false} ReadsMonotone(len: nat, cap: nat, st: Reading, counts: seq<nat>, i: nat)
    requires cap > 0 && i <= |counts|
    ensures ReadsStep(len, cap, st, counts[..i]).calls <= ReadsStep(len, cap, st, counts).calls
  {
    var n := |counts| - 1;
    if i == |counts| {
      assert counts[..i] == counts;
    } else {
      assert counts[..n][..i] == counts[..i];
      ReadsMonotone(len, cap, st, counts[..n], i);
      ReadStepCalls(len, cap, ReadsStep(len, cap, st, counts[..n]), counts[n]);
    }
  }

  lemma ReadStepCalls(len: nat, cap: nat, st: Reading, count: nat)
    requires cap > 0
    ensures ReadStep(len, cap, st, count).calls >= st.calls
    ensures count > st.unread ==> ReadStep(len, cap, st, count).calls > st.calls
  {
  }
}

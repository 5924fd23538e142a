/**
  The codec and the cache together: numbers stored by one host, written through a cache,
  flushed, read through another cache and loaded by another host.
 */
module RoundTrip {
  import opened Bits
  import opened Endian
  import opened Memory
  import opened Hosts
  import opened Codec
  import opened Disk
  import opened IoCaches
  import opened CacheSteps
  import ReadRuns
  import WriteRuns

  /** A number and the width it is kept in */
  datatype Item = Item(width: nat, value: int)

  predicate Widths(widths: seq<nat>) {
    forall i :: 0 <= i < |widths| ==> IsWidth(widths[i])
  }

  function WidthsOf(items: seq<Item>): (w: seq<nat>)
    ensures |w| == |items| && forall i :: 0 <= i < |w| ==> w[i] == items[i].width
  {
    seq(|items|, i requires 0 <= i < |items| => items[i].width)
  }

  function Total(widths: seq<nat>): nat {
    if widths == [] then 0 else Total(widths[..|widths| - 1]) + widths[|widths| - 1]
  }

  /** The bytes of the items, low byte first, one after the other */
  function Encoded(items: seq<Item>): seq<byte> {
    if items == [] then []
    else
      var last := items[|items| - 1];
      Encoded(items[..|items| - 1]) + LeBytes(last.value, last.width)
  }

  /** The numbers found in a byte string cut into the given widths */
  function Decoded(b: seq<byte>, widths: seq<nat>): (v: seq<nat>)
    requires |b| == Total(widths)
    ensures |v| == |widths|
    decreases |widths|
  {
    if widths == [] then []
    else
      var n := |widths| - 1;
      var cut := Total(widths[..n]);
      Decoded(b[..cut], widths[..n]) + [LeValue(b[cut..])]
  }

  /** Each value modulo 256^width */
  function Residues(items: seq<Item>): (v: seq<nat>)
    ensures |v| == |items| && forall i :: 0 <= i < |v| ==> v[i] == items[i].value % Pow2(8 * items[i].width)
  {
    seq(|items|, i requires 0 <= i < |items| => items[i].value % Pow2(8 * items[i].width))
  }

  /** Decoding what was encoded gives every value modulo 256^width, in order. */
  lemma {:induction false} DecodeEncode(items: seq<Item>)
    ensures |Encoded(items)| == Total(WidthsOf(items))
    ensures Decoded(Encoded(items), WidthsOf(items)) == Residues(items)
  {
    if items != [] {
      var n := |items| - 1;
      var front, x := items[..n], items[n];
      DecodeEncode(front);
      DecodedAppend(Encoded(front), WidthsOf(front), LeBytes(x.value, x.width));
      LeLoadStore(x.value, x.width);
      ItemsAppend(items);
    }
  }

  lemma ItemsAppend(items: seq<Item>)
    requires items != []
    ensures var front, x := items[..|items| - 1], items[|items| - 1];
            && WidthsOf(items) == WidthsOf(front) + [x.width]
            && Residues(items) == Residues(front) + [x.value % Pow2(8 * x.width)]
  {
  }

  lemma DecodedAppend(b: seq<byte>, widths: seq<nat>, c: seq<byte>)
    requires |b| == Total(widths)
    ensures Total(widths + [|c|]) == |b + c|
    ensures Decoded(b + c, widths + [|c|]) == Decoded(b, widths) + [LeValue(c)]
  {
    var more := widths + [|c|];
    assert more[..|widths|] == widths && more[|widths|] == |c|;
    assert (b + c)[..|b|] == b && (b + c)[|b|..] == c;
  }

  /** Stores each item and writes it to the cache, stopping at a failure. */
  method WriteItems(h: Host, c: IoCache, items: seq<Item>) returns (ok: bool)
    requires c.Valid() && c.cacheType.WriteCache? && Widths(WidthsOf(items))
    modifies c, c.buffer, c.file
    ensures c.Valid() && c.file.calls >= old(c.file.calls)
    ensures ok ==> c.Stream() == old(c.Stream()) + Encoded(items) && (old(c.Clean()) ==> c.Clean())
    ensures Faults(c.file.faults, old(c.file.calls), c.file.calls) == if ok then 0 else 1
    ensures c.Capacity() == old(c.Capacity())
    ensures c.WrittenTo(WritesStep(c.Capacity(), old(c.WriteState()), WidthsOf(items)), !ok)
    ensures c.posInFile >= old(c.posInFile) && old(c.Stream()) <= c.Stream()
  {
    ghost var before, from, widths := c.Stream(), c.file.calls, WidthsOf(items);
    ghost var cap, st := c.Capacity(), c.WriteState();
    var i := 0;
    while i < |items|
      invariant 0 <= i <= |items|
      invariant c.Valid() && c.file.calls >= from && Faults(c.file.faults, from, c.file.calls) == 0
      invariant c.Stream() == before + Encoded(items[..i]) && (old(c.Clean()) ==> c.Clean())
      invariant c.Capacity() == cap && c.WriteState() == WritesStep(cap, st, widths[..i])
      invariant c.posInFile >= old(c.posInFile)
    {
      WritesExtend(cap, st, widths, i);
      WritesMonotone(cap, st, widths, i + 1);
      ghost var mid := c.file.calls;
      ok := WriteItem(h, c, items[i]);
      FaultsSplit(c.file.faults, from, mid, c.file.calls);
      if !ok {
        return false;
      }
      EncodedExtend(before, items, i);
      i := i + 1;
    }
    assert items[..i] == items && widths[..i] == widths;
    return true;
  }

  /** Stores and writes one item. */
  method WriteItem(h: Host, c: IoCache, item: Item) returns (ok: bool)
    requires c.Valid() && c.cacheType.WriteCache? && IsWidth(item.width)
    modifies c, c.buffer, c.file
    ensures c.Valid() && c.file.calls >= old(c.file.calls)
    ensures ok ==> c.Stream() == old(c.Stream()) + LeBytes(item.value, item.width) && (old(c.Clean()) ==> c.Clean())
    ensures Faults(c.file.faults, old(c.file.calls), c.file.calls) == if ok then 0 else 1
    ensures c.Capacity() == old(c.Capacity())
    ensures c.WrittenTo(WriteStep(c.Capacity(), old(c.WriteState()), item.width), !ok)
    ensures c.posInFile >= old(c.posInFile) && old(c.Stream()) <= c.Stream()
  {
    var scratch := new byte[8];
    Store(h, item.width, scratch, 0, item.value);
    assert scratch[0..item.width] == LeBytes(item.value, item.width);
    var r := c.Write(scratch, 0, item.width);
    ok := r == 0;
  }

  /** A beginning of the stream that lies before the position is in the file. */
  lemma StillThere(contents: seq<byte>, pos: nat, stream: seq<byte>, kept: seq<byte>)
    requires pos <= |contents| && contents[..pos] <= stream && kept <= stream && |kept| <= pos
    ensures kept <= contents
  {
    assert kept == stream[..|kept|] == contents[..pos][..|kept|];
  }

  lemma EncodedExtend(before: seq<byte>, items: seq<Item>, i: nat)
    requires i < |items|
    ensures before + Encoded(items[..i + 1])
            == before + Encoded(items[..i]) + LeBytes(items[i].value, items[i].width)
  {
    assert items[..i + 1][..i] == items[..i];
  }

  /** The numbers of the first `n` widths, when the file holds all their bytes */
  ghost predicate NumbersAt(s: seq<byte>, start: nat, widths: seq<nat>, values: seq<nat>) {
    && |Range(s, start, Total(widths))| == Total(widths)
    && values == Decoded(Range(s, start, Total(widths)), widths)
  }

  /**
    Reads and loads one number per width, stopping when the cache does not deliver: at a
    failure of the file, or because the file is too short.
   */
  method ReadNumbers(h: Host, c: IoCache, widths: seq<nat>) returns (ok: bool, values: seq<nat>)
    requires c.Valid() && c.cacheType.ReadCache? && Widths(widths)
    modifies c, c.buffer, c.file`calls
    ensures c.Valid() && c.file.calls >= old(c.file.calls)
    ensures ok ==> NumbersAt(c.file.contents, old(c.Cursor()), widths, values)
    ensures ok ==> Faults(c.file.faults, old(c.file.calls), c.file.calls) == 0
    ensures !ok ==> old(c.Cursor()) + Total(widths) > |c.file.contents|
                    || Faults(c.file.faults, old(c.file.calls), c.file.calls) == 1
    ensures var next := ReadsStep(|c.file.contents|, c.Capacity(), old(c.ReadState()), widths);
            if ok then c.ReadState() == next else c.file.calls <= next.calls
  {
    ghost var s, start, from := c.file.contents, c.Cursor(), c.file.calls;
    ghost var cap, st := c.Capacity(), c.ReadState();
    var i := 0;
    values := [];
    assert Range(s, start, 0) == [];
    while i < |widths|
      invariant 0 <= i <= |widths|
      invariant c.Valid() && c.Cursor() == start + Total(widths[..i])
      invariant c.file.calls >= from && Faults(c.file.faults, from, c.file.calls) == 0
      invariant NumbersAt(s, start, widths[..i], values)
      invariant c.ReadState() == ReadsStep(|s|, cap, st, widths[..i])
    {
      ReadsExtend(|s|, cap, st, widths, i);
      ReadsMonotone(|s|, cap, st, widths, i + 1);
      ghost var at, mid := c.Cursor(), c.file.calls;
      var value;
      ok, value := ReadNumber(h, c, widths[i]);
      FaultsSplit(c.file.faults, from, mid, c.file.calls);
      if !ok {
        TotalPrefix(widths, i);
        return false, [];
      }
      NumbersStep(s, start, widths, i, values, at, value);
      values := values + [value];
      i := i + 1;
    }
    assert widths[..i] == widths;
    return true, values;
  }

  /** Reads and loads one number. */
  method ReadNumber(h: Host, c: IoCache, w: nat) returns (ok: bool, value: nat)
    requires c.Valid() && c.cacheType.ReadCache? && IsWidth(w)
    modifies c, c.buffer, c.file`calls
    ensures c.Valid() && c.file.calls >= old(c.file.calls)
    ensures ok ==> |Range(c.file.contents, old(c.Cursor()), w)| == w && c.Cursor() == old(c.Cursor()) + w
                   && value == LeValue(Range(c.file.contents, old(c.Cursor()), w))
    ensures ok ==> Faults(c.file.faults, old(c.file.calls), c.file.calls) == 0
    ensures !ok ==> old(c.Cursor()) + w > |c.file.contents|
                    || Faults(c.file.faults, old(c.file.calls), c.file.calls) == 1
    ensures var next := ReadStep(|c.file.contents|, c.Capacity(), old(c.ReadState()), w);
            if ok then c.ReadState() == next else c.file.calls <= next.calls
  {
    var data;
    ok, data := ReadBytes(c, w);
    value := 0;
    if ok {
      assert data[..w] == data;
      value := LoadUnsigned(h, w, data);
    }
  }

  /** Reads `w` bytes into a scratch buffer. */
  method ReadBytes(c: IoCache, w: nat) returns (ok: bool, data: seq<byte>)
    requires c.Valid() && c.cacheType.ReadCache?
    modifies c, c.buffer, c.file`calls
    ensures c.Valid() && c.file.calls >= old(c.file.calls)
    ensures ok ==> data == Range(c.file.contents, old(c.Cursor()), w) && |data| == w && c.Cursor() == old(c.Cursor()) + w
    ensures ok ==> Faults(c.file.faults, old(c.file.calls), c.file.calls) == 0
    ensures !ok ==> old(c.Cursor()) + w > |c.file.contents|
                    || Faults(c.file.faults, old(c.file.calls), c.file.calls) == 1
    ensures var next := ReadStep(|c.file.contents|, c.Capacity(), old(c.ReadState()), w);
            if ok then c.ReadState() == next else c.file.calls <= next.calls
  {
    var scratch := new byte[w];
    var r, got := c.Read(scratch, 0, w);
    ok, data := r == 0, scratch[..];
    if ok {
      assert scratch[..] == got;
    }
  }

  lemma {:induction false} TotalPrefix(widths: seq<nat>, i: nat)
    requires i < |widths|
    ensures Total(widths[..i]) + widths[i] <= Total(widths)
  {
    if i < |widths| - 1 {
      TotalPrefix(widths[..|widths| - 1], i);
      assert widths[..|widths| - 1][..i] == widths[..i];
    }
  }

  /** The step of the loop */
  lemma NumbersStep(s: seq<byte>, start: nat, widths: seq<nat>, i: nat, values: seq<nat>, at: nat, value: nat)
    requires i < |widths| && NumbersAt(s, start, widths[..i], values) && at == start + Total(widths[..i])
    requires |Range(s, at, widths[i])| == widths[i] && value == LeValue(Range(s, at, widths[i]))
    ensures Total(widths[..i + 1]) == Total(widths[..i]) + widths[i]
    ensures NumbersAt(s, start, widths[..i + 1], values + [value])
  {
    assert widths[..i + 1] == widths[..i] + [widths[i]];
    NumbersExtend(s, start, widths[..i], widths[i], values);
  }

  /** One more number */
  lemma NumbersExtend(s: seq<byte>, start: nat, widths: seq<nat>, w: nat, values: seq<nat>)
    requires NumbersAt(s, start, widths, values) && |Range(s, start + Total(widths), w)| == w
    ensures Total(widths + [w]) == Total(widths) + w
    ensures NumbersAt(s, start, widths + [w], values + [LeValue(Range(s, start + Total(widths), w))])
  {
    var b, c := Range(s, start, Total(widths)), Range(s, start + Total(widths), w);
    RangeConcat(s, start, Total(widths), w);
    DecodedAppend(b, widths, c);
  }

  /** The numbers found behind `prior` are those encoded there. */
  lemma NumbersBehind(s: seq<byte>, prior: seq<byte>, items: seq<Item>, values: seq<nat>)
    requires s == prior + Encoded(items) && NumbersAt(s, |prior|, WidthsOf(items), values)
    ensures values == Residues(items)
  {
    DecodeEncode(items);
    RangeBehind(s, prior, Encoded(items), |Encoded(items)|);
    assert Encoded(items)[..|Encoded(items)|] == Encoded(items);
  }

  /**
    How many calls to the file a round trip of items of the given widths makes, the first one
    numbered `calls`, on a file of `len` bytes
   */
  function FileCalls(calls: nat, len: nat, widths: seq<nat>, writerSize: nat, readerSize: nat): nat
    requires writerSize > 0 && readerSize > 0
  {
    var written := FlushStep(WritesStep(writerSize, Writing(0, calls), widths)).calls;
    ReadsStep(len + Total(widths), readerSize, Reading(len, 0, written), widths).calls
  }

  /** At least one write and one read reach the file. */
  lemma AtLeastTwoCalls(calls: nat, len: nat, widths: seq<nat>, writerSize: nat, readerSize: nat)
    requires writerSize > 0 && readerSize > 0 && Widths(widths) && widths != []
    ensures FileCalls(calls, len, widths, writerSize, readerSize) >= calls + 2
  {
    UsedUnlessCalled(writerSize, calls, widths);
    var written := FlushStep(WritesStep(writerSize, Writing(0, calls), widths)).calls;
    TotalPrefix(widths, 0);
    assert written > calls;
    var st := Reading(len, 0, written);
    ReadsExtend(len + Total(widths), readerSize, st, widths, 0);
    ReadStepCalls(len + Total(widths), readerSize, st, widths[0]);
    ReadsMonotone(len + Total(widths), readerSize, st, widths, 1);
  }

  /** As long as no call was made, everything is still in the buffer. */
  lemma {:induction false} UsedUnlessCalled(cap: nat, calls: nat, widths: seq<nat>)
    requires cap > 0
    ensures var now := WritesStep(cap, Writing(0, calls), widths);
            now.calls >= calls && (now.calls == calls ==> now.used == Total(widths)) && now.used <= cap
  {
    if widths != [] {
      UsedUnlessCalled(cap, calls, widths[..|widths| - 1]);
    }
  }

  /**
    End to end: whatever is already in the file, whichever hosts store and load, however
    large the two buffers are and whichever calls to the file fail, the numbers come back
    modulo 256^width and in order, and are in the file behind what was there, if and only if
    none of the calls to the file that this takes fails; how many it takes depends on the
    widths and the sizes only. Otherwise a failure is reported, and what was in the file
    is still there.
   */
  method StoreFlushReadLoad(writerHost: Host, readerHost: Host, items: seq<Item>, prior: seq<byte>,
                            writerSize: nat, readerSize: nat, faults: nat -> Fault)
    returns (ok: bool, values: seq<nat>, contents: seq<byte>, calls: nat)
    requires Widths(WidthsOf(items)) && writerSize > 0 && readerSize > 0
    ensures ok <==> Faults(faults, 0, FileCalls(0, |prior|, WidthsOf(items), writerSize, readerSize)) == 0
    ensures ok ==> values == Residues(items) && contents == prior + Encoded(items)
    ensures ok ==> calls == FileCalls(0, |prior|, WidthsOf(items), writerSize, readerSize)
    ensures items != [] && ok ==> calls >= 2 && faults(0).NoFault? && faults(1).NoFault?
    ensures !ok ==> prior <= contents && Faults(faults, 0, calls) == 1
    ensures Faultless(faults) ==> ok
  {
    var file := new File(prior, faults);
    ok, values := StoreThenLoad(writerHost, readerHost, items, file, writerSize, readerSize);
    contents, calls := file.contents, file.calls;
    if items != [] {
      AtLeastTwoCalls(0, |prior|, WidthsOf(items), writerSize, readerSize);
      FaultsSplit(faults, 0, 2, FileCalls(0, |prior|, WidthsOf(items), writerSize, readerSize));
    }
    if Faultless(faults) {
      FaultlessCount(faults, 0, FileCalls(0, |prior|, WidthsOf(items), writerSize, readerSize));
    }
  }

  /** The same on a given file */
  method StoreThenLoad(writerHost: Host, readerHost: Host, items: seq<Item>, file: File, writerSize: nat, readerSize: nat)
    returns (ok: bool, values: seq<nat>)
    requires Widths(WidthsOf(items)) && writerSize > 0 && readerSize > 0
    modifies file
    ensures var n := FileCalls(old(file.calls), |old(file.contents)|, WidthsOf(items), writerSize, readerSize);
            && file.calls >= old(file.calls)
            && (ok <==> Faults(file.faults, old(file.calls), n) == 0)
            && (if ok then file.calls == n else file.calls <= n)
    ensures ok ==> values == Residues(items) && file.contents == old(file.contents) + Encoded(items)
    ensures !ok ==> old(file.contents) <= file.contents && Faults(file.faults, old(file.calls), file.calls) == 1
  {
    ghost var prior, from, widths := file.contents, file.calls, WidthsOf(items);
    ghost var written := FlushStep(WritesStep(writerSize, Writing(0, from), widths)).calls;
    ghost var n := FileCalls(from, |prior|, widths, writerSize, readerSize);
    FileCallsIs(from, |prior|, widths, writerSize, readerSize, written, |prior| + Total(widths), n);
    assert |Encoded(items)| == Total(widths) by { DecodeEncode(items); }
    var offset := |file.contents|;
    ok := WriteOut(writerHost, file, items, writerSize, written);
    ghost var mid := file.calls;
    if ok {
      assert |file.contents| == |prior| + Total(widths) && file.calls == written && prior <= file.contents;
      ok, values := ReadBack(readerHost, file, offset, WidthsOf(items), readerSize, n);
      if ok {
        NumbersBehind(file.contents, prior, items, values);
      }
    } else {
      values := [];
    }
    FaultsSplit(file.faults, from, mid, file.calls);
    FaultsSplit(file.faults, from, file.calls, n);
  }

  lemma FileCallsIs(calls: nat, len: nat, widths: seq<nat>, writerSize: nat, readerSize: nat,
                    written: nat, end: nat, n: nat)
    requires writerSize > 0 && readerSize > 0 && n == FileCalls(calls, len, widths, writerSize, readerSize)
    requires written == FlushStep(WritesStep(writerSize, Writing(0, calls), widths)).calls && end == len + Total(widths)
    ensures n == ReadsStep(end, readerSize, Reading(len, 0, written), widths).calls >= written
  {
    ReadsMonotone(end, readerSize, Reading(len, 0, written), widths, 0);
  }

  /** Appends the items through a new cache. */
  method WriteOut(h: Host, file: File, items: seq<Item>, size: nat, ghost written: nat) returns (ok: bool)
    requires size > 0 && Widths(WidthsOf(items))
    requires written == FlushStep(WritesStep(size, Writing(0, file.calls), WidthsOf(items))).calls
    modifies file
    ensures file.calls >= old(file.calls) && (if ok then file.calls == written else file.calls <= written)
    ensures if ok then file.contents == old(file.contents) + Encoded(items) else old(file.contents) <= file.contents
    ensures Faults(file.faults, old(file.calls), file.calls) == if ok then 0 else 1
  {
    var writer := new IoCache.Writer(file, size);
    ok := WriteAndFlush(h, writer, items);
  }

  /** Reads the numbers at `offset` through a new cache. */
  method ReadBack(h: Host, file: File, offset: nat, widths: seq<nat>, size: nat, ghost n: nat)
    returns (ok: bool, values: seq<nat>)
    requires size > 0 && Widths(widths) && offset + Total(widths) <= |file.contents|
    requires n == ReadsStep(|file.contents|, size, Reading(offset, 0, file.calls), widths).calls
    modifies file`calls
    ensures file.calls >= old(file.calls) && (if ok then file.calls == n else file.calls <= n)
    ensures ok ==> NumbersAt(file.contents, offset, widths, values)
    ensures Faults(file.faults, old(file.calls), file.calls) == if ok then 0 else 1
  {
    var reader := new IoCache.Reader(file, size, offset);
    ok, values := ReadNumbers(h, reader, widths);
  }

  method WriteAndFlush(h: Host, c: IoCache, items: seq<Item>) returns (ok: bool)
    requires c.Valid() && c.cacheType.WriteCache? && Widths(WidthsOf(items)) && c.Clean()
    modifies c, c.buffer, c.file
    ensures c.Valid() && c.file.calls >= old(c.file.calls)
    ensures ok ==> c.file.contents == old(c.Stream()) + Encoded(items)
    ensures old(c.file.contents) <= c.file.contents
    ensures Faults(c.file.faults, old(c.file.calls), c.file.calls) == if ok then 0 else 1
    ensures var next := FlushStep(WritesStep(old(c.Capacity()), old(c.WriteState()), WidthsOf(items)));
            if ok then c.file.calls == next.calls else c.file.calls <= next.calls
  {
    ghost var kept := c.file.contents;
    assert kept[..c.posInFile] == kept && kept <= c.Stream();
    ok := WriteItems(h, c, items);
    if ok {
      ghost var mid := c.file.calls;
      var r := c.Flush();
      FaultsSplit(c.file.faults, old(c.file.calls), mid, c.file.calls);
      ok := r == 0;
    }
    StillThere(c.file.contents, c.posInFile, c.Stream(), kept);
  }

  /**
    Any calls against any calls: whatever mix of writes, byte writes and flushes went into
    one cache and whatever mix of reads, gets and fills comes out of another, what the
    answered reads deliver is the beginning of what the successful writes carried. When no
    write fails, that is a plain read of all of it, also past its end. Of the calls to the
    file, those numbered below `mid` are the writer's; each one that fails makes exactly one
    call to a cache fail.
   */
  method WriteThenRead(file: File, wops: seq<WriteRuns.Op>, rops: seq<ReadRuns.Op>, writerSize: nat, readerSize: nat)
    returns (oks: seq<bool>, flushed: bool, replies: seq<ReadRuns.Reply>, mid: nat)
    requires writerSize > 0 && readerSize > 0
    modifies file
    ensures |oks| == |wops| && old(file.calls) <= mid <= file.calls
    ensures WriteRuns.Failures(oks) + (if flushed then 0 else 1) == Faults(file.faults, old(file.calls), mid)
    ensures flushed && WriteRuns.AllOk(oks)
            ==> mid == FlushStep(WriteRuns.AllSteps(writerSize, Writing(0, old(file.calls)), wops)).calls
                && file.contents == old(file.contents) + WriteRuns.Payloads(wops)
    ensures flushed ==> old(file.contents) + WriteRuns.Accepted(wops, oks) <= file.contents
    ensures flushed ==> ReadRuns.Run(file.contents, |old(file.contents)|, rops, replies)
    ensures flushed ==> ReadRuns.Failures(replies) == Faults(file.faults, mid, file.calls)
    ensures flushed ==>
      ReadRuns.FillsExact(|file.contents|, readerSize, Reading(|old(file.contents)|, 0, mid), rops, replies)
    ensures flushed && ReadRuns.Failures(replies) == 0 ==>
      file.calls == ReadRuns.NextAll(|file.contents|, readerSize, Reading(|old(file.contents)|, 0, mid), rops, replies).calls
    ensures flushed && ReadRuns.NothingSkipped(replies)
            && ReadRuns.Answered(rops, replies) <= |WriteRuns.Accepted(wops, oks)|
            ==> ReadRuns.Delivered(replies)
                == WriteRuns.Accepted(wops, oks)[..ReadRuns.Answered(rops, replies)]
    ensures flushed && ReadRuns.NothingSkipped(replies) && WriteRuns.AllOk(oks)
            ==> ReadRuns.Delivered(replies)
                == Range(WriteRuns.Payloads(wops), 0, ReadRuns.Answered(rops, replies))
  {
    ghost var prior := file.contents;
    var offset := |file.contents|;
    var writer := new IoCache.Writer(file, writerSize);
    oks, flushed := WriteRuns.RunAndFlush(writer, wops);
    replies, mid := [], file.calls;
    if flushed {
      var reader := new IoCache.Reader(file, readerSize, offset);
      replies := ReadRuns.RunReads(reader, rops);
      if ReadRuns.NothingSkipped(replies) {
        ReadRuns.DeliversRange(file.contents, offset, rops, replies);
        RangeBehind(file.contents, prior, WriteRuns.Accepted(wops, oks), ReadRuns.Answered(rops, replies));
        if WriteRuns.AllOk(oks) {
          WriteRuns.AllAccepted(wops, oks);
        }
      }
    }
  }

  /** Reading behind `prior` in a file that goes on with `b` */
  lemma RangeBehind(s: seq<byte>, prior: seq<byte>, b: seq<byte>, n: nat)
    requires prior + b <= s
    ensures n <= |b| ==> Range(s, |prior|, n) == b[..n]
    ensures s == prior + b ==> Range(s, |prior|, n) == Range(b, 0, n)
  {
    var t := prior + b;
    if n <= |b| {
      assert s[|prior|..|prior| + n] == t[|prior|..|prior| + n] == b[..n];
    }
    if s == t {
      var m := Min(n, |b|);
      assert s[|prior|..|prior| + m] == b[0..m];
    }
  }
}

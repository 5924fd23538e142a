/** Every run of writes through an IO_CACHE, compared with plain appends to a byte sequence */
module WriteRuns {
  import opened Bits
  import opened Endian
  import opened Memory
  import opened Disk
  import opened IoCaches
  import opened CacheSteps

  /** One call: `my_b_write`, `my_b_write_byte` or `my_b_flush_io_cache` */
  datatype Op = Write(data: seq<byte>) | WriteByte(chr: byte) | Flush

  function Payload(op: Op): seq<byte> {
    match op
    case Write(data) => data
    case WriteByte(chr) => [chr]
    case Flush => []
  }

  /** The bytes of the calls that succeeded, in order */
  function Accepted(ops: seq<Op>, oks: seq<bool>): seq<byte>
    requires |ops| == |oks|
  {
    if ops == [] then []
    else
      var n := |ops| - 1;
      Accepted(ops[..n], oks[..n]) + if oks[n] then Payload(ops[n]) else []
  }

  predicate AllOk(oks: seq<bool>) {
    forall i :: 0 <= i < |oks| ==> oks[i]
  }

  /** How many calls failed */
  function Failures(oks: seq<bool>): nat {
    if oks == [] then 0 else Failures(oks[..|oks| - 1]) + if oks[|oks| - 1] then 0 else 1
  }

  /** What a successful call does to the buffer and the number of file calls */
  function OpStep(cap: nat, st: Writing, op: Op): Writing
    requires cap > 0
  {
    match op
    case Write(data) => WriteStep(cap, st, |data|)
    case WriteByte(_) => WriteByteStep(cap, st)
    case Flush => FlushStep(st)
  }

  function AllSteps(cap: nat, st: Writing, ops: seq<Op>): Writing
    requires cap > 0
  {
    if ops == [] then st else OpStep(cap, AllSteps(cap, st, ops[..|ops| - 1]), ops[|ops| - 1])
  }

  predicate AnyFlush(ops: seq<Op>, oks: seq<bool>)
    requires |ops| == |oks|
  {
    exists i :: 0 <= i < |ops| && ops[i].Flush? && oks[i]
  }

  /** The bytes accepted before the last successful flush */
  function Flushed(ops: seq<Op>, oks: seq<bool>): seq<byte>
    requires |ops| == |oks|
  {
    if ops == [] then []
    else
      var n := |ops| - 1;
      if ops[n].Flush? && oks[n] then Accepted(ops, oks) else Flushed(ops[..n], oks[..n])
  }

  /**
    Any sequence of calls on any write cache, with any buffer size and any pattern of
    failures: the file up to `posInFile` followed by the buffer is what was there before
    followed by the bytes of the calls that succeeded, and nothing of those that failed;
    `my_b_tell` moves by exactly that many bytes; as many calls fail as file calls failed.
    What was accepted before the last successful flush is in the file. While none has failed,
    the file holds exactly the accepted bytes but for those still in the buffer, whose number
    depends on the capacity and the sizes of the calls only, as does the number of file calls.
   */
  method RunWrites(c: IoCache, ops: seq<Op>) returns (oks: seq<bool>)
    requires c.Valid() && c.cacheType.WriteCache?
    modifies c, c.buffer, c.file
    ensures c.Valid() && |oks| == |ops|
    ensures c.Stream() == old(c.Stream()) + Accepted(ops, oks)
    ensures c.Tell() == old(c.Tell()) + |Accepted(ops, oks)|
    ensures c.file.calls >= old(c.file.calls)
    ensures Failures(oks) == Faults(c.file.faults, old(c.file.calls), c.file.calls)
    ensures AnyFlush(ops, oks) ==> old(c.Stream()) + Flushed(ops, oks) <= c.file.contents
    ensures c.Capacity() == old(c.Capacity())
    ensures AllOk(oks) ==> c.WriteState() == AllSteps(c.Capacity(), old(c.WriteState()), ops)
    ensures AllOk(oks) && old(c.Clean()) ==> c.Clean()
    ensures c.Clean() ==> c.file.contents == c.Stream()[..|c.Stream()| - c.WriteState().used]
  {
    oks := [];
    ghost var before, faults := c.Stream(), c.file.faults;
    ghost var cap, st := c.Capacity(), c.WriteState();
    var i := 0;
    while i < |ops|
      invariant 0 <= i <= |ops| && c.Valid() && c.Capacity() == cap
      invariant Run(before, cap, st, ops[..i], oks, faults, c.Stream(), c.posInFile, c.WriteState())
      invariant AllOk(oks) && old(c.Clean()) ==> c.Clean()
    {
      ghost var stream, pos, now := c.Stream(), c.posInFile, c.WriteState();
      var ok := Call(c, ops[i]);
      RunExtend(before, cap, st, ops, i, oks, faults, stream, pos, now, ok, c.Stream(), c.posInFile, c.WriteState());
      AcceptedExtend(before, ops[..i], oks, ops[i], ok);
      oks := oks + [ok];
      i := i + 1;
    }
    assert ops[..i] == ops;
    if AnyFlush(ops, oks) {
      FlushedPrefix(ops, oks);
      InFile(c.file.contents, c.posInFile, c.Stream(), before, Accepted(ops, oks), Flushed(ops, oks));
    }
  }

  /** What a run of the given calls has done to the stream, the position, the buffer and the file calls */
  ghost predicate Run(before: seq<byte>, cap: nat, st: Writing, ops: seq<Op>, oks: seq<bool>, faults: nat -> Fault,
                      stream: seq<byte>, pos: nat, now: Writing)
    requires cap > 0
  {
    && |oks| == |ops| && stream == before + Accepted(ops, oks)
    && now.calls >= st.calls && Failures(oks) == Faults(faults, st.calls, now.calls)
    && (AnyFlush(ops, oks) ==> |before + Flushed(ops, oks)| <= pos)
    && (AllOk(oks) ==> now == AllSteps(cap, st, ops))
  }

  lemma RunExtend(before: seq<byte>, cap: nat, st: Writing, ops: seq<Op>, i: nat, oks: seq<bool>, faults: nat -> Fault,
                  stream: seq<byte>, pos: nat, now: Writing, ok: bool, stream': seq<byte>, pos': nat, now': Writing)
    requires cap > 0 && i < |ops| && Run(before, cap, st, ops[..i], oks, faults, stream, pos, now)
    requires stream' == stream + if ok then Payload(ops[i]) else []
    requires pos' >= pos && (ops[i].Flush? && ok ==> pos' == |stream'|)
    requires now'.calls >= now.calls && Faults(faults, now.calls, now'.calls) == if ok then 0 else 1
    requires ok ==> now' == OpStep(cap, now, ops[i])
    ensures Run(before, cap, st, ops[..i + 1], oks + [ok], faults, stream', pos', now')
  {
    assert ops[..i + 1] == ops[..i] + [ops[i]];
    FaultsSplit(faults, st.calls, now.calls, now'.calls);
    AcceptedExtend(before, ops[..i], oks, ops[i], ok);
    FlushedExtend(ops[..i], oks, ops[i], ok);
    StepsExtend(cap, st, ops[..i], ops[i]);
  }

  lemma FlushedExtend(ops: seq<Op>, oks: seq<bool>, op: Op, ok: bool)
    requires |ops| == |oks|
    ensures AnyFlush(ops + [op], oks + [ok]) <==> AnyFlush(ops, oks) || (op.Flush? && ok)
    ensures Flushed(ops + [op], oks + [ok])
            == if op.Flush? && ok then Accepted(ops + [op], oks + [ok]) else Flushed(ops, oks)
  {
    var ops', oks' := ops + [op], oks + [ok];
    assert ops'[..|ops|] == ops && oks'[..|ops|] == oks;
    assert ops'[|ops|] == op && oks'[|ops|] == ok;
    assert forall i :: 0 <= i < |ops| ==> ops'[i] == ops[i] && oks'[i] == oks[i];
  }

  lemma StepsExtend(cap: nat, st: Writing, ops: seq<Op>, op: Op)
    requires cap > 0
    ensures AllSteps(cap, st, ops + [op]) == OpStep(cap, AllSteps(cap, st, ops), op)
  {
    assert (ops + [op])[..|ops|] == ops;
  }

  lemma {:induction false} FlushedPrefix(ops: seq<Op>, oks: seq<bool>)
    requires |ops| == |oks|
    ensures Flushed(ops, oks) <= Accepted(ops, oks)
  {
    if ops != [] {
      FlushedPrefix(ops[..|ops| - 1], oks[..|ops| - 1]);
    }
  }

  /** A part of the stream that lies before the position is in the file. */
  lemma InFile(contents: seq<byte>, pos: nat, stream: seq<byte>, before: seq<byte>, accepted: seq<byte>, flushed: seq<byte>)
    requires pos <= |contents| && contents[..pos] <= stream && stream == before + accepted
    requires flushed <= accepted && |before + flushed| <= pos
    ensures before + flushed <= contents
  {
    var k := |before + flushed|;
    assert before + flushed == stream[..k];
    assert stream[..k] == contents[..pos][..k] == contents[..k];
  }

  lemma AcceptedExtend(before: seq<byte>, ops: seq<Op>, oks: seq<bool>, op: Op, ok: bool)
    requires |ops| == |oks|
    ensures before + Accepted(ops + [op], oks + [ok])
            == before + Accepted(ops, oks) + if ok then Payload(op) else []
    ensures AllOk(oks + [ok]) <==> AllOk(oks) && ok
    ensures Failures(oks + [ok]) == Failures(oks) + if ok then 0 else 1
  {
    assert (ops + [op])[..|ops|] == ops;
    assert (oks + [ok])[..|ops|] == oks;
    assert (oks + [ok])[|ops|] == ok;
    assert forall i :: 0 <= i < |oks| ==> (oks + [ok])[i] == oks[i];
  }

  /** One call and whether it succeeded */
  method Call(c: IoCache, op: Op) returns (ok: bool)
    requires c.Valid() && c.cacheType.WriteCache?
    modifies c, c.buffer, c.file
    ensures c.Valid() && c.file.calls >= old(c.file.calls)
    ensures c.Stream() == old(c.Stream()) + if ok then Payload(op) else []
    ensures Faults(c.file.faults, old(c.file.calls), c.file.calls) == if ok then 0 else 1
    ensures ok && old(c.Clean()) ==> c.Clean()
    ensures c.posInFile >= old(c.posInFile) && (op.Flush? && ok ==> c.posInFile == |c.Stream()|)
    ensures c.Capacity() == old(c.Capacity())
    ensures c.WrittenTo(OpStep(c.Capacity(), old(c.WriteState()), op), !ok)
  {
    var r;
    match op {
      case Write(data) =>
        var src := new byte[|data|];
        CopyBytes(src, 0, data);
        assert src[0..|data|] == data;
        r := c.Write(src, 0, |data|);
      case WriteByte(chr) =>
        r := c.WriteByte(chr);
      case Flush =>
        r := c.Flush();
    }
    ok := r == 0;
  }

  lemma {:induction false} NoneFailed(oks: seq<bool>)
    ensures Failures(oks) == 0 <==> AllOk(oks)
  {
    if oks != [] {
      NoneFailed(oks[..|oks| - 1]);
    }
  }

  /** Cutting the same bytes into calls differently makes no difference to what is accepted. */
  lemma {:induction false} AllAccepted(ops: seq<Op>, oks: seq<bool>)
    requires |ops| == |oks| && AllOk(oks)
    ensures Accepted(ops, oks) == Payloads(ops)
  {
    if ops != [] {
      AllAccepted(ops[..|ops| - 1], oks[..|ops| - 1]);
    }
  }

  /** All bytes the calls carry, in order */
  function Payloads(ops: seq<Op>): seq<byte> {
    if ops == [] then [] else Payloads(ops[..|ops| - 1]) + Payload(ops[|ops| - 1])
  }

  /**
    A run that ends with a successful flush has put every accepted byte into the file, after
    the old ones, whatever failed on the way. All of it works if and only if no file call
    failed.
   */
  method RunAndFlush(c: IoCache, ops: seq<Op>) returns (oks: seq<bool>, ok: bool)
    requires c.Valid() && c.cacheType.WriteCache?
    modifies c, c.buffer, c.file
    ensures c.Valid() && |oks| == |ops|
    ensures ok ==> old(c.Stream()) + Accepted(ops, oks) <= c.file.contents
    ensures ok && AllOk(oks) && old(c.Clean()) ==> c.file.contents == old(c.Stream()) + Payloads(ops)
    ensures c.file.calls >= old(c.file.calls)
    ensures Failures(oks) + (if ok then 0 else 1) == Faults(c.file.faults, old(c.file.calls), c.file.calls)
    ensures ok && AllOk(oks) <==> Faults(c.file.faults, old(c.file.calls), c.file.calls) == 0
    ensures ok && AllOk(oks) ==> c.file.calls == FlushStep(AllSteps(old(c.Capacity()), old(c.WriteState()), ops)).calls
  {
    oks := RunWrites(c, ops);
    ghost var mid := c.file.calls;
    var r := c.Flush();
    FaultsSplit(c.file.faults, old(c.file.calls), mid, c.file.calls);
    NoneFailed(oks);
    ok := r == 0;
    if AllOk(oks) {
      AllAccepted(ops, oks);
    }
  }

  // ---- how often the file is called ----

  function Flushes(ops: seq<Op>): nat {
    if ops == [] then 0 else Flushes(ops[..|ops| - 1]) + if ops[|ops| - 1].Flush? then 1 else 0
  }

  /**
    What the buffer is for: apart from the flushes asked for, at most two calls to the file
    for every bufferful of bytes, however they are cut into calls.
   */
  lemma {:induction false} FewCalls(cap: nat, st: Writing, ops: seq<Op>)
    requires cap > 0 && st.used <= cap
    ensures var now := AllSteps(cap, st, ops);
            && now.used <= cap && now.calls >= st.calls
            && (now.calls - st.calls) * cap + now.used <= 2 * |Payloads(ops)| + Flushes(ops) * cap + st.used
  {
    if ops != [] {
      var n := |ops| - 1;
      var mid := AllSteps(cap, st, ops[..n]);
      FewCalls(cap, st, ops[..n]);
      FewCallsStep(cap, mid, ops[n]);
      var now := OpStep(cap, mid, ops[n]);
      MulSum(mid.calls - st.calls, now.calls - mid.calls, cap);
      MulSum(Flushes(ops[..n]), 1, cap);
    }
  }

  lemma FewCallsStep(cap: nat, st: Writing, op: Op)
    requires cap > 0 && st.used <= cap
    ensures var now := OpStep(cap, st, op);
            && now.used <= cap && now.calls >= st.calls
            && (now.calls - st.calls) * cap + now.used <= 2 * |Payload(op)| + (if op.Flush? then cap else 0) + st.used
  {
    var extra := OpStep(cap, st, op).calls - st.calls;
    assert extra == 0 || extra == 1 || extra == 2;
    assert 0 * cap == 0 && 1 * cap == cap && 2 * cap == cap + cap;
  }

  lemma MulSum(x: int, y: int, d: int)
    ensures (x + y) * d == x * d + y * d
  {
  }

  predicate OnlyBytes(ops: seq<Op>) {
    forall i :: 0 <= i < |ops| ==> ops[i].WriteByte?
  }

  /** Writing byte by byte calls the file once for every full buffer, and only when the next byte comes. */
  lemma {:induction false} ByteWiseCalls(cap: nat, calls: nat, ops: seq<Op>)
    requires cap > 0 && OnlyBytes(ops)
    ensures var now, n := AllSteps(cap, Writing(0, calls), ops), |ops|;
            if n == 0 then now == Writing(0, calls)
            else now == Writing((n - 1) % cap + 1, calls + (n - 1) / cap)
  {
    if |ops| > 1 {
      var n := |ops| - 1;
      ByteWiseCalls(cap, calls, ops[..n]);
      NextQuotient(n - 1, cap);
    } else if |ops| == 1 {
      assert AllSteps(cap, Writing(0, calls), ops[..0]) == Writing(0, calls);
      QuotientUnique(0, cap, 0, 0);
    }
  }

  lemma NextQuotient(x: nat, d: nat)
    requires d > 0
    ensures if x % d == d - 1 then (x + 1) / d == x / d + 1 && (x + 1) % d == 0
            else (x + 1) / d == x / d && (x + 1) % d == x % d + 1
  {
    var q, r := DivMod(x, d);
    if r == d - 1 {
      MulSucc(q, d);
      QuotientUnique(x + 1, d, q + 1, 0);
    } else {
      QuotientUnique(x + 1, d, q, r + 1);
    }
  }
}

/**
  Every run of reads through an IO_CACHE, compared with plain reads from the file. The
  judge of a run knows the file and the replies only, not the buffer.
 */
module ReadRuns {
  import opened Endian
  import opened Memory
  import opened Disk
  import opened IoCaches
  import opened CacheSteps

  /** One call: `my_b_read` of so many bytes, `my_b_get`, or `my_b_fill` */
  datatype Op = Read(count: nat) | Get | Fill

  /**
    What the caller saw: the bytes asked for, the fewer bytes left before the end of the
    file, a hard error, or how much a fill skipped and, if it worked, made available.
   */
  datatype Reply =
    | Bytes(b: seq<byte>)
    | End(b: seq<byte>)
    | Failed
    | Filled(skipped: nat, n: nat)
    | FillFailed(skipped: nat)

  function Demand(op: Op): nat {
    match op
    case Read(count) => count
    case Get => 1
    case Fill => 0
  }

  /** How far a reply moves the position in the file */
  function Moved(reply: Reply): nat {
    match reply
    case Bytes(b) => |b|
    case End(b) => |b|
    case Failed => 0
    case Filled(skipped, _) => skipped
    case FillFailed(skipped) => skipped
  }

  function PosAfter(pos: nat, replies: seq<Reply>): nat {
    if replies == [] then pos
    else PosAfter(pos, replies[..|replies| - 1]) + Moved(replies[|replies| - 1])
  }

  /** The reply a plain read of the file at `pos` allows */
  ghost predicate Honest(s: seq<byte>, pos: nat, op: Op, reply: Reply) {
    match reply
    case Bytes(b) => !op.Fill? && b == Range(s, pos, Demand(op)) && |b| == Demand(op)
    case End(b) => !op.Fill? && b == Range(s, pos, Demand(op)) && |b| < Demand(op)
    case Failed => !op.Fill?
    case Filled(skipped, n) => op.Fill? && (if n == 0 then pos + skipped >= |s| else pos + skipped + n <= |s|)
    case FillFailed(_) => op.Fill?
  }

  /** Every reply of the run is the one a plain file would give at the position reached. */
  ghost predicate Run(s: seq<byte>, pos: nat, ops: seq<Op>, replies: seq<Reply>) {
    && |replies| == |ops|
    && (ops != [] ==>
          var n := |ops| - 1;
          && Run(s, pos, ops[..n], replies[..n])
          && Honest(s, PosAfter(pos, replies[..n]), ops[n], replies[n]))
  }

  predicate NoFill(ops: seq<Op>) {
    forall i :: 0 <= i < |ops| ==> !ops[i].Fill?
  }

  predicate Failure(reply: Reply) {
    reply.Failed? || reply.FillFailed?
  }

  /** How many calls reported a hard error */
  function Failures(replies: seq<Reply>): nat {
    if replies == [] then 0
    else Failures(replies[..|replies| - 1]) + if Failure(replies[|replies| - 1]) then 1 else 0
  }

  /** How many bytes fills skipped */
  function Skipped(replies: seq<Reply>): nat {
    if replies == [] then 0
    else
      var last := replies[|replies| - 1];
      Skipped(replies[..|replies| - 1]) + if last.Filled? || last.FillFailed? then last.skipped else 0
  }

  /** `my_b_fill` was called only when everything in the buffer had been used, as its note asks. */
  predicate NothingSkipped(replies: seq<Reply>) {
    forall i :: 0 <= i < |replies| ==> !Skips(replies[i])
  }

  predicate Skips(reply: Reply) {
    (reply.Filled? || reply.FillFailed?) && reply.skipped > 0
  }

  /**
    The state of the cache after a call: a successful one does what its step says, a failed
    one leaves nothing unread (and its file calls are not counted here).
   */
  function Next(len: nat, cap: nat, st: Reading, op: Op, reply: Reply): Reading
    requires cap > 0
  {
    if Failure(reply) then Reading(st.pos + Moved(reply), 0, st.calls)
    else
      match op
      case Read(count) => ReadStep(len, cap, st, count)
      case Get => ReadStep(len, cap, st, 1)
      case Fill => FillStep(len, cap, st)
  }

  function NextAll(len: nat, cap: nat, st: Reading, ops: seq<Op>, replies: seq<Reply>): Reading
    requires cap > 0 && |ops| == |replies|
  {
    if ops == [] then st
    else
      var n := |ops| - 1;
      Next(len, cap, NextAll(len, cap, st, ops[..n], replies[..n]), ops[n], replies[n])
  }

  /** A fill skips exactly what is unread, and makes available what the buffer takes of the file behind it. */
  predicate FillExact(len: nat, cap: nat, st: Reading, reply: Reply) {
    match reply
    case Filled(skipped, n) => skipped == st.unread && n == Avail(len, st.pos + st.unread, cap)
    case FillFailed(skipped) => skipped == st.unread
    case _ => true
  }

  /** Every fill of a run does. */
  predicate FillsExact(len: nat, cap: nat, st: Reading, ops: seq<Op>, replies: seq<Reply>)
    requires cap > 0 && |ops| == |replies|
  {
    ops != [] ==>
      var n := |ops| - 1;
      && FillsExact(len, cap, st, ops[..n], replies[..n])
      && FillExact(len, cap, NextAll(len, cap, st, ops[..n], replies[..n]), replies[n])
  }

  /**
    Any sequence of calls on any read cache, with any buffer size and any pattern of
    failures, is a run of the plain file, and leaves `my_b_tell` where the replies say.
    As many calls fail as file calls failed during the run: an error of the file is
    reported by exactly one call, and no call fails without one. Fills skip exactly what
    is unread; that, and without failures the number of file calls, is determined by the
    calls, the capacity and the length of the file.
   */
  method RunReads(c: IoCache, ops: seq<Op>) returns (replies: seq<Reply>)
    requires c.Valid() && c.cacheType.ReadCache?
    modifies c, c.buffer, c.file`calls
    ensures c.Valid() && Run(c.file.contents, old(c.Cursor()), ops, replies)
    ensures c.Tell() == PosAfter(old(c.Cursor()), replies)
    ensures c.file.calls >= old(c.file.calls)
    ensures Failures(replies) == Faults(c.file.faults, old(c.file.calls), c.file.calls)
    ensures FillsExact(|c.file.contents|, c.Capacity(), old(c.ReadState()), ops, replies)
    ensures c.BytesInCache() == NextAll(|c.file.contents|, c.Capacity(), old(c.ReadState()), ops, replies).unread
    ensures Failures(replies) == 0 ==>
              c.ReadState() == NextAll(|c.file.contents|, c.Capacity(), old(c.ReadState()), ops, replies)
  {
    ghost var s, cap, st := c.file.contents, c.Capacity(), c.ReadState();
    replies := [];
    var i := 0;
    while i < |ops|
      invariant 0 <= i <= |ops| && c.Valid()
      invariant Explained(s, cap, st, ops[..i], replies, c.ReadState(), c.file.faults)
    {
      ghost var now := c.ReadState();
      var reply := Call(c, ops[i]);
      ExplainedExtend(s, cap, st, ops, i, replies, now, reply, c.ReadState(), c.file.faults);
      replies := replies + [reply];
      i := i + 1;
    }
    assert ops[..i] == ops;
  }

  /** A run of the plain file that comes to `now` and reports every fault met once */
  ghost predicate Explained(s: seq<byte>, cap: nat, st: Reading, ops: seq<Op>, replies: seq<Reply>, now: Reading,
                            faults: nat -> Fault)
    requires cap > 0
  {
    && Run(s, st.pos, ops, replies) && now.pos == PosAfter(st.pos, replies)
    && st.calls <= now.calls && Failures(replies) == Faults(faults, st.calls, now.calls)
    && FillsExact(|s|, cap, st, ops, replies)
    && Same(now, NextAll(|s|, cap, st, ops, replies), Failures(replies) > 0)
  }

  /** The same state, up to the number of file calls when there were failures */
  predicate Same(x: Reading, y: Reading, failures: bool) {
    x.pos == y.pos && x.unread == y.unread && (!failures ==> x.calls == y.calls)
  }

  lemma ExplainedExtend(s: seq<byte>, cap: nat, st: Reading, ops: seq<Op>, i: nat, replies: seq<Reply>, now: Reading,
                        reply: Reply, now': Reading, faults: nat -> Fault)
    requires cap > 0 && i < |ops| && Explained(s, cap, st, ops[..i], replies, now, faults)
    requires Honest(s, now.pos, ops[i], reply) && now'.pos == now.pos + Moved(reply) && now'.calls >= now.calls
    requires Faults(faults, now.calls, now'.calls) == if Failure(reply) then 1 else 0
    requires FillExact(|s|, cap, now, reply) && Same(now', Next(|s|, cap, now, ops[i], reply), Failure(reply))
    ensures Explained(s, cap, st, ops[..i + 1], replies + [reply], now', faults)
  {
    var ops', replies' := ops[..i + 1], replies + [reply];
    assert ops'[..i] == ops[..i] && ops'[i] == ops[i];
    assert replies'[..i] == replies && replies'[i] == reply;
    FaultsSplit(faults, st.calls, now.calls, now'.calls);
    NextSame(|s|, cap, now, NextAll(|s|, cap, st, ops[..i], replies), ops[i], reply, Failures(replies) > 0);
  }

  /** Steps do not look at the number of file calls. */
  lemma NextSame(len: nat, cap: nat, x: Reading, y: Reading, op: Op, reply: Reply, failures: bool)
    requires cap > 0 && Same(x, y, failures)
    ensures Same(Next(len, cap, x, op, reply), Next(len, cap, y, op, reply), failures)
    ensures FillExact(len, cap, x, reply) == FillExact(len, cap, y, reply)
  {
    var base := Reading(x.pos, x.unread, 0);
    assert x == base.(calls := 0 + x.calls) && y == base.(calls := 0 + y.calls);
    if !Failure(reply) && !op.Fill? {
      ReadShift(len, cap, base, Demand(op), x.calls);
      ReadShift(len, cap, base, Demand(op), y.calls);
    }
  }

  /** One call and its reply */
  method Call(c: IoCache, op: Op) returns (reply: Reply)
    requires c.Valid() && c.cacheType.ReadCache?
    modifies c, c.buffer, c.file`calls
    ensures c.Valid() && Honest(c.file.contents, old(c.Cursor()), op, reply)
    ensures c.Cursor() == old(c.Cursor()) + Moved(reply)
    ensures c.file.calls >= old(c.file.calls)
    ensures Faults(c.file.faults, old(c.file.calls), c.file.calls) == if Failure(reply) then 1 else 0
    ensures FillExact(|c.file.contents|, c.Capacity(), old(c.ReadState()), reply)
    ensures Same(c.ReadState(), Next(|c.file.contents|, c.Capacity(), old(c.ReadState()), op, reply), Failure(reply))
  {
    match op {
      case Read(count) =>
        reply := CallRead(c, count);
      case Get =>
        var r := c.Get();
        reply := if r != MY_B_EOF then Bytes([r]) else if c.error >= 0 then End([]) else Failed;
      case Fill =>
        var skipped := c.BytesInCache();
        var n := c.Fill();
        reply := if n == 0 && c.error == -1 then FillFailed(skipped) else Filled(skipped, n);
    }
  }

  method CallRead(c: IoCache, count: nat) returns (reply: Reply)
    requires c.Valid() && c.cacheType.ReadCache?
    modifies c, c.buffer, c.file`calls
    ensures c.Valid() && Honest(c.file.contents, old(c.Cursor()), Read(count), reply)
    ensures c.Cursor() == old(c.Cursor()) + Moved(reply)
    ensures c.file.calls >= old(c.file.calls)
    ensures Faults(c.file.faults, old(c.file.calls), c.file.calls) == if Failure(reply) then 1 else 0
    ensures FillExact(|c.file.contents|, c.Capacity(), old(c.ReadState()), reply)
    ensures var next := Next(|c.file.contents|, c.Capacity(), old(c.ReadState()), Read(count), reply);
            Same(c.ReadState(), next, Failure(reply))
  {
    var dst := new byte[count];
    var r, got := c.Read(dst, 0, count);
    assert dst[..][..|got|] == got;
    reply := if r == 0 then Bytes(dst[..]) else if c.error >= 0 then End(dst[..c.error]) else Failed;
  }

  // ---- what a run delivers ----

  /** The bytes a run delivered, in order */
  function Delivered(replies: seq<Reply>): seq<byte> {
    if replies == [] then []
    else Delivered(replies[..|replies| - 1]) + Got(replies[|replies| - 1])
  }

  function Got(reply: Reply): seq<byte> {
    if reply.Bytes? || reply.End? then reply.b else []
  }

  /** How many bytes the calls that were answered had asked for */
  function Answered(ops: seq<Op>, replies: seq<Reply>): nat
    requires |ops| == |replies|
  {
    if ops == [] then 0
    else
      var n := |ops| - 1;
      Answered(ops[..n], replies[..n]) + if replies[n].Failed? then 0 else Demand(ops[n])
  }

  /**
    No gap and no repeat: the calls that were answered deliver, together, exactly what one
    plain read of their total would; a failed call loses nothing.
   */
  lemma {:induction false} DeliversRange(s: seq<byte>, pos: nat, ops: seq<Op>, replies: seq<Reply>)
    requires Run(s, pos, ops, replies) && NothingSkipped(replies)
    ensures Delivered(replies) == Range(s, pos, Answered(ops, replies))
    ensures PosAfter(pos, replies) == pos + |Delivered(replies)|
  {
    if ops != [] {
      var n := |ops| - 1;
      var front, last := replies[..n], replies[n];
      DeliversRange(s, pos, ops[..n], front);
      assert !Skips(last);
      ReplyExtends(s, pos, Answered(ops[..n], front), PosAfter(pos, front), ops[n], last);
    }
  }

  lemma ReplyExtends(s: seq<byte>, pos: nat, had: nat, at: nat, op: Op, reply: Reply)
    requires at == pos + |Range(s, pos, had)| && Honest(s, at, op, reply) && !Skips(reply)
    ensures Range(s, pos, had) + Got(reply) == Range(s, pos, had + if reply.Failed? then 0 else Demand(op))
    ensures Moved(reply) == |Got(reply)|
  {
    RangeResume(s, pos, had, Demand(op));
  }

  /**
    The position counts the delivered and the skipped bytes, so the deliveries have no gap
    if and only if no fill skipped anything.
   */
  lemma {:induction false} GapIffSkipped(pos: nat, replies: seq<Reply>)
    ensures PosAfter(pos, replies) == pos + |Delivered(replies)| + Skipped(replies)
    ensures PosAfter(pos, replies) == pos + |Delivered(replies)| <==> NothingSkipped(replies)
  {
    if replies != [] {
      GapIffSkipped(pos, replies[..|replies| - 1]);
    }
  }

  /**
    The replies do not depend on the cache: two runs of the same calls over the same file
    without a hard error reply the same, whatever the buffers and refills were.
   */
  lemma {:induction false} SameReplies(s: seq<byte>, pos: nat, ops: seq<Op>, r1: seq<Reply>, r2: seq<Reply>)
    requires Run(s, pos, ops, r1) && Run(s, pos, ops, r2) && NoFill(ops)
    requires Failures(r1) == Failures(r2) == 0
    ensures r1 == r2
  {
    if ops != [] {
      var n := |ops| - 1;
      SameReplies(s, pos, ops[..n], r1[..n], r2[..n]);
      SameReply(s, PosAfter(pos, r1[..n]), ops[n], r1[n], r2[n]);
      SameSnoc(r1, r2);
    }
  }

  /**
    With fills the replies depend on the capacity, and on nothing else: two caches of the same
    capacity in the same state give the same replies.
   */
  lemma {:induction false} SameWithFills(s: seq<byte>, cap: nat, st: Reading, ops: seq<Op>, r1: seq<Reply>, r2: seq<Reply>)
    requires cap > 0 && Run(s, st.pos, ops, r1) && Run(s, st.pos, ops, r2)
    requires FillsExact(|s|, cap, st, ops, r1) && FillsExact(|s|, cap, st, ops, r2)
    requires Failures(r1) == Failures(r2) == 0
    ensures r1 == r2
  {
    if ops != [] {
      var n := |ops| - 1;
      SameWithFills(s, cap, st, ops[..n], r1[..n], r2[..n]);
      var mid := NextAll(|s|, cap, st, ops[..n], r1[..n]);
      assert FillExact(|s|, cap, mid, r1[n]) && FillExact(|s|, cap, mid, r2[n]);
      if ops[n].Fill? {
        assert r1[n].Filled? && r2[n].Filled?;
      } else {
        SameReply(s, PosAfter(st.pos, r1[..n]), ops[n], r1[n], r2[n]);
      }
      SameSnoc(r1, r2);
    }
  }

  lemma SameSnoc(r1: seq<Reply>, r2: seq<Reply>)
    requires |r1| == |r2| > 0 && r1[..|r1| - 1] == r2[..|r1| - 1] && r1[|r1| - 1] == r2[|r1| - 1]
    ensures r1 == r2
  {
    assert r1 == r1[..|r1| - 1] + [r1[|r1| - 1]];
    assert r2 == r2[..|r1| - 1] + [r2[|r1| - 1]];
  }

  lemma SameReply(s: seq<byte>, pos: nat, op: Op, x: Reply, y: Reply)
    requires Honest(s, pos, op, x) && Honest(s, pos, op, y) && !op.Fill? && !x.Failed? && !y.Failed?
    ensures x == y
  {
  }

  /** Nor on how the reads are split: equal totals deliver equal bytes. */
  lemma SplitIrrelevant(s: seq<byte>, pos: nat, ops1: seq<Op>, r1: seq<Reply>, ops2: seq<Op>, r2: seq<Reply>)
    requires Run(s, pos, ops1, r1) && Run(s, pos, ops2, r2) && NothingSkipped(r1) && NothingSkipped(r2)
    requires Answered(ops1, r1) == Answered(ops2, r2)
    ensures Delivered(r1) == Delivered(r2)
  {
    DeliversRange(s, pos, ops1, r1);
    DeliversRange(s, pos, ops2, r2);
  }

  /** Some call found the end of the file before all it asked for. */
  predicate CutShort(replies: seq<Reply>) {
    replies != [] && (CutShort(replies[..|replies| - 1]) || replies[|replies| - 1].End?)
  }

  /** Without hard errors, a call is cut short exactly when the file cannot meet the whole demand. */
  lemma {:induction false} EndsShort(s: seq<byte>, pos: nat, ops: seq<Op>, replies: seq<Reply>)
    requires Run(s, pos, ops, replies) && NothingSkipped(replies) && Failures(replies) == 0
    ensures CutShort(replies) <==> |Delivered(replies)| < Answered(ops, replies)
    ensures CutShort(replies) <==> pos + Answered(ops, replies) > |s| && Answered(ops, replies) > 0
  {
    DeliversRange(s, pos, ops, replies);
    if ops != [] {
      var n := |ops| - 1;
      EndsShort(s, pos, ops[..n], replies[..n]);
      DeliversRange(s, pos, ops[..n], replies[..n]);
      assert Honest(s, PosAfter(pos, replies[..n]), ops[n], replies[n]);
      assert |Delivered(replies)| == |Delivered(replies[..n])| + Moved(replies[n]);
      assert Moved(replies[n]) <= Demand(ops[n]);
      assert Moved(replies[n]) < Demand(ops[n]) <==> replies[n].End?;
    }
  }
}

/**
  The two buffers at work on adjacent memory: one is read while the other is written, and
  the space that the first no longer uses is lent to the second.
 */
module LifoRuns {
  import opened Bits
  import opened Endian
  import opened Memory
  import opened Lifo

  datatype Op = PushForward(x: Item) | PopForward | PushBackward(x: Item) | PopBackward | Lend

  /** What the caller saw; a push is refused when `can_write` says no */
  datatype Reply = Done | Refused | Popped(x: Item) | Empty

  /** The memory the buffers share and the sizes of their elements */
  datatype Space = Space(total: nat, forwardSize: nat, backwardSize: nat)

  /** What a caller thinks of: two stacks, and where the space of one ends and the other's starts */
  datatype Stacks = Stacks(forward: seq<Item>, backward: seq<Item>, boundary: nat)

  function ForwardUsed(sp: Space, st: Stacks): nat {
    Bytes(|st.forward|, sp.forwardSize)
  }

  function BackwardUsed(sp: Space, st: Stacks): nat {
    Bytes(|st.backward|, sp.backwardSize)
  }

  /** Each stack stays on its side of the boundary. */
  predicate Fitting(sp: Space, st: Stacks) {
    ForwardUsed(sp, st) <= st.boundary && st.boundary + BackwardUsed(sp, st) <= sp.total
  }

  function Top(stack: seq<Item>): Reply {
    if stack == [] then Empty else Popped(stack[|stack| - 1])
  }

  function Pop(stack: seq<Item>): seq<Item> {
    if stack == [] then [] else stack[..|stack| - 1]
  }

  /**
    The one reply that is right: the top of the stack asked, and for a push the space alone
    decides. An element that would reach the boundary is refused by the forward buffer, one
    that would pass it by the backward buffer.
   */
  function Answer(sp: Space, st: Stacks, op: Op): Reply {
    match op
    case PushForward(_) => if ForwardUsed(sp, st) + sp.forwardSize >= st.boundary then Refused else Done
    case PushBackward(_) => if st.boundary + BackwardUsed(sp, st) + sp.backwardSize > sp.total then Refused else Done
    case PopForward => Top(st.forward)
    case PopBackward => Top(st.backward)
    case Lend => Done
  }

  function After(sp: Space, st: Stacks, op: Op): Stacks {
    match op
    case PushForward(x) => if Answer(sp, st, op) == Done then st.(forward := st.forward + [x]) else st
    case PushBackward(x) => if Answer(sp, st, op) == Done then st.(backward := st.backward + [x]) else st
    case PopForward => st.(forward := Pop(st.forward))
    case PopBackward => st.(backward := Pop(st.backward))
    case Lend => if BackwardUsed(sp, st) <= sp.total then st.(boundary := sp.total - BackwardUsed(sp, st)) else st
  }

  /** The stacks after a sequence of calls */
  function AfterAll(sp: Space, st: Stacks, ops: seq<Op>): Stacks {
    if ops == [] then st else After(sp, AfterAll(sp, st, ops[..|ops| - 1]), ops[|ops| - 1])
  }

  /** The replies to a sequence of calls */
  function Answers(sp: Space, st: Stacks, ops: seq<Op>): seq<Reply> {
    if ops == [] then []
    else
      var n := |ops| - 1;
      Answers(sp, st, ops[..n]) + [Answer(sp, AfterAll(sp, st, ops[..n]), ops[n])]
  }

  lemma AnswersExtend(sp: Space, st: Stacks, ops: seq<Op>, i: nat)
    requires i < |ops|
    ensures AfterAll(sp, st, ops[..i + 1]) == After(sp, AfterAll(sp, st, ops[..i]), ops[i])
    ensures Answers(sp, st, ops[..i + 1])
            == Answers(sp, st, ops[..i]) + [Answer(sp, AfterAll(sp, st, ops[..i]), ops[i])]
  {
    assert ops[..i + 1][..i] == ops[..i];
  }

  // ---- the two buffers ----

  /**
    The buffers share one memory, hold whole elements, and the space of one ends where that
    of the other starts.
   */
  ghost predicate Adjacent(f: Forward, b: Backward)
    reads f, b, f.mem, b.mem
  {
    f.Valid() && b.Valid() && f.mem == b.mem && f.end == b.start && f.Whole() && b.Whole()
  }

  ghost function View(f: Forward, b: Backward): Stacks
    requires Adjacent(f, b)
    reads f, b, f.mem, b.mem
  {
    Stacks(f.Items(), b.Items(), f.end - f.start)
  }

  ghost function SpaceOf(f: Forward, b: Backward): Space
    requires Adjacent(f, b)
    reads f, b, f.mem, b.mem
  {
    Space(b.end - f.start, f.size1 + f.size2, b.size1 + b.size2)
  }

  predicate Fits(f: Forward, b: Backward, op: Op) {
    && (op.PushForward? ==> |op.x.first| == f.size1 && |op.x.second| == f.size2)
    && (op.PushBackward? ==> |op.x.first| == b.size1 && |op.x.second| == b.size2)
  }

  /** One call gives the one right reply and the stacks that go with it. */
  method Call(f: Forward, b: Backward, op: Op) returns (reply: Reply)
    requires Adjacent(f, b) && Fits(f, b, op)
    modifies f`pos, f`end, b`pos, b`start, f.mem
    ensures Adjacent(f, b) && SpaceOf(f, b) == old(SpaceOf(f, b))
    ensures reply == Answer(SpaceOf(f, b), old(View(f, b)), op)
    ensures View(f, b) == After(SpaceOf(f, b), old(View(f, b)), op)
  {
    match op {
      case PushForward(x) => reply := PushF(f, b, x);
      case PushBackward(x) => reply := PushB(f, b, x);
      case PopForward => reply := PopF(f, b);
      case PopBackward => reply := PopB(f, b);
      case Lend =>
        var unusedStart, unusedEnd := b.RemoveUnusedSpace();
        f.Grow(unusedStart, unusedEnd);
        reply := Done;
    }
  }

  method PushF(f: Forward, b: Backward, x: Item) returns (reply: Reply)
    requires Adjacent(f, b) && |x.first| == f.size1 && |x.second| == f.size2
    modifies f`pos, f.mem
    ensures Adjacent(f, b) && SpaceOf(f, b) == old(SpaceOf(f, b))
    ensures reply == Answer(SpaceOf(f, b), old(View(f, b)), PushForward(x))
    ensures View(f, b) == After(SpaceOf(f, b), old(View(f, b)), PushForward(x))
  {
    if !f.HaveSpaceFor(f.size1 + f.size2) {
      return Refused;
    }
    SpliceElsewhere(f.mem[..], f.pos, x.first + x.second, b.pos, b.end);
    f.Write(x);
    return Done;
  }

  method PushB(f: Forward, b: Backward, x: Item) returns (reply: Reply)
    requires Adjacent(f, b) && |x.first| == b.size1 && |x.second| == b.size2
    modifies b`pos, b.mem
    ensures Adjacent(f, b) && SpaceOf(f, b) == old(SpaceOf(f, b))
    ensures reply == Answer(SpaceOf(f, b), old(View(f, b)), PushBackward(x))
    ensures View(f, b) == After(SpaceOf(f, b), old(View(f, b)), PushBackward(x))
  {
    if !b.HaveSpaceFor(b.size1 + b.size2) {
      return Refused;
    }
    SpliceElsewhere(b.mem[..], b.pos - (b.size1 + b.size2), x.first + x.second, f.start, f.pos);
    b.Write(x, true);
    return Done;
  }

  method PopF(f: Forward, b: Backward) returns (reply: Reply)
    requires Adjacent(f, b)
    modifies f`pos
    ensures Adjacent(f, b) && SpaceOf(f, b) == old(SpaceOf(f, b))
    ensures reply == Answer(SpaceOf(f, b), old(View(f, b)), PopForward)
    ensures View(f, b) == After(SpaceOf(f, b), old(View(f, b)), PopForward)
  {
    var eof, ptr1, ptr2 := f.Read();
    reply := if eof then Empty else Popped(Item(f.mem[..][ptr1..ptr1 + f.size1], f.mem[..][ptr2..ptr2 + f.size2]));
  }

  method PopB(f: Forward, b: Backward) returns (reply: Reply)
    requires Adjacent(f, b)
    modifies b`pos
    ensures Adjacent(f, b) && SpaceOf(f, b) == old(SpaceOf(f, b))
    ensures reply == Answer(SpaceOf(f, b), old(View(f, b)), PopBackward)
    ensures View(f, b) == After(SpaceOf(f, b), old(View(f, b)), PopBackward)
  {
    var eof, ptr1, ptr2 := b.Read();
    reply := if eof then Empty else Popped(Item(b.mem[..][ptr1..ptr1 + b.size1], b.mem[..][ptr2..ptr2 + b.size2]));
  }

  /**
    Any sequence of pushes, pops and loans on any two adjacent buffers: the replies and the
    stacks are those of two separate stacks that share a space, and nothing is left open.
   */
  method RunPair(f: Forward, b: Backward, ops: seq<Op>) returns (replies: seq<Reply>)
    requires Adjacent(f, b) && forall i :: 0 <= i < |ops| ==> Fits(f, b, ops[i])
    modifies f`pos, f`end, b`pos, b`start, f.mem
    ensures Adjacent(f, b) && SpaceOf(f, b) == old(SpaceOf(f, b))
    ensures replies == Answers(SpaceOf(f, b), old(View(f, b)), ops)
    ensures View(f, b) == AfterAll(SpaceOf(f, b), old(View(f, b)), ops)
  {
    ghost var sp, st := SpaceOf(f, b), View(f, b);
    replies := [];
    var i := 0;
    while i < |ops|
      invariant 0 <= i <= |ops|
      invariant Adjacent(f, b) && SpaceOf(f, b) == sp
      invariant replies == Answers(sp, st, ops[..i]) && View(f, b) == AfterAll(sp, st, ops[..i])
    {
      var reply := Call(f, b, ops[i]);
      AnswersExtend(sp, st, ops, i);
      replies := replies + [reply];
      i := i + 1;
    }
    assert ops[..i] == ops;
  }

  // ---- what the replies mean ----

  /** No call takes a stack over the boundary. */
  lemma {:induction false} StaysFitting(sp: Space, st: Stacks, ops: seq<Op>)
    requires Fitting(sp, st)
    ensures Fitting(sp, AfterAll(sp, st, ops))
  {
    if ops != [] {
      StaysFitting(sp, st, ops[..|ops| - 1]);
    }
  }

  /** Pushes of the given elements, one after another */
  function Pushes(xs: seq<Item>, forward: bool): seq<Op> {
    seq(|xs|, i requires 0 <= i < |xs| => if forward then PushForward(xs[i]) else PushBackward(xs[i]))
  }

  /** How many elements the forward buffer's space takes: the last byte of it is never used */
  function ForwardCapacity(sp: Space, st: Stacks): nat
    requires sp.forwardSize > 0
  {
    if st.boundary == 0 then 0 else (st.boundary - 1) / sp.forwardSize
  }

  /** How many elements the backward buffer's space takes */
  function BackwardCapacity(sp: Space, st: Stacks): nat
    requires sp.backwardSize > 0 && st.boundary <= sp.total
  {
    (sp.total - st.boundary) / sp.backwardSize
  }

  /** Pushing onto an empty forward stack keeps exactly the first elements, up to the capacity. */
  lemma {:induction false} ForwardHolds(sp: Space, st: Stacks, xs: seq<Item>)
    requires sp.forwardSize > 0 && st.forward == []
    ensures AfterAll(sp, st, Pushes(xs, true)) == st.(forward := xs[..Min(|xs|, ForwardCapacity(sp, st))])
  {
    if xs != [] {
      var n, cap := |xs| - 1, ForwardCapacity(sp, st);
      ForwardHolds(sp, st, xs[..n]);
      assert Pushes(xs, true)[..n] == Pushes(xs[..n], true);
      FitsStrictly(st.boundary, sp.forwardSize, Min(n, cap));
      assert n < cap ==> xs[..n] + [xs[n]] == xs;
    }
  }

  lemma FitsStrictly(space: nat, size: nat, k: nat)
    requires size > 0
    ensures var cap := if space == 0 then 0 else (space - 1) / size;
            Bytes(k, size) + size < space <==> k < cap
  {
    BytesIsMul(k, size);
    MulSucc(k, size);
    if space > 0 {
      AtMost(space - 1, size, k + 1);
    }
  }

  /** `k` elements fit if and only if `k` is at most the quotient. */
  lemma AtMost(space: nat, size: nat, k: nat)
    requires size > 0
    ensures k * size <= space <==> k <= space / size
  {
    var q, r := DivMod(space, size);
    if k <= q {
      MulMonotone(k, q, size);
    } else {
      MulMonotone(q + 1, k, size);
      MulSucc(q, size);
    }
  }

  /** Pushing onto an empty backward stack keeps exactly the first elements, up to the capacity. */
  lemma {:induction false} BackwardHolds(sp: Space, st: Stacks, xs: seq<Item>)
    requires sp.backwardSize > 0 && st.backward == [] && st.boundary <= sp.total
    ensures AfterAll(sp, st, Pushes(xs, false)) == st.(backward := xs[..Min(|xs|, BackwardCapacity(sp, st))])
  {
    if xs != [] {
      var n, cap := |xs| - 1, BackwardCapacity(sp, st);
      BackwardHolds(sp, st, xs[..n]);
      assert Pushes(xs, false)[..n] == Pushes(xs[..n], false);
      var k := Min(n, cap);
      BytesIsMul(k, sp.backwardSize);
      MulSucc(k, sp.backwardSize);
      AtMost(sp.total - st.boundary, sp.backwardSize, k + 1);
      assert n < cap ==> xs[..n] + [xs[n]] == xs;
    }
  }

  /**
    The strict comparison costs the forward buffer an element exactly when its space is a
    whole number of elements; then it holds one less than the backward buffer would.
   */
  lemma StrictComparisonCost(space: nat, size: nat)
    requires size > 0 && space > 0
    ensures (space - 1) / size == space / size - (if space % size == 0 then 1 else 0)
  {
    var q, r := DivMod(space, size);
    if r == 0 {
      MulSucc(q - 1, size);
      QuotientUnique(space - 1, size, q - 1, size - 1);
    } else {
      QuotientUnique(space - 1, size, q, r - 1);
    }
  }

  /**
    A loan gives the forward buffer everything the backward stack does not use: the boundary
    moves down to the backward elements, which stay, and an empty forward stack then takes as
    many elements as that space allows.
   */
  lemma LoanGivesAll(sp: Space, st: Stacks, xs: seq<Item>)
    requires Fitting(sp, st) && sp.forwardSize > 0
    ensures var lent := After(sp, st, Lend);
            && lent.forward == st.forward && lent.backward == st.backward
            && st.boundary <= lent.boundary && lent.boundary + |st.backward| * sp.backwardSize == sp.total
    ensures st.forward == [] && sp.total > |st.backward| * sp.backwardSize ==>
              AfterAll(sp, After(sp, st, Lend), Pushes(xs, true)).forward
              == xs[..Min(|xs|, (sp.total - |st.backward| * sp.backwardSize - 1) / sp.forwardSize)]
  {
    BytesIsMul(|st.backward|, sp.backwardSize);
    if st.forward == [] {
      ForwardHolds(sp, After(sp, st, Lend), xs);
    }
  }

  /** Last in, first out: a push that is not refused is undone by the next pop, which returns the element. */
  lemma PopUndoesPush(sp: Space, st: Stacks, x: Item)
    ensures ForwardUsed(sp, st) + sp.forwardSize < st.boundary ==>
              var pushed := After(sp, st, PushForward(x));
              Answer(sp, pushed, PopForward) == Popped(x) && After(sp, pushed, PopForward) == st
    ensures st.boundary + BackwardUsed(sp, st) + sp.backwardSize <= sp.total ==>
              var pushed := After(sp, st, PushBackward(x));
              Answer(sp, pushed, PopBackward) == Popped(x) && After(sp, pushed, PopBackward) == st
  {
    assert (st.forward + [x])[..|st.forward|] == st.forward;
    assert (st.backward + [x])[..|st.backward|] == st.backward;
  }

  /** The element a call put on a stack */
  function In(op: Op, reply: Reply): multiset<Item> {
    if (op.PushForward? || op.PushBackward?) && reply == Done then multiset{op.x} else multiset{}
  }

  /** The element a call took off a stack */
  function Out(reply: Reply): multiset<Item> {
    if reply.Popped? then multiset{reply.x} else multiset{}
  }

  function AllIn(ops: seq<Op>, replies: seq<Reply>): multiset<Item>
    requires |ops| == |replies|
  {
    if ops == [] then multiset{} else AllIn(ops[..|ops| - 1], replies[..|ops| - 1]) + In(ops[|ops| - 1], replies[|ops| - 1])
  }

  function AllOut(replies: seq<Reply>): multiset<Item> {
    if replies == [] then multiset{} else AllOut(replies[..|replies| - 1]) + Out(replies[|replies| - 1])
  }

  function Held(st: Stacks): multiset<Item> {
    multiset(st.forward) + multiset(st.backward)
  }

  /** Nothing is lost or invented: what was there and was pushed is what was taken and is there. */
  lemma {:induction false} Conservation(sp: Space, st: Stacks, ops: seq<Op>)
    ensures |Answers(sp, st, ops)| == |ops|
    ensures Held(st) + AllIn(ops, Answers(sp, st, ops)) == AllOut(Answers(sp, st, ops)) + Held(AfterAll(sp, st, ops))
  {
    if ops != [] {
      var n := |ops| - 1;
      var front, mid := Answers(sp, st, ops[..n]), AfterAll(sp, st, ops[..n]);
      var reply := Answer(sp, mid, ops[n]);
      Conservation(sp, st, ops[..n]);
      ConservationStep(sp, mid, ops[n]);
      assert Answers(sp, st, ops) == front + [reply] && (front + [reply])[..n] == front;
      Balance(Held(st), AllIn(ops[..n], front), AllOut(front), Held(mid),
              In(ops[n], reply), Out(reply), Held(After(sp, mid, ops[n])));
    }
  }

  lemma Balance(a: multiset<Item>, p: multiset<Item>, t: multiset<Item>, h: multiset<Item>,
                x: multiset<Item>, y: multiset<Item>, h': multiset<Item>)
    requires a + p == t + h && h + x == y + h'
    ensures a + (p + x) == (t + y) + h'
  {
    assert a + (p + x) == (t + h) + x;
    assert (t + h) + x == t + (y + h');
  }

  lemma ConservationStep(sp: Space, st: Stacks, op: Op)
    ensures Held(st) + In(op, Answer(sp, st, op)) == Out(Answer(sp, st, op)) + Held(After(sp, st, op))
  {
    match op {
      case PushForward(_) => PushStep(sp, st, op);
      case PushBackward(_) => PushStep(sp, st, op);
      case PopForward => PopStep(sp, st, op);
      case PopBackward => PopStep(sp, st, op);
      case Lend =>
    }
  }

  lemma PushStep(sp: Space, st: Stacks, op: Op)
    requires op.PushForward? || op.PushBackward?
    ensures Held(st) + In(op, Answer(sp, st, op)) == Out(Answer(sp, st, op)) + Held(After(sp, st, op))
  {
    if op.PushForward? {
      PushCase(st.forward, st.backward, op.x);
    } else {
      PushCase(st.backward, st.forward, op.x);
    }
  }

  lemma PopStep(sp: Space, st: Stacks, op: Op)
    requires op.PopForward? || op.PopBackward?
    ensures Held(st) + In(op, Answer(sp, st, op)) == Out(Answer(sp, st, op)) + Held(After(sp, st, op))
  {
    assert In(op, Answer(sp, st, op)) == multiset{};
    if op.PopForward? && st.forward != [] {
      PopCase(st.forward, st.backward);
      assert Out(Answer(sp, st, op)) == multiset{st.forward[|st.forward| - 1]};
    } else if op.PopBackward? && st.backward != [] {
      PopCase(st.backward, st.forward);
      assert Out(Answer(sp, st, op)) == multiset{st.backward[|st.backward| - 1]};
    } else {
      assert Out(Answer(sp, st, op)) == multiset{} && After(sp, st, op) == st;
    }
  }

  lemma PushCase(stack: seq<Item>, other: seq<Item>, x: Item)
    ensures multiset(stack) + multiset(other) + multiset{x} == multiset(stack + [x]) + multiset(other)
    ensures multiset(other) + multiset(stack) + multiset{x} == multiset(other) + multiset(stack + [x])
  {
  }

  lemma PopCase(stack: seq<Item>, other: seq<Item>)
    requires stack != []
    ensures multiset(stack) + multiset(other) == multiset{stack[|stack| - 1]} + (multiset(Pop(stack)) + multiset(other))
    ensures multiset(other) + multiset(stack) == multiset{stack[|stack| - 1]} + (multiset(other) + multiset(Pop(stack)))
  {
    assert stack == Pop(stack) + [stack[|stack| - 1]];
  }

  // ---- Lifo_buffer_iterator ----

  /** The elements of a stack in the order they would be read, newest first */
  function NewestFirst(stack: seq<Item>): seq<Item> {
    if stack == [] then [] else [stack[|stack| - 1]] + NewestFirst(stack[..|stack| - 1])
  }

  lemma NewestFirstPush(seen: seq<Item>, stack: seq<Item>, x: Item)
    ensures seen + NewestFirst(stack + [x]) == seen + [x] + NewestFirst(stack)
  {
    assert (stack + [x])[..|stack|] == stack;
  }

  /** The iterator over a forward buffer sees every element in reading order and takes none. */
  method WalkForward(f: Forward) returns (seen: seq<Item>)
    requires f.Valid()
    ensures seen == NewestFirst(f.Items())
  {
    ghost var m, all, left := f.mem[..], f.Items(), f.Items();
    var position, eof := f.pos, false;
    seen := [];
    while !eof
      invariant f.start <= position <= f.pos && left == Stacked(m[f.start..position], f.size1, f.size2)
      invariant seen + NewestFirst(left) == NewestFirst(all)
      invariant eof ==> left == []
      decreases !eof, position
    {
      var x;
      eof, position, x, left := NextForward(f, position, left);
      if !eof {
        NewestFirstPush(seen, left, x);
        seen := seen + [x];
      }
    }
  }

  /** The iterator's `read` on a forward buffer */
  method NextForward(f: Forward, position: nat, ghost left: seq<Item>)
    returns (eof: bool, below: nat, x: Item, ghost rest: seq<Item>)
    requires f.Valid() && f.start <= position <= f.pos
    requires left == Stacked(f.mem[..][f.start..position], f.size1, f.size2)
    ensures f.start <= below <= f.pos && rest == Stacked(f.mem[..][f.start..below], f.size1, f.size2)
    ensures eof ==> left == rest == []
    ensures !eof ==> below < position && left == rest + [x]
  {
    var ptr1, ptr2;
    eof, below, ptr1, ptr2 := f.ReadAt(position);
    ghost var m := f.mem[..];
    rest := Stacked(m[f.start..below], f.size1, f.size2);
    if eof {
      StackedNone(m[f.start..position], f.size1, f.size2);
      x := Item([], []);
    } else {
      StackedAt(m, f.start, position, ptr1, ptr2, f.size1, f.size2);
      x := Item(f.mem[..][ptr1..ptr1 + f.size1], f.mem[..][ptr2..ptr2 + f.size2]);
    }
  }

  /** The same over a backward buffer */
  method WalkBackward(b: Backward) returns (seen: seq<Item>)
    requires b.Valid()
    ensures seen == NewestFirst(b.Items())
  {
    ghost var m, all, left := b.mem[..], b.Items(), b.Items();
    var position, eof := b.pos, false;
    seen := [];
    while !eof
      invariant b.pos <= position <= b.end && left == Hanging(m[position..b.end], b.size1, b.size2)
      invariant seen + NewestFirst(left) == NewestFirst(all)
      invariant eof ==> left == []
      decreases !eof, b.end - position
    {
      var x;
      eof, position, x, left := NextBackward(b, position, left);
      if !eof {
        NewestFirstPush(seen, left, x);
        seen := seen + [x];
      }
    }
  }

  /** The iterator's `read` on a backward buffer */
  method NextBackward(b: Backward, position: nat, ghost left: seq<Item>)
    returns (eof: bool, above: nat, x: Item, ghost rest: seq<Item>)
    requires b.Valid() && b.pos <= position <= b.end
    requires left == Hanging(b.mem[..][position..b.end], b.size1, b.size2)
    ensures b.pos <= above <= b.end && rest == Hanging(b.mem[..][above..b.end], b.size1, b.size2)
    ensures eof ==> left == rest == []
    ensures !eof ==> position < above && left == rest + [x]
  {
    var ptr1, ptr2;
    eof, above, ptr1, ptr2 := b.ReadAt(position);
    ghost var m := b.mem[..];
    rest := Hanging(m[above..b.end], b.size1, b.size2);
    if eof {
      x := Item([], []);
    } else {
      HangingAt(m, position, b.end, above, ptr2, b.size1, b.size2);
      x := Item(b.mem[..][ptr1..ptr1 + b.size1], b.mem[..][ptr2..ptr2 + b.size2]);
    }
  }
}

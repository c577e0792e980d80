/**
 * Many senders, one reader, one shared-memory queue (src/utils/shm.cpp).
 *
 * A sender numbers its message and tries to put it in while it holds the mutex.
 * If the queue is full it either gives up or waits on the condition variable,
 * which releases the mutex, and tries again later with the number it has.
 */
module ShmSenders {
  import opened Bytes
  import opened Permutations
  import opened ShmQueue

  datatype Queue = Queue(
    queue: seq<Message>,
    capacity: nat,
    counter: nat,              // messages numbered so far, plus the segment's initial number
    blocked: seq<Message>,     // numbered, waiting for room
    accepted: seq<Message>,    // ever put in, in order
    delivered: seq<Message>)   // ever taken out, in order

  datatype Act =
    | Send(m: Message, blocking: bool)
    | Retry(i: nat)
    | Receive(kind: U32, nr: Option<U64>)

  predicate Fits(q: Queue, m: Message) {
    TotalLength(q.queue) + PaddedLength(m) <= q.capacity
  }

  function Put(q: Queue, m: Message): Queue {
    q.(queue := q.queue + [m], accepted := q.accepted + [m])
  }

  function Numbered(q: Queue, m: Message): Message {
    if m.kind == REPLY then m else m.(nr := (q.counter + 1) % MOD64)
  }

  function Step(q: Queue, act: Act): Queue {
    match act
    case Send(m, blocking) =>
      var n := Numbered(q, m);
      var r := if m.kind == REPLY then q else q.(counter := q.counter + 1);
      if Fits(r, n) then Put(r, n)
      else if blocking then r.(blocked := r.blocked + [n])
      else r
    case Retry(i) =>
      if i < |q.blocked| && Fits(q, q.blocked[i])
      then Put(q, q.blocked[i]).(blocked := Without(q.blocked, i))
      else q
    case Receive(kind, nr) =>
      var t := TakeFirst(q.queue, kind, nr);
      if t.m.None? then q else q.(queue := t.rest, delivered := q.delivered + [t.m.value])
  }

  function Run(q: Queue, acts: seq<Act>): Queue {
    if acts == [] then q else Step(Run(q, acts[..|acts| - 1]), acts[|acts| - 1])
  }

  // ----- the steps on the segment ------------------------------------------

  datatype Sending = Accepted | Waiting(m: Message) | Dropped

  /** The critical section of send_message, up to its first wait. */
  method SendMessage(shm: SharedMemory, m: Message, blocking: bool) returns (r: Sending)
    requires shm.Valid() && ValidMessage(m)
    modifies shm, shm.data
    ensures shm.Valid()
    ensures var before := Queue(old(shm.Contents()), shm.data.Length, old(shm.mostRecentNr), [], [], []);
            var after := Step(before, Send(m, blocking));
            && shm.Contents() == after.queue && shm.mostRecentNr == after.counter % MOD64
            && (r.Accepted? <==> after.accepted != [])
            && after.blocked == if r.Waiting? then [r.m] else []
  {
    hide PaddedLength, TotalLength, WellFormed, Messages, ValidMessage;
    var numbered := shm.Number(m);
    assert ValidMessage(numbered) by { StillValid(m, numbered); }
    var ok := shm.TryPut(numbered);
    r := if ok then Accepted else if blocking then Waiting(numbered) else Dropped;
  }

  lemma StillValid(m: Message, n: Message)
    requires ValidMessage(m) && n == m.(nr := n.nr)
    ensures ValidMessage(n)
  {
  }

  // ----- the invariant -----------------------------------------------------

  predicate DistinctNumbers(ms: seq<Message>) {
    forall i, j :: 0 <= i < j < |ms| && ms[i].kind != REPLY && ms[j].kind != REPLY ==> ms[i].nr != ms[j].nr
  }

  predicate NumbersApart(a: seq<Message>, b: seq<Message>) {
    forall x, y :: x in a && y in b && x.kind != REPLY && y.kind != REPLY ==> x.nr != y.nr
  }

  predicate NumbersUpTo(ms: seq<Message>, n: nat) {
    forall m :: m in ms && m.kind != REPLY ==> m.nr <= n
  }

  ghost predicate Inv(q: Queue) {
    && multiset(q.accepted) == multiset(q.delivered) + multiset(q.queue)
    && TotalLength(q.queue) <= q.capacity
    && DistinctNumbers(q.accepted) && DistinctNumbers(q.blocked) && NumbersApart(q.accepted, q.blocked)
    && NumbersUpTo(q.accepted, q.counter) && NumbersUpTo(q.blocked, q.counter)
  }

  predicate Empty(q: Queue) {
    q.queue == q.blocked == q.accepted == q.delivered == []
  }

  lemma {:induction false} TotalConcat(a: seq<Message>, b: seq<Message>)
    ensures TotalLength(a + b) == TotalLength(a) + TotalLength(b)
  {
    hide PaddedLength;
    if a == [] {
      assert a + b == b;
    } else {
      assert (a + b)[1..] == a[1..] + b;
      TotalConcat(a[1..], b);
    }
  }

  lemma TotalSnoc(ms: seq<Message>, m: Message)
    ensures TotalLength(ms + [m]) == TotalLength(ms) + PaddedLength(m)
  {
    hide PaddedLength;
    TotalConcat(ms, [m]);
    assert [m][1..] == [];
  }

  lemma TakenBalance(ms: seq<Message>, kind: U32, nr: Option<U64>)
    ensures var t := TakeFirst(ms, kind, nr);
            t.m.Some? ==> multiset(ms) == multiset(t.rest) + multiset{t.m.value}
                          && TotalLength(t.rest) <= TotalLength(ms)
  {
    hide PaddedLength, Matches, TakeFirst, TotalLength;
    TakesFirstMatch(ms, kind, nr);
    var t := TakeFirst(ms, kind, nr);
    if t.m.Some? {
      var i: nat :| FirstAt(ms, kind, nr, t, i);
      WithoutMultiset(ms, i);
      assert t.rest == Without(ms, i);
      TotalWithout(ms, i);
    }
  }

  lemma TotalWithout(ms: seq<Message>, i: nat)
    requires i < |ms|
    ensures TotalLength(Without(ms, i)) <= TotalLength(ms)
  {
    hide PaddedLength;
    var tail := [ms[i]] + ms[i + 1..];
    TotalConcat(ms[..i], ms[i + 1..]);
    TotalConcat(ms[..i], tail);
    assert ms == ms[..i] + tail && tail[1..] == ms[i + 1..];
  }

  /** Putting in a message whose number nobody else has. */
  lemma PutKeepsInv(q: Queue, m: Message)
    requires Inv(q) && Fits(q, m) && NumbersUpTo([m], q.counter)
    requires NumbersApart(q.accepted, [m]) && NumbersApart([m], q.blocked)
    ensures Inv(Put(q, m))
  {
    hide PaddedLength;
    var r := Put(q, m);
    TotalSnoc(q.queue, m);
    assert m in [m];
    forall x, y | x in r.accepted && y in r.blocked && x.kind != REPLY && y.kind != REPLY
      ensures x.nr != y.nr
    {
      assert x in q.accepted || x in [m];
    }
    forall i, j | 0 <= i < j < |r.accepted| && r.accepted[i].kind != REPLY && r.accepted[j].kind != REPLY
      ensures r.accepted[i].nr != r.accepted[j].nr
    {
      if j == |q.accepted| {
        assert r.accepted[i] in q.accepted;
      }
    }
  }

  /** A message with a number nobody else has starts waiting. */
  lemma WaitKeepsInv(q: Queue, m: Message)
    requires Inv(q) && NumbersUpTo([m], q.counter)
    requires NumbersApart(q.accepted, [m]) && NumbersApart([m], q.blocked)
    ensures Inv(q.(blocked := q.blocked + [m]))
  {
  }

  /** The number just issued is higher than all others. */
  lemma FreshNumber(q: Queue, m: Message)
    requires Inv(q) && (m.kind == REPLY || q.counter + 1 < MOD64)
    ensures var n := Numbered(q, m);
            var r := if m.kind == REPLY then q else q.(counter := q.counter + 1);
            Inv(r) && NumbersUpTo([n], r.counter) && NumbersApart(r.accepted, [n]) && NumbersApart([n], r.blocked)
  {
  }

  lemma SendKeepsInv(q: Queue, m: Message, blocking: bool)
    requires Inv(q) && (m.kind == REPLY || q.counter + 1 < MOD64)
    ensures Inv(Step(q, Send(m, blocking)))
  {
    FreshNumber(q, m);
    hide PaddedLength, TotalLength, Inv, NumbersUpTo, NumbersApart;
    var n := Numbered(q, m);
    var r := if m.kind == REPLY then q else q.(counter := q.counter + 1);
    if Fits(r, n) {
      PutKeepsInv(r, n);
    } else if blocking {
      WaitKeepsInv(r, n);
    }
  }

  lemma RetryKeepsInv(q: Queue, i: nat)
    requires Inv(q)
    ensures Inv(Step(q, Retry(i)))
  {
    hide PaddedLength, TotalLength;
    if i < |q.blocked| && Fits(q, q.blocked[i]) {
      var m := q.blocked[i];
      var rest := Without(q.blocked, i);
      forall y | y in rest
        ensures y in q.blocked && (y.kind != REPLY && m.kind != REPLY ==> y.nr != m.nr)
      {
        var k :| 0 <= k < |rest| && rest[k] == y;
        assert y == q.blocked[if k < i then k else k + 1];
      }
      assert forall k :: 0 <= k < |rest| ==> rest[k] == q.blocked[if k < i then k else k + 1];
      var p := q.(blocked := rest);
      assert Inv(p);
      PutKeepsInv(p, m);
    }
  }

  lemma ReceiveKeepsInv(q: Queue, kind: U32, nr: Option<U64>)
    requires Inv(q)
    ensures Inv(Step(q, Receive(kind, nr)))
  {
    hide TakeFirst, TotalLength;
    TakenBalance(q.queue, kind, nr);
  }

  lemma {:induction false} CounterGrows(q: Queue, acts: seq<Act>)
    ensures acts != [] ==> Run(q, acts[..|acts| - 1]).counter <= Run(q, acts).counter
    ensures Run(q, acts).capacity == q.capacity
  {
    hide TakeFirst, TotalLength, PaddedLength;
    if acts != [] {
      CounterGrows(q, acts[..|acts| - 1]);
    }
  }

  /**
   * Conservation and numbering. In every interleaving of senders, retries and
   * readers, as long as the 64-bit counter has not come round: what was accepted
   * is what was delivered plus what is still queued, the queue fits its segment,
   * and all messages except replies, waiting ones included, have distinct numbers.
   */
  lemma {:induction false} QueueAlways(q: Queue, acts: seq<Act>)
    requires Empty(q) && Run(q, acts).counter < MOD64
    ensures Inv(Run(q, acts))
    decreases |acts|
  {
    if acts != [] {
      hide Inv, Step;
      var n := |acts| - 1;
      CounterGrows(q, acts);
      QueueAlways(q, acts[..n]);
      StepKeepsInv(Run(q, acts[..n]), acts[n]);
    }
  }

  lemma StepKeepsInv(q: Queue, act: Act)
    requires Inv(q) && Step(q, act).counter < MOD64
    ensures Inv(Step(q, act))
  {
    match act
    case Send(m, blocking) =>
      SendKeepsInv(q, m, blocking);
    case Retry(i) => RetryKeepsInv(q, i);
    case Receive(kind, nr) => ReceiveKeepsInv(q, kind, nr);
  }

  /**
   * What becomes of a message: a new one is put in if it fits, otherwise it waits
   * or is dropped as its sender chose; one that waits stays until it fits.
   */
  lemma Fates(q: Queue, m: Message, blocking: bool, i: nat)
    ensures var r := Step(q, Send(m, blocking));
            var n := if m.kind == 2 then m else m.(nr := (q.counter + 1) % MOD64);
            var fits := TotalLength(q.queue) + PaddedLength(n) <= q.capacity;
            && r.queue == q.queue + (if fits then [n] else []) && r.accepted == q.accepted + (if fits then [n] else [])
            && r.blocked == q.blocked + (if !fits && blocking then [n] else [])
            && r.counter == q.counter + (if m.kind == 2 then 0 else 1)
    ensures var r := Step(q, Retry(i));
            if i < |q.blocked| && TotalLength(q.queue) + PaddedLength(q.blocked[i]) <= q.capacity
            then r.queue == q.queue + [q.blocked[i]] && r.blocked == q.blocked[..i] + q.blocked[i + 1..]
            else r == q
  {
    hide TotalLength, PaddedLength;
  }

  // ----- order -------------------------------------------------------------

  predicate Increasing(ms: seq<Message>) {
    forall i, j :: 0 <= i < j < |ms| && ms[i].kind != REPLY && ms[j].kind != REPLY ==> ms[i].nr < ms[j].nr
  }

  /** A sender that waited gets in behind a message with a higher number. */
  predicate Overtaken(q: Queue, act: Act) {
    && act.Retry? && act.i < |q.blocked| && Fits(q, q.blocked[act.i]) && q.blocked[act.i].kind != REPLY
    && exists m :: m in q.queue && m.kind != REPLY && m.nr >= q.blocked[act.i].nr
  }

  lemma IncreasingSnoc(ms: seq<Message>, m: Message)
    requires Increasing(ms)
    ensures Increasing(ms + [m]) <==> (m.kind != REPLY ==> forall x :: x in ms && x.kind != REPLY ==> x.nr < m.nr)
  {
    var r := ms + [m];
    if Increasing(r) && m.kind != REPLY {
      forall x | x in ms && x.kind != REPLY
        ensures x.nr < m.nr
      {
        var i :| 0 <= i < |ms| && ms[i] == x;
        assert r[i] == x && r[|ms|] == m;
      }
    }
  }

  /** A step keeps the queue in the order of the numbers if and only if it is not an overtaken retry. */
  lemma KeepsOrderIff(q: Queue, act: Act)
    requires Increasing(q.queue) && NumbersUpTo(q.queue, q.counter) && Step(q, act).counter < MOD64
    ensures Increasing(Step(q, act).queue) <==> !Overtaken(q, act)
  {
    hide TakeFirst, TotalLength, PaddedLength, Increasing;
    match act
    case Send(m, blocking) =>
      IncreasingSnoc(q.queue, Numbered(q, m));
    case Retry(i) =>
      if i < |q.blocked| {
        IncreasingSnoc(q.queue, q.blocked[i]);
      }
    case Receive(kind, nr) =>
      TakenIncreasing(q.queue, kind, nr);
  }

  /** The queue is in order at every moment of the run. */
  ghost predicate AlwaysOrdered(q: Queue, acts: seq<Act>) {
    forall k :: 0 <= k <= |acts| ==> Increasing(Run(q, acts[..k]).queue)
  }

  ghost predicate NeverOvertaken(q: Queue, acts: seq<Act>) {
    forall k :: 0 <= k < |acts| ==> !Overtaken(Run(q, acts[..k]), acts[k])
  }

  lemma {:induction false} CounterBefore(q: Queue, acts: seq<Act>, k: nat)
    requires k <= |acts|
    ensures Run(q, acts[..k]).counter <= Run(q, acts).counter
  {
    hide Step;
    if k == |acts| {
      assert acts[..k] == acts;
    } else {
      var n := |acts| - 1;
      assert acts[..n][..k] == acts[..k];
      CounterBefore(q, acts[..n], k);
      CounterGrows(q, acts);
    }
  }

  lemma QueuedUpTo(q: Queue)
    requires Inv(q)
    ensures NumbersUpTo(q.queue, q.counter)
  {
    forall m | m in q.queue && m.kind != REPLY
      ensures m.nr <= q.counter
    {
      assert m in multiset(q.accepted);
    }
  }

  /** Action k of a run: the queue stays in order exactly if it is not an overtaken retry. */
  lemma RunKeepsOrderIff(q: Queue, acts: seq<Act>, k: nat)
    requires Empty(q) && Run(q, acts).counter < MOD64 && k < |acts| && Increasing(Run(q, acts[..k]).queue)
    ensures Increasing(Run(q, acts[..k + 1]).queue) <==> !Overtaken(Run(q, acts[..k]), acts[k])
  {
    hide Run, Step, Inv, Increasing, Overtaken, NumbersUpTo;
    var front := acts[..k + 1];
    assert front[..k] == acts[..k] && front[k] == acts[k];
    RunSnoc(q, front);
    CounterBefore(q, acts, k);
    CounterBefore(q, acts, k + 1);
    QueueAlways(q, acts[..k]);
    QueuedUpTo(Run(q, acts[..k]));
    KeepsOrderIff(Run(q, acts[..k]), acts[k]);
  }

  lemma {:induction false} OrderedUpTo(q: Queue, acts: seq<Act>, k: nat)
    requires Empty(q) && Run(q, acts).counter < MOD64 && k <= |acts|
    requires forall j :: 0 <= j < k ==> !Overtaken(Run(q, acts[..j]), acts[j])
    ensures Increasing(Run(q, acts[..k]).queue)
  {
    if k == 0 {
      assert acts[..0] == [];
    } else {
      hide Run, Step, Increasing, Overtaken;
      OrderedUpTo(q, acts, k - 1);
      RunKeepsOrderIff(q, acts, k - 1);
    }
  }

  /**
   * Order theorem. In every interleaving the queue is in the order of the numbers
   * at every moment if and only if no sender that waited was overtaken.
   */
  lemma OrderedIffNeverOvertaken(q: Queue, acts: seq<Act>)
    requires Empty(q) && Run(q, acts).counter < MOD64
    ensures AlwaysOrdered(q, acts) <==> NeverOvertaken(q, acts)
  {
    hide Run, Step, Increasing, Overtaken, Empty;
    if NeverOvertaken(q, acts) {
      forall k | 0 <= k <= |acts|
        ensures Increasing(Run(q, acts[..k]).queue)
      {
        OrderedUpTo(q, acts, k);
      }
    }
    if AlwaysOrdered(q, acts) {
      forall k | 0 <= k < |acts|
        ensures !Overtaken(Run(q, acts[..k]), acts[k])
      {
        assert Increasing(Run(q, acts[..k]).queue) && Increasing(Run(q, acts[..k + 1]).queue);
        RunKeepsOrderIff(q, acts, k);
      }
    }
  }

  predicate NoBlocking(acts: seq<Act>) {
    forall i :: 0 <= i < |acts| && acts[i].Send? ==> !acts[i].blocking
  }

  lemma IncreasingWithout(ms: seq<Message>, i: nat)
    requires Increasing(ms) && i < |ms|
    ensures Increasing(Without(ms, i))
  {
  }

  lemma TakenIncreasing(ms: seq<Message>, kind: U32, nr: Option<U64>)
    requires Increasing(ms)
    ensures Increasing(TakeFirst(ms, kind, nr).rest)
    ensures forall m :: m in TakeFirst(ms, kind, nr).rest ==> m in ms
  {
    TakesFirstMatch(ms, kind, nr);
    hide TakeFirst, Matches, Increasing;
    var t := TakeFirst(ms, kind, nr);
    if t.m.Some? {
      var i: nat :| FirstAt(ms, kind, nr, t, i);
      assert t.rest == Without(ms, i);
      IncreasingWithout(ms, i);
    }
  }

  /** When nobody blocks, the queue is always in the order of the numbers. */
  lemma {:induction false} NonBlockingOrdered(q: Queue, acts: seq<Act>)
    requires Empty(q) && Run(q, acts).counter < MOD64 && NoBlocking(acts)
    ensures var r := Run(q, acts); Increasing(r.queue) && NumbersUpTo(r.queue, r.counter) && r.blocked == []
    decreases |acts|
  {
    hide TakeFirst, TotalLength, PaddedLength, Run;
    if acts == [] {
      assert Run(q, acts) == q by { RunNil(q); }
    } else {
      var n := |acts| - 1;
      CounterGrows(q, acts);
      forall i | 0 <= i < n && acts[..n][i].Send?
        ensures !acts[..n][i].blocking
      {
        assert acts[i] == acts[..n][i];
      }
      NonBlockingOrdered(q, acts[..n]);
      RunSnoc(q, acts);
      var r := Run(q, acts[..n]);
      match acts[n]
      case Send(m, blocking) =>
        assert forall x :: x in r.queue + [Numbered(r, m)] ==> x in r.queue || x == Numbered(r, m);
        assert forall i :: 0 <= i < |r.queue| ==> r.queue[i] in r.queue;
      case Retry(i) =>
      case Receive(kind, nr) =>
        TakenIncreasing(r.queue, kind, nr);
    }
  }

  lemma RunNil(q: Queue)
    ensures Run(q, []) == q
  {
  }

  lemma RunSnoc(q: Queue, acts: seq<Act>)
    requires acts != []
    ensures Run(q, acts) == Step(Run(q, acts[..|acts| - 1]), acts[|acts| - 1])
  {
  }

  /** With a blocked sender the queue can be out of order: its number is older than its place. */
  lemma BlockingBreaksOrder(first: Message, big: Message, small: Message)
    requires first.kind == big.kind == small.kind == NEW
    requires |first.data| == 16 && |big.data| == 24 && |small.data| == 8
    ensures var q := Queue([], 160, 0, [], [], []);
            var q1 := Step(q, Send(first, false));
            var q2 := Step(q1, Send(big, true));
            var q3 := Step(q2, Send(small, false));
            var q4 := Step(q3, Receive(ANY, Some(1)));
            var q5 := Step(q4, Retry(0));
            Overtaken(q4, Retry(0)) && q5.queue == [small.(nr := 3), big.(nr := 2)]
  {
    var q := Queue([], 160, 0, [], [], []);
    var f1, b2, s3 := first.(nr := 1), big.(nr := 2), small.(nr := 3);
    assert [f1][1..] == [] && [s3][1..] == [] && [f1, s3][1..] == [s3];
    assert TotalLength([f1]) == 80 && TotalLength([s3]) == 72;
    var q1 := Step(q, Send(first, false));
    assert q1 == Queue([f1], 160, 1, [], [f1], []);
    var q2 := Step(q1, Send(big, true));
    assert q2 == Queue([f1], 160, 2, [b2], [f1], []);
    var q3 := Step(q2, Send(small, false));
    assert q3.queue == [f1, s3] && q3.blocked == [b2];
    var q4 := Step(q3, Receive(ANY, Some(1)));
    assert Matches(f1, ANY, Some(1));
    assert q4.queue == [s3] && q4.blocked == [b2];
    assert s3 in q4.queue;
    assert Step(q4, Retry(0)).queue == [s3] + [b2];
  }
}

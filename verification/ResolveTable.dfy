/**
 * Outbound datagrams that wait for two MAC addresses (src/ip4_server.cpp).
 *
 * One record is filed under two request numbers. Three threads work on the table
 * under one lock: the enqueuer, the sender that handles resolver replies, and the
 * cleaner that drops what has waited too long. Resolver replies are arbitrary.
 */
module ResolveTable {
  import opened Bytes

  /** arp_timeout, in microseconds. */
  const ARP_TIMEOUT := 2_500_000

  type Mac = seq<Byte>

  /** struct pending_msg; the datagram is known by the number it was enqueued as. */
  datatype Record = Record(ts: U64, fromNr: nat, from: Option<Mac>, toNr: nat, to: Option<Mac>)

  datatype Dispatch = Dispatch(fromMac: Mac, toMac: Mac)

  /** The table, and what has happened so far. */
  datatype Table = Table(
    pending: map<nat, nat>,             // request number -> datagram
    records: map<nat, Record>,          // datagram -> its record
    next: nat,                          // datagrams queued so far
    asked: map<nat, (nat, nat)>,        // datagram -> its two request numbers
    answers: map<nat, Mac>,             // request number -> the reply that was used
    dispatched: map<nat, Dispatch>,
    dispatches: multiset<nat>,          // one entry per datagram handed to the link
    dropped: multiset<nat>,             // one entry per datagram timed out
    freed: multiset<nat>)               // one entry per release of a datagram's memory

  datatype Act =
    | Enqueue(fromNr: Option<nat>, toNr: Option<nat>, now: U64)
    | Reply(nr: nat, mac: Option<Mac>)
    | Clean(now: U64)

  const EMPTY := Table(map[], map[], 0, map[], map[], map[], multiset{}, multiset{}, multiset{})

  predicate Expired(r: Record, now: U64) {
    (now - r.ts) % MOD64 >= ARP_TIMEOUT
  }

  /** Both resolver requests went out: file the datagram under both numbers. */
  function DoEnqueue(t: Table, fromNr: nat, toNr: nat, now: U64): Table {
    t.(pending := t.pending[fromNr := t.next][toNr := t.next],
       records := t.records[t.next := Record(now, fromNr, None, toNr, None)],
       asked := t.asked[t.next := (fromNr, toNr)],
       next := t.next + 1)
  }

  function Fill(r: Record, nr: nat, mac: Mac): Record {
    if r.fromNr == nr then r.(from := Some(mac)) else r.(to := Some(mac))
  }

  function DoReply(t: Table, nr: nat, mac: Mac): Table
    requires nr in t.pending && t.pending[nr] in t.records
  {
    var id := t.pending[nr];
    var r := Fill(t.records[id], nr, mac);
    if r.from.None? || r.to.None? then
      t.(pending := t.pending - {nr}, records := t.records[id := r], answers := t.answers[nr := mac])
    else
      t.(pending := t.pending - {nr}, records := t.records - {id}, answers := t.answers[nr := mac],
         dispatched := t.dispatched[id := Dispatch(r.from.value, r.to.value)],
         dispatches := t.dispatches + multiset{id},
         freed := t.freed + multiset{id})
  }

  function ExpiredIds(t: Table, now: U64): set<nat> {
    set id | id in t.records && Expired(t.records[id], now)
  }

  function DoClean(t: Table, now: U64): Table {
    var gone := ExpiredIds(t, now);
    t.(pending := map nr | nr in t.pending && t.pending[nr] !in gone :: t.pending[nr],
       records := t.records - gone,
       dropped := t.dropped + multiset(gone),
       freed := t.freed + multiset(gone))
  }

  function Step(t: Table, act: Act): Table {
    match act
    case Enqueue(fromNr, toNr, now) =>
      if fromNr.Some? && toNr.Some? then DoEnqueue(t, fromNr.value, toNr.value, now) else t
    case Reply(nr, mac) =>
      if nr in t.pending && t.pending[nr] in t.records && mac.Some? then DoReply(t, nr, mac.value) else t
    case Clean(now) => DoClean(t, now)
  }

  // ----- the invariant -----------------------------------------------------

  /** The record is filed under exactly the numbers it still waits for, and what it has came in reply to its own. */
  predicate Filed(t: Table, id: nat) {
    id in t.records && id in t.asked &&
    var r := t.records[id];
    && t.asked[id] == (r.fromNr, r.toNr)
    && (r.from.None? <==> r.fromNr in t.pending) && (r.to.None? <==> r.toNr in t.pending)
    && (r.from.None? || r.to.None?)
    && (r.fromNr in t.pending ==> t.pending[r.fromNr] == id && r.fromNr !in t.answers)
    && (r.toNr in t.pending ==> t.pending[r.toNr] == id && r.toNr !in t.answers)
    && (r.from.Some? ==> r.fromNr in t.answers && t.answers[r.fromNr] == r.from.value)
    && (r.to.Some? ==> r.toNr in t.answers && t.answers[r.toNr] == r.to.value)
  }

  /** A datagram that left went out with the answers to its own two requests. */
  predicate SentRight(t: Table, id: nat) {
    id in t.dispatched && id in t.asked &&
    var (fromNr, toNr) := t.asked[id];
    && fromNr in t.answers && t.answers[fromNr] == t.dispatched[id].fromMac
    && toNr in t.answers && t.answers[toNr] == t.dispatched[id].toMac
  }

  /** Two requests share no number. */
  predicate Apart(a: (nat, nat), b: (nat, nat)) {
    a.0 != b.0 && a.0 != b.1 && a.1 != b.0 && a.1 != b.1
  }

  ghost predicate Numbers(t: Table) {
    && (forall id :: id in t.asked <==> 0 <= id < t.next)
    && (forall id :: id in t.asked ==> t.asked[id].0 != t.asked[id].1)
    && (forall a, b :: a in t.asked && b in t.asked && a != b ==> Apart(t.asked[a], t.asked[b]))
  }

  /** Each datagram is in exactly one place, and released exactly once when it leaves. */
  predicate Once(t: Table, id: nat) {
    && t.dispatches[id] + t.dropped[id] == t.freed[id] <= 1
    && (id in t.records <==> t.freed[id] == 0)
    && (id in t.dispatched <==> t.dispatches[id] == 1)
  }

  ghost predicate PendingKnown(t: Table) {
    forall nr :: nr in t.pending ==>
      && t.pending[nr] in t.records
      && (nr == t.records[t.pending[nr]].fromNr || nr == t.records[t.pending[nr]].toNr)
  }

  ghost predicate AllFiled(t: Table) {
    forall id :: id in t.records ==> Filed(t, id)
  }

  ghost predicate AllOnce(t: Table) {
    forall id :: id in t.asked ==> Once(t, id)
  }

  ghost predicate AllSentRight(t: Table) {
    forall id :: id in t.dispatched ==> SentRight(t, id)
  }

  /** Nothing is known about datagrams that were never queued. */
  ghost predicate OnlyQueued(t: Table) {
    forall id :: id !in t.asked ==>
      id !in t.records && id !in t.dispatched && t.freed[id] == t.dispatches[id] == t.dropped[id] == 0
  }

  ghost predicate Inv(t: Table) {
    Numbers(t) && PendingKnown(t) && AllFiled(t) && AllOnce(t) && AllSentRight(t) && OnlyQueued(t)
  }

  /** Request numbers are fresh: the shared-memory queue never gives one out twice. */
  ghost predicate FreshNumbers(t: Table, act: Act) {
    act.Enqueue? && act.fromNr.Some? && act.toNr.Some? ==> Unused(t, act.fromNr.value, act.toNr.value)
  }

  ghost predicate Unused(t: Table, fromNr: nat, toNr: nat) {
    && fromNr != toNr && fromNr !in t.answers && toNr !in t.answers
    && forall id :: id in t.asked ==> Apart((fromNr, toNr), t.asked[id])
  }

  // ----- each step, one datagram at a time ----------------------------------

  lemma EnqueueNumbers(t: Table, fromNr: nat, toNr: nat, now: U64)
    requires Numbers(t) && Unused(t, fromNr, toNr)
    ensures t.next !in t.asked && Numbers(DoEnqueue(t, fromNr, toNr, now))
  {
  }

  lemma EnqueueAllFiled(t: Table, fromNr: nat, toNr: nat, now: U64)
    requires AllFiled(t) && Unused(t, fromNr, toNr) && t.next !in t.asked
    ensures AllFiled(DoEnqueue(t, fromNr, toNr, now))
  {
  }

  lemma EnqueuePending(t: Table, fromNr: nat, toNr: nat, now: U64)
    requires PendingKnown(t) && t.next !in t.records
    ensures PendingKnown(DoEnqueue(t, fromNr, toNr, now))
  {
  }

  lemma EnqueueKeepsInv(t: Table, fromNr: nat, toNr: nat, now: U64)
    requires Inv(t) && Unused(t, fromNr, toNr)
    ensures Inv(DoEnqueue(t, fromNr, toNr, now))
  {
    EnqueueNumbers(t, fromNr, toNr, now);
    assert t.next !in t.records by { assert OnlyQueued(t); }
    hide Numbers, AllFiled, AllOnce, AllSentRight, PendingKnown, OnlyQueued, DoEnqueue;
    EnqueueAllFiled(t, fromNr, toNr, now);
    EnqueuePending(t, fromNr, toNr, now);
    EnqueueSame(t, fromNr, toNr, now);
  }

  lemma EnqueueSame(t: Table, fromNr: nat, toNr: nat, now: U64)
    requires t.next !in t.asked && AllOnce(t) && AllSentRight(t) && OnlyQueued(t)
    ensures var u := DoEnqueue(t, fromNr, toNr, now);
            AllOnce(u) && AllSentRight(u) && OnlyQueued(u)
  {
  }

  lemma ReplyFiledOther(t: Table, nr: nat, mac: Mac, x: nat)
    requires nr in t.pending && t.pending[nr] in t.records && x in t.records && Filed(t, x) && x != t.pending[nr]
    requires nr != t.asked[x].0 && nr != t.asked[x].1
    ensures Filed(DoReply(t, nr, mac), x)
  {
  }

  lemma ReplyFiledSelf(t: Table, nr: nat, mac: Mac)
    requires nr in t.pending && t.pending[nr] in t.records && Filed(t, t.pending[nr])
    requires var r := t.records[t.pending[nr]]; (nr == r.fromNr || nr == r.toNr) && r.fromNr != r.toNr
    ensures var u := DoReply(t, nr, mac); t.pending[nr] in u.records ==> Filed(u, t.pending[nr])
  {
  }

  lemma ReplySentSelf(t: Table, nr: nat, mac: Mac)
    requires nr in t.pending && t.pending[nr] in t.records && Filed(t, t.pending[nr])
    requires var r := t.records[t.pending[nr]]; (nr == r.fromNr || nr == r.toNr) && r.fromNr != r.toNr
    ensures var u := DoReply(t, nr, mac); t.pending[nr] !in u.records ==> SentRight(u, t.pending[nr])
  {
  }

  lemma ReplySentOther(t: Table, nr: nat, mac: Mac, x: nat)
    requires nr in t.pending && t.pending[nr] in t.records && SentRight(t, x) && x != t.pending[nr]
    requires nr != t.asked[x].0 && nr != t.asked[x].1
    ensures SentRight(DoReply(t, nr, mac), x)
  {
  }

  lemma ReplyOnce(t: Table, nr: nat, mac: Mac, x: nat)
    requires nr in t.pending && t.pending[nr] in t.records && Once(t, x) && Once(t, t.pending[nr])
    ensures Once(DoReply(t, nr, mac), x)
  {
  }

  /** The record behind a pending number, and that no other datagram has that number. */
  lemma Owner(t: Table, nr: nat)
    requires Inv(t) && nr in t.pending
    ensures var id := t.pending[nr];
            && id in t.records && id in t.asked && Filed(t, id) && Once(t, id)
            && (var r := t.records[id]; (nr == r.fromNr || nr == r.toNr) && r.fromNr != r.toNr)
            && forall x :: x in t.asked && x != id ==> nr != t.asked[x].0 && nr != t.asked[x].1
  {
    hide Once, SentRight;
    var id := t.pending[nr];
    assert Filed(t, id);
    forall x | x in t.asked && x != id
      ensures nr != t.asked[x].0 && nr != t.asked[x].1
    {
      assert Apart(t.asked[id], t.asked[x]);
    }
  }

  lemma ReplyAllFiled(t: Table, nr: nat, mac: Mac)
    requires Inv(t) && nr in t.pending
    ensures AllFiled(DoReply(t, nr, mac))
  {
    Owner(t, nr);
    var u := DoReply(t, nr, mac);
    ReplyFiledSelf(t, nr, mac);
    forall x | x in u.records
      ensures Filed(u, x)
    {
      assert Filed(t, x);
      hide Filed, Once, SentRight;
      if x != t.pending[nr] {
        ReplyFiledOther(t, nr, mac, x);
      }
    }
  }

  lemma ReplyAllSent(t: Table, nr: nat, mac: Mac)
    requires Inv(t) && nr in t.pending
    ensures AllSentRight(DoReply(t, nr, mac))
  {
    Owner(t, nr);
    var u := DoReply(t, nr, mac);
    ReplySentSelf(t, nr, mac);
    forall x | x in u.dispatched
      ensures SentRight(u, x)
    {
      if x != t.pending[nr] {
        assert SentRight(t, x);
        hide Filed, Once, SentRight;
        ReplySentOther(t, nr, mac, x);
      } else {
        assert Once(t, x);
      }
    }
  }

  lemma ReplyAllOnce(t: Table, nr: nat, mac: Mac)
    requires Inv(t) && nr in t.pending
    ensures var u := DoReply(t, nr, mac); AllOnce(u) && OnlyQueued(u) && Numbers(u)
  {
    Owner(t, nr);
    var u := DoReply(t, nr, mac);
    SameNumbers(t, u);
    ReplyOnlyQueued(t, nr, mac);
    hide Filed, Once, SentRight, Numbers, PendingKnown, AllFiled, AllSentRight, OnlyQueued;
    forall x | x in u.asked
      ensures Once(u, x)
    {
      ReplyOnce(t, nr, mac, x);
    }
  }

  lemma ReplyOnlyQueued(t: Table, nr: nat, mac: Mac)
    requires OnlyQueued(t) && nr in t.pending && t.pending[nr] in t.records && t.pending[nr] in t.asked
    ensures OnlyQueued(DoReply(t, nr, mac))
  {
  }

  lemma SameNumbers(t: Table, u: Table)
    requires Numbers(t) && u.asked == t.asked && u.next == t.next
    ensures Numbers(u)
  {
  }

  lemma ReplyPending(t: Table, nr: nat, mac: Mac)
    requires Inv(t) && nr in t.pending
    ensures PendingKnown(DoReply(t, nr, mac))
  {
    Owner(t, nr);
    var u := DoReply(t, nr, mac);
    forall k | k in u.pending
      ensures u.pending[k] in u.records && (k == u.records[u.pending[k]].fromNr || k == u.records[u.pending[k]].toNr)
    {
      LastNumber(t, nr, mac, k);
      hide Filed, Once, SentRight, Numbers;
    }
  }

  lemma ReplyKeepsInv(t: Table, nr: nat, mac: Mac)
    requires Inv(t) && nr in t.pending
    ensures t.pending[nr] in t.records && Inv(DoReply(t, nr, mac))
  {
    Owner(t, nr);
    hide Numbers, AllFiled, AllOnce, AllSentRight, PendingKnown, OnlyQueued, DoReply;
    ReplyAllFiled(t, nr, mac);
    ReplyAllSent(t, nr, mac);
    ReplyAllOnce(t, nr, mac);
    ReplyPending(t, nr, mac);
  }

  /** A record that leaves is filed under no other number any more. */
  lemma LastNumber(t: Table, nr: nat, mac: Mac, k: nat)
    requires Inv(t) && nr in t.pending && k in t.pending && k != nr
    ensures t.pending[k] in t.records && t.pending[k] in DoReply(t, nr, mac).records
  {
    hide Once, SentRight;
    assert Filed(t, t.pending[nr]) && Filed(t, t.pending[k]);
  }

  lemma CleanAllFiled(t: Table, now: U64)
    requires AllFiled(t)
    ensures AllFiled(DoClean(t, now))
  {
  }

  lemma CleanAllOnce(t: Table, now: U64)
    requires AllOnce(t) && AllSentRight(t) && OnlyQueued(t)
    ensures var u := DoClean(t, now); AllOnce(u) && AllSentRight(u) && OnlyQueued(u)
  {
  }

  lemma CleanPending(t: Table, now: U64)
    requires PendingKnown(t)
    ensures PendingKnown(DoClean(t, now))
  {
  }

  lemma CleanKeepsInv(t: Table, now: U64)
    requires Inv(t)
    ensures Inv(DoClean(t, now))
  {
    SameNumbers(t, DoClean(t, now));
    hide Numbers, AllFiled, AllOnce, AllSentRight, PendingKnown, OnlyQueued, DoClean;
    CleanAllFiled(t, now);
    CleanAllOnce(t, now);
    CleanPending(t, now);
  }

  // ----- runs --------------------------------------------------------------

  function Run(acts: seq<Act>): Table {
    if acts == [] then EMPTY else Step(Run(acts[..|acts| - 1]), acts[|acts| - 1])
  }

  ghost predicate FreshRun(acts: seq<Act>) {
    forall i :: 0 <= i < |acts| ==> FreshNumbers(Run(acts[..i]), acts[i])
  }

  lemma StepKeepsInv(t: Table, act: Act)
    requires Inv(t) && FreshNumbers(t, act)
    ensures Inv(Step(t, act))
  {
    hide Inv, DoEnqueue, DoReply, DoClean;
    match act
    case Enqueue(fromNr, toNr, now) =>
      if fromNr.Some? && toNr.Some? {
        EnqueueKeepsInv(t, fromNr.value, toNr.value, now);
      }
    case Reply(nr, mac) =>
      if nr in t.pending && t.pending[nr] in t.records && mac.Some? {
        ReplyKeepsInv(t, nr, mac.value);
      }
    case Clean(now) =>
      CleanKeepsInv(t, now);
  }

  lemma {:induction false} InvAlways(acts: seq<Act>)
    requires FreshRun(acts)
    ensures Inv(Run(acts))
    decreases |acts|
  {
    if acts == [] {
      assert Run(acts) == EMPTY;
    } else {
      hide Inv, Step, FreshNumbers;
      var n := |acts| - 1;
      forall i | 0 <= i < n
        ensures FreshNumbers(Run(acts[..n][..i]), acts[..n][i])
      {
        assert acts[..n][..i] == acts[..i];
        assert FreshNumbers(Run(acts[..i]), acts[i]);
      }
      InvAlways(acts[..n]);
      assert FreshNumbers(Run(acts[..n]), acts[n]);
      StepKeepsInv(Run(acts[..n]), acts[n]);
    }
  }

  /**
   * Table theorem. In every interleaving, each queued datagram is waiting,
   * dispatched or dropped, exactly one of these; it is dispatched at most once and
   * its memory is released exactly when it stops waiting, once; and it is
   * dispatched with the MAC addresses that came in reply to its own two requests.
   */
  lemma ExactlyOnePlace(acts: seq<Act>, id: nat)
    requires FreshRun(acts) && id < Run(acts).next
    ensures var t := Run(acts);
            && (if id in t.records then 1 else 0) + t.dispatches[id] + t.dropped[id] == 1
            && t.freed[id] == t.dispatches[id] + t.dropped[id]
            && (t.dispatches[id] == 1 ==> id in t.dispatched && SentRight(t, id))
  {
    hide Run;
    InvAlways(acts);
    assert id in Run(acts).asked;
    assert Once(Run(acts), id);
  }

  /** Action i files datagram id. */
  predicate Queues(acts: seq<Act>, i: nat, id: nat) {
    && i < |acts| && acts[i].Enqueue? && acts[i].fromNr.Some? && acts[i].toNr.Some?
    && Run(acts[..i]).next == id
  }

  lemma StepKeepsTime(t: Table, act: Act, id: nat)
    requires id < t.next && id in Step(t, act).records
    ensures t.next <= Step(t, act).next && id in t.records && Step(t, act).records[id].ts == t.records[id].ts
  {
  }

  lemma NextGrows(t: Table, act: Act)
    ensures t.next <= Step(t, act).next
  {
  }

  /** A record keeps the time at which its datagram was queued. */
  lemma {:induction false} TimeKept(acts: seq<Act>, i: nat, id: nat)
    requires Queues(acts, i, id)
    ensures id < Run(acts).next
    ensures id in Run(acts).records ==> Run(acts).records[id].ts == acts[i].now
  {
    var n := |acts| - 1;
    if i < n {
      hide Step;
      assert acts[..n][..i] == acts[..i];
      TimeKept(acts[..n], i, id);
      NextGrows(Run(acts[..n]), acts[n]);
      if id in Run(acts).records {
        StepKeepsTime(Run(acts[..n]), acts[n], id);
      }
    }
  }

  /** What a visit of the cleaner drops, one datagram at a time. */
  lemma CleanDrops(t: Table, now: U64, id: nat)
    requires id in t.records
    ensures var waited := now - t.records[id].ts;
            var late := waited >= 2_500_000 || (waited < 0 && waited + MOD64 >= 2_500_000);
            var u := Step(t, Clean(now));
            && (id in u.records <==> !late)
            && u.dropped[id] == t.dropped[id] + if late then 1 else 0
  {
  }

  lemma OnlyCleanDrops(t: Table, act: Act, id: nat)
    requires !(act.Clean? && id in t.records)
    ensures Step(t, act).dropped[id] == t.dropped[id]
  {
  }

  /**
   * Time-out theorem. In every interleaving a step drops a queued datagram if and
   * only if it is a visit of the cleaner at which the datagram still waits and was
   * queued at least 2.5 s before; so after a visit none that old is left. A clock
   * that went back counts as late.
   */
  lemma DroppedIffLate(acts: seq<Act>, i: nat, j: nat, id: nat)
    requires Queues(acts, i, id) && i < j < |acts|
    ensures var t, u := Run(acts[..j]), Run(acts[..j + 1]);
            if acts[j].Clean? && id in t.records then
              var waited := acts[j].now - acts[i].now;
              var late := waited >= 2_500_000 || (waited < 0 && waited + MOD64 >= 2_500_000);
              && u.dropped[id] == t.dropped[id] + (if late then 1 else 0)
              && (id in u.records <==> !late)
            else
              u.dropped[id] == t.dropped[id]
  {
    hide Step;
    assert acts[..j][..i] == acts[..i] && acts[..j + 1][..j] == acts[..j];
    TimeKept(acts[..j], i, id);
    if acts[j].Clean? && id in Run(acts[..j]).records {
      CleanDrops(Run(acts[..j]), acts[j].now, id);
    } else {
      OnlyCleanDrops(Run(acts[..j]), acts[j], id);
    }
  }

  /**
   * What a reply does: its number is done with, and its address is noted for the
   * side that asked; the datagram goes out, with both addresses, exactly if the
   * other side's address was already there.
   */
  lemma ReplyEffect(acts: seq<Act>, nr: nat, mac: Mac)
    requires FreshRun(acts) && nr in Run(acts).pending
    ensures var t := Run(acts);
            && t.pending[nr] in t.records
            && Replied(t, Step(t, Reply(nr, Some(mac))), nr, mac)
  {
    hide Run, FreshRun, Replied, Step;
    var t := Run(acts);
    InvAlways(acts);
    Owner(t, nr);
    assert Filed(t, t.pending[nr]) && Once(t, t.pending[nr]);
    hide Inv, Filed, Once;
    ReplyStep(t, nr, mac);
  }

  predicate Replied(t: Table, u: Table, nr: nat, mac: Mac)
    requires nr in t.pending && t.pending[nr] in t.records
  {
    var id := t.pending[nr];
    var r := t.records[id];
    var other := if nr == r.fromNr then r.to else r.from;
    && u.pending == t.pending - {nr} && u.dropped == t.dropped && (nr == r.fromNr || nr == r.toNr)
    && (other.None? ==>
          && id in u.records && id !in u.dispatched
          && u.records[id] == if nr == r.fromNr then r.(from := Some(mac)) else r.(to := Some(mac)))
    && (other.Some? ==>
          && id !in u.records && id in u.dispatched
          && u.dispatched[id] == if nr == r.fromNr then Dispatch(mac, other.value) else Dispatch(other.value, mac))
  }

  lemma ReplyStep(t: Table, nr: nat, mac: Mac)
    requires nr in t.pending && t.pending[nr] in t.records && Filed(t, t.pending[nr]) && Once(t, t.pending[nr])
    requires var r := t.records[t.pending[nr]]; (nr == r.fromNr || nr == r.toNr) && r.fromNr != r.toNr
    ensures Replied(t, Step(t, Reply(nr, Some(mac))), nr, mac)
  {
  }

  /** A reply never finds a record that does not wait for it: the code's last branch is dead. */
  lemma ReplyIsExpected(acts: seq<Act>, nr: nat)
    requires FreshRun(acts) && nr in Run(acts).pending
    ensures var t := Run(acts);
            var id := t.pending[nr];
            id in t.records &&
            var r := t.records[id];
            (nr == r.fromNr && r.from.None?) || (nr == r.toNr && r.to.None?)
  {
    hide Run;
    InvAlways(acts);
    var t := Run(acts);
    assert Filed(t, t.pending[nr]);
  }

  // ----- the mutable table ---------------------------------------------------

  lemma EnqueueEffect(t: Table, fromNr: Option<nat>, toNr: Option<nat>, now: U64)
    ensures var u := Step(t, Enqueue(fromNr, toNr, now));
            if fromNr.Some? && toNr.Some?
            then u.pending == t.pending[fromNr.value := t.next][toNr.value := t.next] && u.next == t.next + 1
                 && u.records == t.records[t.next := Record(now, fromNr.value, None, toNr.value, None)]
            else u == t
  {
  }

  /** pending_messages, with the pointers it holds given as datagram numbers. */
  class PendingMessages {
    var pending: map<nat, nat>
    var records: map<nat, Record>
    var next: nat
    ghost var t: Table

    ghost predicate Valid()
      reads this
    {
      pending == t.pending && records == t.records && next == t.next && Inv(t)
    }

    constructor ()
      ensures Valid() && t == EMPTY
    {
      pending, records, next := map[], map[], 0;
      t := EMPTY;
    }

    /** The enqueue step: nothing is filed unless both requests went out. */
    method HandleEnqueue(fromNr: Option<nat>, toNr: Option<nat>, now: U64) returns (queued: bool)
      requires Valid() && FreshNumbers(t, Enqueue(fromNr, toNr, now))
      modifies this
      ensures Valid() && t == Step(old(t), Enqueue(fromNr, toNr, now))
      ensures queued <==> fromNr.Some? && toNr.Some?
    {
      hide Inv, FreshNumbers, Step;
      queued := fromNr.Some? && toNr.Some?;
      StepKeepsInv(t, Enqueue(fromNr, toNr, now));
      EnqueueEffect(t, fromNr, toNr, now);
      if queued {
        records := records[next := Record(now, fromNr.value, None, toNr.value, None)];
        pending := pending[fromNr.value := next];
        pending := pending[toNr.value := next];
        next := next + 1;
      }
      t := Step(t, Enqueue(fromNr, toNr, now));
    }

    /** The reply step, with the code's three-way test on the number. */
    method HandleReply(nr: nat, mac: Option<Mac>) returns (sent: Option<Dispatch>)
      requires Valid()
      modifies this
      ensures Valid() && t == Step(old(t), Reply(nr, mac))
      ensures sent.None? ==> t.dispatches == old(t).dispatches
      ensures sent.Some? ==>
                && nr in old(t).pending
                && (var id := old(t).pending[nr];
                    t.dispatches == old(t).dispatches + multiset{id}
                    && t.dispatched == old(t).dispatched[id := sent.value])
    {
      hide Inv, Filed, Once;
      sent := None;
      ghost var before := t;
      StepKeepsInv(t, Reply(nr, mac));
      t := Step(t, Reply(nr, mac));
      if nr !in pending || mac.None? {
        return;
      }
      Owner(before, nr);
      var id := pending[nr];
      var r := records[id];
      if r.fromNr == nr {
        r := r.(from := mac);
      } else if r.toNr == nr {
        r := r.(to := mac);
      } else {
        assert false;
      }
      records := records[id := r];
      pending := pending - {nr};
      if r.from.Some? && r.to.Some? {
        sent := Some(Dispatch(r.from.value, r.to.value));
        records := records - {id};
      }
    }

    /** The cleaner, under the lock. */
    method HandleClean(now: U64) returns (released: seq<nat>)
      requires Valid()
      modifies this
      ensures Valid() && t == Step(old(t), Clean(now))
      ensures multiset(released) == multiset(ExpiredIds(old(t), now))
    {
      hide Inv, Filed, Once, Expired;
      var eraseKeys;
      released, eraseKeys := WalkExpired(t, pending, records, now);
      StepKeepsInv(t, Clean(now));
      t := Step(t, Clean(now));
      pending := pending - eraseKeys;
      records := records - (set id | id in records && Expired(records[id], now));
    }
  }

  /** The cleaner's walk over the table: what it releases, each datagram once, and which numbers it erases. */
  method WalkExpired(ghost t: Table, pending: map<nat, nat>, records: map<nat, Record>, now: U64)
    returns (released: seq<nat>, eraseKeys: set<nat>)
    requires Inv(t) && pending == t.pending && records == t.records
    ensures multiset(released) == multiset(ExpiredIds(t, now))
    ensures pending - eraseKeys == DoClean(t, now).pending
  {
    hide Inv, Filed, Once, Expired, KeysOf;
    ghost var gone := ExpiredIds(t, now);
    ghost var done: set<nat> := {};
    var todo := pending.Keys;
    released, eraseKeys := [], {};
    NoKeys(t);
    while todo != {}
      invariant todo <= pending.Keys && done <= gone
      invariant multiset(released) == multiset(done)
      invariant eraseKeys == KeysOf(t, done)
      invariant forall k :: k in pending && k !in todo && pending[k] in gone ==> pending[k] in done
      decreases todo
    {
      var k :| k in todo;
      todo := todo - {k};
      Owner(t, k);
      var id := pending[k];
      KeyIsDone(t, k, done);
      if k !in eraseKeys && Expired(records[id], now) {
        released := released + [id];
        eraseKeys := eraseKeys + {records[id].fromNr, records[id].toNr};
        KeysOfMore(t, done, id);
        assert multiset(done + {id}) == multiset(done) + multiset{id};
        done := done + {id};
      }
    }
    AllGoneDone(t, gone, done);
    ErasedPending(t, done);
  }

  /** The request numbers of some datagrams. */
  ghost function KeysOf(t: Table, ids: set<nat>): set<nat> {
    (set id | id in ids && id in t.asked :: t.asked[id].0) + (set id | id in ids && id in t.asked :: t.asked[id].1)
  }

  lemma NoKeys(t: Table)
    ensures KeysOf(t, {}) == {}
  {
  }

  lemma KeysOfMore(t: Table, ids: set<nat>, id: nat)
    requires id in t.records && Filed(t, id)
    ensures KeysOf(t, ids + {id}) == KeysOf(t, ids) + {t.records[id].fromNr, t.records[id].toNr}
  {
  }

  /** A number still in the table is marked exactly when its datagram is. */
  lemma KeyIsDone(t: Table, k: nat, ids: set<nat>)
    requires Inv(t) && k in t.pending
    ensures k in KeysOf(t, ids) <==> t.pending[k] in ids
  {
    Owner(t, k);
    hide Inv, Once;
  }

  lemma AllGoneDone(t: Table, gone: set<nat>, done: set<nat>)
    requires Inv(t) && done <= gone <= t.records.Keys
    requires forall k :: k in t.pending && t.pending[k] in gone ==> t.pending[k] in done
    ensures gone == done
  {
  }

  lemma ErasedPending(t: Table, ids: set<nat>)
    requires Inv(t)
    ensures t.pending - KeysOf(t, ids) == map nr | nr in t.pending && t.pending[nr] !in ids :: t.pending[nr]
  {
    hide Inv, KeysOf;
    forall k | k in t.pending
      ensures k in KeysOf(t, ids) <==> t.pending[k] in ids
    {
      KeyIsDone(t, k, ids);
    }
  }
}

/**
 * The shared-memory message queue (src/utils/shm.cpp): variable-length records
 * in a flat byte array, each padded to a multiple of eight bytes, appended at the
 * end and removed from anywhere by moving the rest down.
 *
 * The bytes are proved to behave like a plain list of messages.
 */
module ShmQueue {
  import opened Bytes

  /** sizeof(message): id, sent_at, size, type, msg_nr, sender. */
  const HEADER := 64

  const ANY: U32 := 0
  const NEW: U32 := 1
  const REPLY: U32 := 2

  datatype Message = Message(id: U64, sentAt: U64, kind: U32, nr: U64, sender: seq<Byte>, data: seq<Byte>)

  /** send_message asserts that a message is not empty; its size has 32 bits. */
  predicate ValidMessage(m: Message) {
    |m.sender| == 32 && 0 < |m.data| < MOD32
  }

  function Pad8(n: nat): (r: nat)
    ensures r % 8 == 0 && n <= r < n + 8
  {
    if n % 8 != 0 then n + 8 - n % 8 else n
  }

  /** A message as it lies in memory, before padding. */
  function Record(m: Message): (b: seq<Byte>)
    requires ValidMessage(m)
    ensures |b| == HEADER + |m.data|
  {
    Le(m.id, 8) + Le(m.sentAt, 8) + Le(|m.data|, 4) + Le(m.kind, 4) + Le(m.nr, 8) + m.sender + m.data
  }

  function PaddedLength(m: Message): nat {
    Pad8(HEADER + |m.data|)
  }

  // ----- reading records back ----------------------------------------------

  function SizeAt(b: seq<Byte>): nat
    requires |b| >= HEADER
  {
    FromLe(b[16..20])
  }

  function KindAt(b: seq<Byte>): nat
    requires |b| >= HEADER
  {
    FromLe(b[20..24])
  }

  function NrAt(b: seq<Byte>): nat
    requires |b| >= HEADER
  {
    FromLe(b[24..32])
  }

  /** A whole record with its padding is at the front of b. */
  predicate RecordAt(b: seq<Byte>) {
    |b| >= HEADER && 0 < SizeAt(b) && Pad8(HEADER + SizeAt(b)) <= |b|
  }

  lemma {:induction false} FromLeBound(b: seq<Byte>)
    ensures FromLe(b) < Pow256(|b|)
  {
    if b != [] {
      FromLeBound(b[1..]);
    }
  }

  function MessageAt(b: seq<Byte>): (m: Message)
    requires RecordAt(b)
    ensures ValidMessage(m) && |m.data| == SizeAt(b) && m.kind == KindAt(b) && m.nr == NrAt(b)
  {
    Pow256Values();
    FromLeBound(b[0..8]);
    FromLeBound(b[8..16]);
    FromLeBound(b[16..20]);
    FromLeBound(b[20..24]);
    FromLeBound(b[24..32]);
    Message(FromLe(b[0..8]), FromLe(b[8..16]), KindAt(b), NrAt(b), b[32..64], b[HEADER..HEADER + SizeAt(b)])
  }

  /** The bytes that record takes up. */
  function Span(b: seq<Byte>): (n: nat)
    requires RecordAt(b)
    ensures n == PaddedLength(MessageAt(b)) && HEADER < n <= |b| && n % 8 == 0
  {
    Pad8(HEADER + SizeAt(b))
  }

  predicate WellFormed(b: seq<Byte>) {
    b == [] || (RecordAt(b) && WellFormed(b[Span(b)..]))
  }

  /** The list of messages the bytes stand for. */
  function Messages(b: seq<Byte>): seq<Message>
    requires WellFormed(b)
  {
    if b == [] then [] else [MessageAt(b)] + Messages(b[Span(b)..])
  }

  /** Writing a record and reading it back, whatever the padding holds. */
  lemma RecordRoundTrip(m: Message, rest: seq<Byte>)
    requires ValidMessage(m) && |Record(m) + rest| >= PaddedLength(m)
    ensures var b := Record(m) + rest; RecordAt(b) && SizeAt(b) == |m.data| && MessageAt(b) == m
  {
    var b := Record(m) + rest;
    hide Le, FromLe, Pow256, Pad8;
    Pow256Values();
    LeRoundTrip(m.id, 8);
    LeRoundTrip(m.sentAt, 8);
    LeRoundTrip(|m.data|, 4);
    LeRoundTrip(m.kind, 4);
    LeRoundTrip(m.nr, 8);
    RecordFields(m, rest);
    hide Record;
  }

  lemma RecordFields(m: Message, rest: seq<Byte>)
    requires ValidMessage(m)
    ensures var b := Record(m) + rest;
            && b[0..8] == Le(m.id, 8) && b[8..16] == Le(m.sentAt, 8) && b[16..20] == Le(|m.data|, 4)
            && b[20..24] == Le(m.kind, 4) && b[24..32] == Le(m.nr, 8)
            && b[32..64] == m.sender && b[HEADER..HEADER + |m.data|] == m.data
  {
  }

  /** A queue that is not empty is its first record and a shorter queue. */
  lemma FirstRecord(b: seq<Byte>)
    requires WellFormed(b) && b != []
    ensures RecordAt(b) && WellFormed(b[Span(b)..]) && Messages(b) == [MessageAt(b)] + Messages(b[Span(b)..])
  {
    hide RecordAt, MessageAt, Span;
  }

  lemma EmptyQueue()
    ensures WellFormed([]) && Messages([]) == [] && TotalLength([]) == 0
  {
  }

  lemma OneMore(b: seq<Byte>)
    requires RecordAt(b) && WellFormed(b[Span(b)..])
    ensures WellFormed(b) && Messages(b) == [MessageAt(b)] + Messages(b[Span(b)..])
  {
    hide RecordAt, MessageAt, Span;
  }

  lemma {:induction false} ConcatMessages(a: seq<Byte>, b: seq<Byte>)
    requires WellFormed(a) && WellFormed(b)
    ensures WellFormed(a + b) && Messages(a + b) == Messages(a) + Messages(b)
  {
    hide *;
    if a == [] {
      assert a + b == b;
      EmptyQueue();
    } else {
      FirstRecord(a);
      FrontKept(a, b);
      var n := Span(a);
      assert (a + b)[n..] == a[n..] + b;
      ConcatMessages(a[n..], b);
      OneMore(a + b);
    }
  }

  lemma FrontKept(a: seq<Byte>, b: seq<Byte>)
    requires RecordAt(a)
    ensures RecordAt(a + b) && Span(a + b) == Span(a) && MessageAt(a + b) == MessageAt(a)
  {
    assert (a + b)[0..8] == a[0..8] && (a + b)[8..16] == a[8..16] && (a + b)[16..20] == a[16..20];
    assert (a + b)[20..24] == a[20..24] && (a + b)[24..32] == a[24..32] && (a + b)[32..64] == a[32..64];
    assert (a + b)[HEADER..HEADER + SizeAt(a)] == a[HEADER..HEADER + SizeAt(a)];
  }

  /** One record with its padding is a queue of one message. */
  lemma SingleRecord(m: Message, pad: seq<Byte>)
    requires ValidMessage(m) && |Record(m) + pad| == PaddedLength(m)
    ensures var b := Record(m) + pad; WellFormed(b) && Messages(b) == [m]
  {
    var b := Record(m) + pad;
    RecordRoundTrip(m, pad);
    assert b[PaddedLength(m)..] == [];
  }

  function TotalLength(ms: seq<Message>): nat {
    if ms == [] then 0 else PaddedLength(ms[0]) + TotalLength(ms[1..])
  }

  lemma {:induction false} FilledIsTotal(b: seq<Byte>)
    requires WellFormed(b)
    ensures TotalLength(Messages(b)) == |b| && |b| % 8 == 0
  {
    hide *;
    if b == [] {
      EmptyQueue();
    } else {
      FirstRecord(b);
      var n := Span(b);
      FilledIsTotal(b[n..]);
      TotalCons(MessageAt(b), Messages(b[n..]));
      assert |b| == n + |b[n..]|;
    }
  }

  lemma TotalCons(m: Message, ms: seq<Message>)
    ensures TotalLength([m] + ms) == PaddedLength(m) + TotalLength(ms)
  {
    hide PaddedLength;
    assert ([m] + ms)[1..] == ms;
  }

  // ----- what a reader gets ------------------------------------------------

  predicate Matches(m: Message, kind: U32, nr: Option<U64>) {
    (m.kind == kind || kind == ANY) && (nr.None? || m.nr == nr.value)
  }

  datatype Taken = Taken(m: Option<Message>, rest: seq<Message>)

  /** The first match, and everything else in the old order. */
  function TakeFirst(ms: seq<Message>, kind: U32, nr: Option<U64>): Taken {
    if ms == [] then Taken(None, [])
    else if Matches(ms[0], kind, nr) then Taken(Some(ms[0]), ms[1..])
    else
      var t := TakeFirst(ms[1..], kind, nr);
      Taken(t.m, [ms[0]] + t.rest)
  }

  lemma {:induction false} SkipsNonMatching(a: seq<Message>, b: seq<Message>, kind: U32, nr: Option<U64>)
    requires forall m :: m in a ==> !Matches(m, kind, nr)
    ensures var t := TakeFirst(b, kind, nr); TakeFirst(a + b, kind, nr) == Taken(t.m, a + t.rest)
  {
    if a == [] {
      assert a + b == b;
      assert a + TakeFirst(b, kind, nr).rest == TakeFirst(b, kind, nr).rest;
    } else {
      assert (a + b)[1..] == a[1..] + b;
      SkipsNonMatching(a[1..], b, kind, nr);
      assert [a[0]] + (a[1..] + TakeFirst(b, kind, nr).rest) == a + TakeFirst(b, kind, nr).rest;
    }
  }

  lemma TakesHead(m: Message, ms: seq<Message>, kind: U32, nr: Option<U64>)
    requires Matches(m, kind, nr)
    ensures TakeFirst([m] + ms, kind, nr) == Taken(Some(m), ms)
  {
    hide Matches;
    assert ([m] + ms)[1..] == ms;
  }

  lemma PassesHead(m: Message, ms: seq<Message>, kind: U32, nr: Option<U64>)
    requires !Matches(m, kind, nr)
    ensures var t := TakeFirst(ms, kind, nr); TakeFirst([m] + ms, kind, nr) == Taken(t.m, [m] + t.rest)
  {
    hide Matches;
    assert ([m] + ms)[1..] == ms;
  }

  lemma NothingToTake(kind: U32, nr: Option<U64>)
    ensures TakeFirst([], kind, nr) == Taken(None, [])
  {
  }

  /** ms[i] is the first match and t is ms without it. */
  predicate FirstAt(ms: seq<Message>, kind: U32, nr: Option<U64>, t: Taken, i: nat) {
    && i < |ms| && t.m == Some(ms[i]) && Matches(ms[i], kind, nr)
    && t.rest == ms[..i] + ms[i + 1..]
    && forall j :: 0 <= j < i ==> !Matches(ms[j], kind, nr)
  }

  lemma FirstAtHead(x: Message, ms: seq<Message>, kind: U32, nr: Option<U64>)
    requires Matches(x, kind, nr)
    ensures FirstAt([x] + ms, kind, nr, Taken(Some(x), ms), 0)
  {
    hide Matches;
    var all := [x] + ms;
    assert all[..0] + all[1..] == ms;
  }

  lemma FirstAtLater(x: Message, ms: seq<Message>, kind: U32, nr: Option<U64>, t: Taken, i: nat)
    requires FirstAt(ms, kind, nr, t, i) && !Matches(x, kind, nr)
    ensures FirstAt([x] + ms, kind, nr, Taken(t.m, [x] + t.rest), i + 1)
  {
    hide Matches;
    var all := [x] + ms;
    assert all[..i + 1] == [x] + ms[..i] && all[i + 2..] == ms[i + 1..];
    assert [x] + t.rest == all[..i + 1] + all[i + 2..];
  }

  /** Filtered FIFO, said without recursion: the first match goes, all others stay in order. */
  lemma {:induction false} TakesFirstMatch(ms: seq<Message>, kind: U32, nr: Option<U64>)
    ensures var t := TakeFirst(ms, kind, nr);
            if t.m.None? then t.rest == ms && forall m :: m in ms ==> !Matches(m, kind, nr)
            else exists i :: FirstAt(ms, kind, nr, t, i)
  {
    hide *;
    if ms == [] {
      NothingToTake(kind, nr);
    } else {
      var x, rest := ms[0], ms[1..];
      assert ms == [x] + rest;
      if Matches(x, kind, nr) {
        TakesHead(x, rest, kind, nr);
        FirstAtHead(x, rest, kind, nr);
      } else {
        TakesFirstMatch(rest, kind, nr);
        PassesHead(x, rest, kind, nr);
        var t := TakeFirst(rest, kind, nr);
        if t.m.Some? {
          var i: nat :| FirstAt(rest, kind, nr, t, i);
          FirstAtLater(x, rest, kind, nr, t, i);
        }
      }
    }
  }

  /** m has another type than was asked for, or another number than was named; type 0 stands for any. */
  predicate Unwanted(m: Message, kind: U32, nr: Option<U64>) {
    (kind != 0 && m.kind != kind) || (nr.Some? && m.nr != nr.value)
  }

  /** ms[i] is the first message that was asked for, and t is ms without it. */
  predicate FirstAsked(ms: seq<Message>, kind: U32, nr: Option<U64>, t: Taken, i: nat) {
    && i < |ms| && t.m == Some(ms[i]) && t.rest == ms[..i] + ms[i + 1..]
    && (kind == 0 || ms[i].kind == kind) && (nr.Some? ==> ms[i].nr == nr.value)
    && forall j :: 0 <= j < i ==> Unwanted(ms[j], kind, nr)
  }

  lemma MatchesOrUnwanted(m: Message, kind: U32, nr: Option<U64>)
    ensures Matches(m, kind, nr) <==> !Unwanted(m, kind, nr)
  {
  }

  lemma FirstMatchIsAsked(ms: seq<Message>, kind: U32, nr: Option<U64>, t: Taken, i: nat)
    requires FirstAt(ms, kind, nr, t, i)
    ensures FirstAsked(ms, kind, nr, t, i)
  {
    forall j | 0 <= j < i
      ensures Unwanted(ms[j], kind, nr)
    {
      MatchesOrUnwanted(ms[j], kind, nr);
      hide Matches, Unwanted;
    }
    MatchesOrUnwanted(ms[i], kind, nr);
  }

  /** What a reader gets, field by field: the first message it asked for, or none only if there is none. */
  lemma TakesWhatWasAskedFor(ms: seq<Message>, kind: U32, nr: Option<U64>)
    ensures var t := TakeFirst(ms, kind, nr);
            && (t.m.Some? ==> exists i :: FirstAsked(ms, kind, nr, t, i))
            && (t.m.None? ==>
                  && t.rest == ms
                  && forall m :: m in ms ==> Unwanted(m, kind, nr))
  {
    hide TakeFirst;
    TakesFirstMatch(ms, kind, nr);
    var t := TakeFirst(ms, kind, nr);
    if t.m.Some? {
      var i: nat :| FirstAt(ms, kind, nr, t, i);
      FirstMatchIsAsked(ms, kind, nr, t, i);
    } else {
      forall m | m in ms
        ensures Unwanted(m, kind, nr)
      {
        MatchesOrUnwanted(m, kind, nr);
      }
    }
  }

  /** So a message that is taken is one that was asked for. */
  lemma TakenWasAskedFor(ms: seq<Message>, kind: U32, nr: Option<U64>, t: Taken)
    requires t == TakeFirst(ms, kind, nr)
    ensures t.m.Some? ==> (kind == 0 || t.m.value.kind == kind) && (nr.Some? ==> t.m.value.nr == nr.value)
    ensures t.m.None? ==> forall m :: m in t.rest ==> Unwanted(m, kind, nr)
  {
    hide TakeFirst;
    TakesWhatWasAskedFor(ms, kind, nr);
  }

  // ----- the segment -------------------------------------------------------

  /** struct shared_memory, and what is done to it while its mutex is held. */
  class SharedMemory {
    const data: array<Byte>
    var filled: nat
    var mostRecentNr: U64

    ghost predicate Valid()
      reads this, data
    {
      filled <= data.Length && WellFormed(data[..filled])
    }

    ghost function Contents(): seq<Message>
      requires Valid()
      reads this, data
    {
      Messages(data[..filled])
    }

    constructor (size: nat)
      ensures Valid() && Contents() == [] && data.Length == size && mostRecentNr == 0 && fresh(data)
    {
      data := new Byte[size];
      filled, mostRecentNr := 0, 0;
    }

    /** Numbers every message except replies. */
    method Number(m: Message) returns (r: Message)
      modifies this`mostRecentNr
      ensures if m.kind == REPLY then r == m && mostRecentNr == old(mostRecentNr)
              else r == m.(nr := mostRecentNr) && mostRecentNr == (old(mostRecentNr) + 1) % MOD64
    {
      r := m;
      if m.kind != REPLY {
        mostRecentNr := (mostRecentNr + 1) % MOD64;
        r := m.(nr := mostRecentNr);
      }
    }

    /** One attempt of send_message to put a numbered message in. */
    method TryPut(m: Message) returns (ok: bool)
      requires Valid() && ValidMessage(m)
      modifies this`filled, data
      ensures Valid()
      ensures ok <==> TotalLength(old(Contents())) + PaddedLength(m) <= data.Length
      ensures Contents() == if ok then old(Contents()) + [m] else old(Contents())
    {
      hide Record, WellFormed, Messages, PaddedLength, TotalLength, ValidMessage;
      FilledIsTotal(data[..filled]);
      var record := Record(m);
      var padded := PaddedLength(m);
      ok := data.Length >= filled + padded;
      if ok {
        LengthPadded(m);
        ghost var before := data[..filled];
        forall i | 0 <= i < |record| {
          data[filled + i] := record[i];
        }
        ghost var pad := data[filled + |record|..filled + padded];
        assert data[..filled + padded] == before + (record + pad);
        SingleRecord(m, pad);
        ConcatMessages(before, record + pad);
        filled := filled + padded;
      }
    }

    /** The memmove that closes the gap a record leaves. */
    method MoveDown(cur: nat, total: nat)
      requires cur + total <= filled <= data.Length
      modifies this`filled, data
      ensures filled == old(filled) - total
      ensures data[..filled] == old(data[..cur]) + old(data[cur + total..filled])
    {
      var left := filled - cur - total;
      forall i | 0 <= i < left {
        data[cur + i] := data[cur + total + i];
      }
      filled := filled - total;
    }

    /** One pass of wait_for_message over the queue; None means it goes on waiting. */
    method TryTake(kind: U32, nr: Option<U64>) returns (r: Option<Message>)
      requires Valid()
      modifies this`filled, data
      ensures Valid() && Taken(r, Contents()) == TakeFirst(old(Contents()), kind, nr)
      ensures r.Some? ==> (kind == 0 || r.value.kind == kind) && (nr.Some? ==> r.value.nr == nr.value)
      ensures r.None? ==> forall m :: m in Contents() ==> Unwanted(m, kind, nr)
    {
      hide WellFormed, Messages, MessageAt, RecordAt, Span, Matches, Unwanted, PaddedLength, TakeFirst;
      ghost var all := data[..filled];
      var cur := 0;
      r := None;
      StartOfScan(all);
      while filled - cur >= HEADER
        invariant 0 <= cur <= filled && filled == old(filled) && cur % 8 == 0
        invariant data[..filled] == all
        invariant WellFormed(all[..cur]) && WellFormed(all[cur..])
        invariant Messages(all) == Messages(all[..cur]) + Messages(all[cur..])
        invariant forall m :: m in Messages(all[..cur]) ==> !Matches(m, kind, nr)
      {
        assert data[cur..filled] == all[cur..];
        NotEmptyTail(all[cur..]);
        var m := MessageAt(data[cur..filled]);
        var total := PaddedLength(m);
        assert total == Span(all[cur..]);
        assert total % 8 == 0 && total <= filled - cur;
        Advance(all, cur, total);
        if Matches(m, kind, nr) {
          SkipsNonMatching(Messages(all[..cur]), Messages(all[cur..]), kind, nr);
          TakesHead(m, Messages(all[cur + total..]), kind, nr);
          assert data[..cur] == all[..cur] && data[cur + total..filled] == all[cur + total..];
          MoveDown(cur, total);
          ConcatMessages(all[..cur], all[cur + total..]);
          TakenWasAskedFor(Messages(all), kind, nr, Taken(Some(m), Contents()));
          return Some(m);
        }
        cur := cur + total;
      }
      ShortTail(all[cur..]);
      SkipsNonMatching(Messages(all[..cur]), [], kind, nr);
      NothingToTake(kind, nr);
      TakenWasAskedFor(Messages(all), kind, nr, Taken(None, Contents()));
    }
  }

  lemma LengthPadded(m: Message)
    requires ValidMessage(m)
    ensures |Record(m)| <= PaddedLength(m)
  {
  }

  lemma StartOfScan(all: seq<Byte>)
    requires WellFormed(all)
    ensures all[0..] == all && WellFormed(all[..0]) && Messages(all[..0]) == []
    ensures Messages(all) == Messages(all[..0]) + Messages(all[0..])
  {
  }

  lemma NotEmptyTail(b: seq<Byte>)
    requires WellFormed(b) && |b| >= HEADER
    ensures RecordAt(b)
  {
  }

  /** Stepping over one record keeps both parts well formed. */
  lemma Advance(all: seq<Byte>, cur: nat, total: nat)
    requires cur < |all| && WellFormed(all[..cur]) && WellFormed(all[cur..]) && total == Span(all[cur..])
    ensures cur + total <= |all| && WellFormed(all[cur + total..]) && WellFormed(all[..cur + total])
    ensures Messages(all[cur..]) == [MessageAt(all[cur..])] + Messages(all[cur + total..])
    ensures Messages(all[..cur + total]) == Messages(all[..cur]) + [MessageAt(all[cur..])]
  {
    hide RecordAt, MessageAt, Span;
    var tail := all[cur..];
    var one := tail[..total];
    assert tail[total..] == all[cur + total..];
    assert tail == one + tail[total..];
    OneRecord(tail, total);
    assert all[..cur + total] == all[..cur] + one;
    ConcatMessages(all[..cur], one);
  }

  lemma OneRecord(tail: seq<Byte>, total: nat)
    requires RecordAt(tail) && total == Span(tail)
    ensures WellFormed(tail[..total]) && Messages(tail[..total]) == [MessageAt(tail)]
  {
    var one := tail[..total];
    SliceOfFront(tail, total, 0, 8);
    SliceOfFront(tail, total, 8, 16);
    SliceOfFront(tail, total, 16, 20);
    SliceOfFront(tail, total, 20, 24);
    SliceOfFront(tail, total, 24, 32);
    SliceOfFront(tail, total, 32, 64);
    SliceOfFront(tail, total, HEADER, HEADER + SizeAt(tail));
    assert MessageAt(one) == MessageAt(tail) && Span(one) == total;
    assert one[total..] == [];
    hide RecordAt, MessageAt, Span;
    EmptyQueue();
    OneMore(one);
  }

  lemma SliceOfFront(s: seq<Byte>, n: nat, i: nat, j: nat)
    requires i <= j <= n <= |s|
    ensures s[..n][i..j] == s[i..j]
  {
  }

  /** What is left when the scan stops is nothing, never part of a record. */
  lemma ShortTail(b: seq<Byte>)
    requires WellFormed(b) && |b| < HEADER
    ensures b == [] && Messages(b) == []
  {
  }
}

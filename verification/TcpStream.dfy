/**
 * What every step of a TCP session keeps, over whole runs.
 *
 * An endpoint is a session together with its history: the application bytes
 * queued so far, how many of them have left the buffer again, and the bytes
 * handed up to the application.
 */
module TcpStream {
  import opened Bytes
  import opened TcpSession

  datatype Endpoint = Endpoint(
    s: Session,
    first: U32,            // sequence number of the first queued byte
    queued: seq<Byte>,
    forgotten: nat,
    delivered: seq<Byte>,
    live: bool)            // false once the session has been erased

  datatype Event =
    | Arrive(g: Segment, env: Sends)
    | FromApp(bytes: seq<Byte>, fin: bool)
    | Tick(accepted: bool)

  datatype Moved = Moved(e: Endpoint, out: seq<Segment>)

  function AppData(up: seq<L7Message>): seq<Byte> {
    if up == [] then []
    else (if up[0].Data? then up[0].bytes else []) + AppData(up[1..])
  }

  lemma AppDataOf(bytes: seq<Byte>, fin: bool)
    ensures AppData([Close]) == []
    ensures AppData([Data(bytes, fin)]) == bytes == AppData([Data(bytes, fin), Close])
  {
  }

  function Step(e: Endpoint, ev: Event): Moved {
    if !e.live then
      Moved(e, [])
    else
      match ev
      case Arrive(g, env) =>
        var o := SegmentIn(e.s, g, env);
        Moved(
          e.(s := o.s,
             forgotten := e.forgotten + |e.s.buf| - |o.s.buf|,
             delivered := e.delivered + AppData(o.up),
             live := !o.erased),
          o.out)
      case FromApp(bytes, fin) =>
        Moved(e.(s := FromL7(e.s, bytes, fin), queued := e.queued + bytes), [])
      case Tick(accepted) =>
        var t := SenderTick(e.s, accepted);
        Moved(e.(s := t.s), t.out)
  }

  /** The endpoint after a list of events. */
  function Run(e: Endpoint, evs: seq<Event>): Endpoint {
    if evs == [] then e else Step(Run(e, evs[..|evs| - 1]), evs[|evs| - 1]).e
  }

  /** What the i-th event of a run put on the wire. */
  function Emitted(e: Endpoint, evs: seq<Event>, i: nat): seq<Segment>
    requires i < |evs|
  {
    Step(Run(e, evs[..i]), evs[i]).out
  }

  /** A session that has just been set up. */
  predicate Fresh(e: Endpoint) {
    && e.live && !e.s.phase.Closed?
    && e.s.buf == e.queued == e.delivered == [] && e.s.inFlight == e.forgotten == 0
    && !e.s.finSent && !e.s.l7SendFin && !e.s.halfClosed
    && e.s.localSeq == e.first
  }

  // ----- the sending side --------------------------------------------------

  predicate SenderInv(e: Endpoint) {
    && e.s.localSeq == Add(e.first + e.forgotten, if e.s.finSent then 1 else 0)
    && e.s.inFlight <= |e.s.buf| && e.s.inFlight <= e.s.mss
    && e.forgotten <= |e.queued|
    && e.s.buf == e.queued[e.forgotten..]
  }

  /** g carries the stream bytes that start at position pos, and says so. */
  predicate CarriesAt(g: Segment, first: U32, stream: seq<Byte>, pos: int) {
    && 0 <= pos && pos + |g.payload| <= |stream|
    && g.seqNr == Add(first, pos)
    && g.payload == stream[pos..pos + |g.payload|]
  }

  lemma AckKeepsSender(e: Endpoint, ackNr: U32)
    requires SenderInv(e)
    ensures var s := AckIn(e.s, ackNr);
            && |s.buf| <= |e.s.buf|
            && SenderInv(e.(s := s, forgotten := e.forgotten + |e.s.buf| - |s.buf|))
  {
    var s := AckIn(e.s, ackNr);
    var n := Sub(ackNr, e.s.localSeq);
    if ackNr >= e.s.localSeq && n <= e.s.inFlight {
      assert e.queued[e.forgotten..][n..] == e.queued[e.forgotten + n..];
      AddAssoc(e.first + e.forgotten, if e.s.finSent then 1 else 0, n);
    }
  }

  lemma AddAssoc(a: int, b: int, n: int)
    ensures Add(Add(a, b), n) == Add(a + n, b)
  {
  }

  /** Segments that make a session drop its buffer: any for a closed one, a reset, a SYN no client asked for. */
  predicate Aborts(e: Endpoint, ev: Event) {
    ev.Arrive? && (e.s.phase.Closed? || ev.g.flags.rst || (ev.g.flags.syn && e.s.isClient && !ev.g.flags.ack))
  }

  /** How many bytes a step drops unsent or unacknowledged. */
  function Dropped(e: Endpoint, ev: Event): nat {
    if e.live && Aborts(e, ev) then |e.s.buf| else 0
  }

  /** The sender invariant survives every step that drops nothing. */
  lemma SenderStep(e: Endpoint, ev: Event)
    requires SenderInv(e) && Dropped(e, ev) == 0
    ensures SenderInv(Step(e, ev).e)
  {
    hide SegmentIn, AckIn, SenderTick;
    if e.live {
      match ev
      case Arrive(g, env) =>
        if Aborts(e, ev) {
          AbortEffect(e, ev);
        } else {
          ArrivalKeepsPhase(e.s, g, env);
          AckKeepsSender(e, g.ackNr);
        }
      case FromApp(bytes, fin) =>
        assert (e.queued + bytes)[e.forgotten..] == e.queued[e.forgotten..] + bytes;
      case Tick(accepted) =>
        TickKeepsSender(e, accepted);
    }
  }

  lemma AbortEffect(e: Endpoint, ev: Event)
    requires e.live && Aborts(e, ev)
    ensures var r := Step(e, ev).e;
            && r == e.(s := r.s, forgotten := e.forgotten + |e.s.buf|, delivered := r.delivered)
            && r.s.phase.Closed? && SameSender(e.s.(buf := []), r.s)
  {
  }

  lemma ArrivalKeepsPhase(s: Session, g: Segment, env: Sends)
    requires !(s.phase.Closed? || g.flags.rst || (g.flags.syn && s.isClient && !g.flags.ack))
    ensures SameSender(AfterAck(s, g), SegmentIn(s, g, env).s)
  {
    hide AckIn, Add;
  }

  /**
   * A step leaves stream and numbering together if and only if it is not an
   * abort that finds something in the buffer.
   */
  lemma KeepsPlaceIff(e: Endpoint, ev: Event)
    requires SenderInv(e) && e.live && |e.s.buf| < MOD32
    ensures SenderInv(Step(e, ev).e) <==> !(Aborts(e, ev) && e.s.buf != [])
  {
    hide Step;
    if Aborts(e, ev) && e.s.buf != [] {
      AbortEffect(e, ev);
      var fin := if e.s.finSent then 1 else 0;
      if SenderInv(Step(e, ev).e) {
        SameNumberSamePlace(0, e.first + e.forgotten + fin, e.first + e.forgotten + |e.s.buf| + fin);
      }
    } else {
      SenderStep(e, ev);
    }
  }

  lemma TickKeepsSender(e: Endpoint, accepted: bool)
    requires SenderInv(e)
    ensures SenderInv(e.(s := SenderTick(e.s, accepted).s))
  {
    AddAssoc(e.first + e.forgotten, 0, 1);
    assert !e.s.finSent ==> Add(e.s.localSeq, 1) == Add(e.first + e.forgotten, 1);
    hide Add;
  }

  /** What a data segment is made of, whatever state the session is in. */
  lemma DataEmitted(e: Endpoint, ev: Event, g: Segment)
    requires g in Step(e, ev).out && g.payload != []
    ensures g.seqNr == e.s.localSeq && |g.payload| <= |e.s.buf| && g.payload == e.s.buf[..|g.payload|]
    ensures |g.payload| <= e.s.mss && |g.payload| <= SENDER_BUFFER && !e.s.finSent && e.s.inFlight == 0
  {
  }

  /** Everything a step emits: data where the stream has it, FIN only at the stream's end. */
  lemma EmittedStep(e: Endpoint, ev: Event, g: Segment)
    requires SenderInv(e) && g in Step(e, ev).out
    ensures g.payload != [] ==> CarriesAt(g, e.first, e.queued, e.forgotten)
    ensures |g.payload| <= e.s.mss
    ensures g.flags.fin ==>
              && CarriesAt(g, e.first, e.queued, |e.queued| - |g.payload|)
              && e.s.l7SendFin && !e.s.finSent && Step(e, ev).e.s.finSent
  {
  }

  lemma StepOneWay(e: Endpoint, ev: Event)
    ensures OneWay(e.s, Step(e, ev).e.s)
    ensures var m := Step(e, ev).e; m.first == e.first && m.s.mss == e.s.mss && e.queued <= m.queued
  {
  }

  /** The bytes all aborts of a run have dropped. */
  function Lost(e: Endpoint, evs: seq<Event>): nat {
    if evs == [] then 0
    else
      var n := |evs| - 1;
      Lost(e, evs[..n]) + Dropped(Run(e, evs[..n]), evs[n])
  }

  /** No abort of the run found anything in the buffer. */
  ghost predicate CleanRun(e: Endpoint, evs: seq<Event>) {
    forall i :: 0 <= i < |evs| ==> Dropped(Run(e, evs[..i]), evs[i]) == 0
  }

  lemma {:induction false} CleanIffNothingLost(e: Endpoint, evs: seq<Event>)
    ensures CleanRun(e, evs) <==> Lost(e, evs) == 0
  {
    hide Step, Dropped;
    if evs != [] {
      var n := |evs| - 1;
      CleanIffNothingLost(e, evs[..n]);
      assert forall i :: 0 <= i < n ==> evs[..n][..i] == evs[..i];
      if CleanRun(e, evs[..n]) && Dropped(Run(e, evs[..n]), evs[n]) == 0 {
        forall i | 0 <= i < |evs|
          ensures Dropped(Run(e, evs[..i]), evs[i]) == 0
        {
          assert i < n ==> Dropped(Run(e, evs[..n][..i]), evs[..n][i]) == 0;
        }
      }
      if CleanRun(e, evs) {
        forall i | 0 <= i < n
          ensures Dropped(Run(e, evs[..n][..i]), evs[..n][i]) == 0
        {
          assert Dropped(Run(e, evs[..i]), evs[i]) == 0;
        }
      }
    }
  }

  /** The sender invariant of a session that has dropped so many bytes: its numbers lag behind by as many. */
  predicate SenderAt(e: Endpoint, lost: nat) {
    && e.s.localSeq == Add(e.first + e.forgotten - lost, if e.s.finSent then 1 else 0)
    && lost <= e.forgotten <= |e.queued| && e.s.buf == e.queued[e.forgotten..]
    && (if lost == 0 then e.s.inFlight <= |e.s.buf| && e.s.inFlight <= e.s.mss else e.s.phase.Closed?)
  }

  lemma SenderAtStep(e: Endpoint, ev: Event, lost: nat)
    requires SenderAt(e, lost)
    ensures SenderAt(Step(e, ev).e, lost + Dropped(e, ev))
  {
    if lost == 0 && Dropped(e, ev) == 0 {
      hide Step;
      SenderStep(e, ev);
    } else if e.live {
      hide SegmentIn, SenderTick, Add;
      match ev
      case Arrive(g, env) =>
        hide Step;
        AbortEffect(e, ev);
      case FromApp(bytes, fin) =>
        assert (e.queued + bytes)[e.forgotten..] == e.queued[e.forgotten..] + bytes;
      case Tick(accepted) =>
        LaggingTick(e.s, e.first + e.forgotten - lost, accepted);
    }
  }

  lemma LaggingTick(s: Session, at: int, accepted: bool)
    requires s.localSeq == Add(at, if s.finSent then 1 else 0)
    ensures var t := SenderTick(s, accepted).s;
            && t == s.(localSeq := t.localSeq, finSent := t.finSent, inFlight := t.inFlight)
            && t.localSeq == Add(at, if t.finSent then 1 else 0)
  {
    AddAssoc(at, 0, 1);
    assert Add(at + 1, 0) == Add(at, 1);
    hide Add, NextChunk;
  }

  /**
   * The sender in every state of every run, resets and closed sessions included:
   * the buffer is the queued stream without what has left it, and local_seq is
   * the number of the next byte less what aborts have dropped.
   */
  lemma {:induction false} SenderAlways(e: Endpoint, evs: seq<Event>)
    requires Fresh(e)
    ensures var r := Run(e, evs);
            && r.first == e.first && r.s.mss == e.s.mss && SenderAt(r, Lost(e, evs))
            && (CleanRun(e, evs) ==> SenderInv(r))
            && (r.forgotten < MOD32 && SenderInv(r) ==> CleanRun(e, evs))
  {
    hide Step, Dropped, SenderAt, SenderInv, CleanRun;
    CleanIffNothingLost(e, evs);
    if evs == [] {
      FreshSender(e);
    } else {
      var n := |evs| - 1;
      SenderAlways(e, evs[..n]);
      var r := Run(e, evs[..n]);
      StepOneWay(r, evs[n]);
      SenderAtStep(r, evs[n], Lost(e, evs[..n]));
    }
    NothingLost(Run(e, evs), Lost(e, evs));
  }

  lemma FreshSender(e: Endpoint)
    requires Fresh(e)
    ensures SenderAt(e, 0)
  {
  }

  lemma NothingLost(e: Endpoint, lost: nat)
    requires SenderAt(e, lost)
    ensures lost == 0 ==> SenderInv(e)
    ensures e.forgotten < MOD32 && SenderInv(e) ==> lost == 0
  {
    var fin := if e.s.finSent then 1 else 0;
    if e.forgotten < MOD32 && SenderInv(e) {
      SameNumberSamePlace(fin, e.first + e.forgotten - lost, e.first + e.forgotten);
    }
  }

  lemma {:induction false} QueuedGrows(e: Endpoint, evs: seq<Event>, i: nat)
    requires i <= |evs|
    ensures Run(e, evs[..i]).queued <= Run(e, evs).queued
  {
    hide Step;
    if i == |evs| {
      assert evs[..i] == evs;
    } else {
      var n := |evs| - 1;
      assert evs[..n][..i] == evs[..i];
      QueuedGrows(e, evs[..n], i);
      StepOneWay(Run(e, evs[..n]), evs[n]);
    }
  }

  lemma CarriesAtExtends(g: Segment, first: U32, a: seq<Byte>, b: seq<Byte>, pos: int)
    requires CarriesAt(g, first, a, pos) && a <= b
    ensures CarriesAt(g, first, b, pos)
  {
  }

  /**
   * Sender theorem. In every run each data segment, first transmission or repeat,
   * carries the next bytes of the stream, never more than mss of them, and while
   * fewer than 2^32 have left the buffer it carries them under their own number
   * if and only if no abort so far found anything in the buffer.
   */
  lemma EveryDataSegmentIsTrue(e: Endpoint, evs: seq<Event>, i: nat, g: Segment)
    requires Fresh(e) && i < |evs| && g in Emitted(e, evs, i) && g.payload != []
    ensures |g.payload| <= e.s.mss
    ensures var pos, queued := Run(e, evs[..i]).forgotten, Run(e, evs).queued;
            && pos + |g.payload| <= |queued| && g.payload == queued[pos..pos + |g.payload|]
            && g.seqNr == Add(e.first, pos - Lost(e, evs[..i]))
            && (CleanRun(e, evs[..i]) ==> CarriesAt(g, e.first, queued, pos))
            && (pos < MOD32 && CarriesAt(g, e.first, queued, pos) ==> CleanRun(e, evs[..i]))
  {
    hide *;
    var r := Run(e, evs[..i]);
    EmittedIs(e, evs, i);
    SenderAlways(e, evs[..i]);
    CleanIffNothingLost(e, evs[..i]);
    QueuedGrows(e, evs, i);
    DataEmitted(r, evs[i], g);
    DataPlaced(r, g, Lost(e, evs[..i]), Run(e, evs).queued);
  }

  lemma EmittedIs(e: Endpoint, evs: seq<Event>, i: nat)
    requires i < |evs|
    ensures Emitted(e, evs, i) == Step(Run(e, evs[..i]), evs[i]).out
  {
    hide Step, Run;
  }

  lemma DataPlaced(r: Endpoint, g: Segment, lost: nat, later: seq<Byte>)
    requires SenderAt(r, lost) && !r.s.finSent && r.queued <= later
    requires g.seqNr == r.s.localSeq && |g.payload| <= |r.s.buf| && g.payload == r.s.buf[..|g.payload|]
    ensures var pos := r.forgotten;
            && pos + |g.payload| <= |later| && g.payload == later[pos..pos + |g.payload|]
            && g.seqNr == Add(r.first, pos - lost)
            && (lost == 0 ==> CarriesAt(g, r.first, later, pos))
            && (pos < MOD32 && CarriesAt(g, r.first, later, pos) ==> lost == 0)
  {
    assert Add(r.first + r.forgotten - lost, 0) == Add(r.first, r.forgotten - lost);
    if r.forgotten < MOD32 && g.seqNr == Add(r.first, r.forgotten) {
      SameNumberSamePlace(r.first, r.forgotten - lost, r.forgotten);
    }
    hide Add;
  }

  // ----- what the sender sends, and when again --------------------------------

  /** How many bytes a visit of the sender thread can send from here. */
  function Sendable(e: Endpoint): nat
    requires e.forgotten <= |e.queued|
  {
    Min(|e.queued| - e.forgotten, Min(e.s.mss, 65536))
  }

  /**
   * One visit of the sender thread, in terms of the stream. It sends exactly when
   * nothing is in flight, no FIN has gone out and there is something to send: the
   * next bytes, as many as fit, with a FIN if they are the last and the application
   * asked for it. Refused bytes count as sent, a refused lone FIN does not.
   */
  lemma TickSends(e: Endpoint, accepted: bool)
    requires SenderInv(e) && e.live
    ensures var m := Step(e, Tick(accepted));
            var n := Sendable(e);
            var fin := e.s.l7SendFin && e.forgotten + n == |e.queued|;
            var sends := e.s.inFlight == 0 && !e.s.finSent && (n > 0 || (fin && accepted));
            && m.out == (if sends && accepted
                         then [Segment(e.s.localSeq, e.s.peerSeq, Flags(fin, false, false, true, true),
                                       e.queued[e.forgotten..e.forgotten + n])]
                         else [])
            && m.e == e.(s := m.e.s)
            && m.e.s == (if sends
                         then e.s.(inFlight := n, finSent := fin, localSeq := Add(e.s.localSeq, if fin then 1 else 0))
                         else e.s)
  {
    var n := Sendable(e);
    assert NextChunk(e.s) == e.queued[e.forgotten..e.forgotten + n];
    AddNothing(e.s.localSeq);
    hide Add, NextChunk;
  }

  /**
   * What an acknowledgement does, in plain integers: one beyond what is in flight
   * is ignored; any other ends the wait, moves the sender on by what it covers,
   * and an old or repeated one leaves it where it is, to send again.
   */
  lemma AckEffect(e: Endpoint, g: Segment, env: Sends)
    requires SenderInv(e) && e.live && !e.s.phase.Closed? && !g.flags.syn && !g.flags.rst && g.flags.ack
    ensures var r := Step(e, Arrive(g, env)).e;
            var n := g.ackNr - e.s.localSeq;
            && r.queued == e.queued && r.s.finSent == e.s.finSent && r.s.l7SendFin == e.s.l7SendFin
            && if n > e.s.inFlight
               then r.s.inFlight == e.s.inFlight && r.forgotten == e.forgotten && r.s.localSeq == e.s.localSeq
               else && r.s.inFlight == 0 && r.forgotten == e.forgotten + (if n > 0 then n else 0)
                    && r.s.localSeq == if n > 0 then g.ackNr else e.s.localSeq
  {
    AckInNumbers(e.s, g.ackNr);
    ArrivalSender(e, g, env);
    hide Step, AckIn, Add, Sub;
  }

  lemma AckInNumbers(s: Session, ackNr: U32)
    requires s.inFlight <= |s.buf|
    ensures var t := AckIn(s, ackNr);
            var n := ackNr - s.localSeq;
            if n > s.inFlight
            then t == s
            else && t.inFlight == 0 && |t.buf| == |s.buf| - (if n > 0 then n else 0)
                 && t.localSeq == if n > 0 then ackNr else s.localSeq
  {
    var n := ackNr - s.localSeq;
    if n >= 0 {
      assert Sub(ackNr, s.localSeq) == n && Add(s.localSeq, n) == ackNr;
      hide Add, Sub;
    }
  }

  /** What an arrival leaves of the sending side. */
  lemma ArrivalSender(x: Endpoint, g: Segment, env: Sends)
    requires x.live && !x.s.phase.Closed? && g.flags.ack && !g.flags.syn && !g.flags.rst
    ensures var m := Step(x, Arrive(g, env));
            && SameSender(AckIn(x.s, g.ackNr), m.e.s) && m.e.queued == x.queued && m.e.first == x.first
            && m.e.forgotten == x.forgotten + |x.s.buf| - |AckIn(x.s, g.ackNr).buf|
  {
    hide AckIn, Add;
  }

  /**
   * Recovery. At any point of any run that has lost nothing, an acknowledgement
   * that is not beyond what is in flight makes the next visit of the sender send
   * the bytes from the first one not acknowledged, at their own number, whatever
   * was in flight before; once the FIN has been sent it sends nothing.
   */
  lemma AckBringsResend(e: Endpoint, evs: seq<Event>, g: Segment, env: Sends)
    requires Fresh(e) && e.s.mss > 0 && CleanRun(e, evs)
    requires var r := Run(e, evs);
             r.live && !r.s.phase.Closed? && g.ackNr - r.s.localSeq <= r.s.inFlight
    requires !g.flags.syn && !g.flags.rst && g.flags.ack
    ensures var r := Run(e, evs);
            var t := Step(r, Arrive(g, env)).e;
            var out := Step(t, Tick(true)).out;
            && r.forgotten <= t.forgotten <= |t.queued| && t.queued == r.queued
            && (r.s.finSent ==> out == [])
            && (!r.s.finSent && t.forgotten < |t.queued| ==>
                  && |out| == 1 && out[0].seqNr == Add(e.first, t.forgotten)
                  && out[0].payload == t.queued[t.forgotten..t.forgotten + Sendable(t)] && out[0].payload != [])
  {
    hide Step, Run, CleanRun, Fresh, Add;
    var r := Run(e, evs);
    SenderAlways(e, evs);
    AckEffect(r, g, env);
    SenderStep(r, Arrive(g, env));
    StepOneWay(r, Arrive(g, env));
    var t := Step(r, Arrive(g, env)).e;
    Arrival(r, g, env);
    TickSends(t, true);
    AddZero(t.first, t.forgotten);
  }

  lemma AddZero(first: U32, n: nat)
    ensures Add(first + n, 0) == Add(first, n)
  {
  }

  lemma {:induction false} MssStays(e: Endpoint, evs: seq<Event>)
    ensures Run(e, evs).s.mss == e.s.mss
  {
    hide Step;
    if evs != [] {
      MssStays(e, evs[..|evs| - 1]);
      StepOneWay(Run(e, evs[..|evs| - 1]), evs[|evs| - 1]);
    }
  }

  /** No segment of any session in any run has more than mss bytes. */
  lemma NoSegmentAboveMss(e: Endpoint, evs: seq<Event>, i: nat, g: Segment)
    requires i < |evs| && g in Emitted(e, evs, i)
    ensures |g.payload| <= e.s.mss
  {
    hide Step;
    MssStays(e, evs[..i]);
    if g.payload != [] {
      DataEmitted(Run(e, evs[..i]), evs[i], g);
    }
  }

  lemma {:induction false} ChunksConcatenate(seqNr: U32, ackNr: U32, flags: Flags, payload: seq<Byte>, mss: nat)
    requires mss > 0 || payload == []
    ensures Payloads(Chunks(seqNr, ackNr, flags, payload, mss)) == payload
    decreases |payload|
  {
    hide Add;
    var gs := Chunks(seqNr, ackNr, flags, payload, mss);
    if |payload| <= mss {
      assert gs[1..] == [];
    } else {
      ChunksConcatenate(Add(seqNr, mss), ackNr, flags, payload[mss..], mss);
      assert gs[1..] == Chunks(Add(seqNr, mss), ackNr, flags, payload[mss..], mss);
      assert payload[..mss] + payload[mss..] == payload;
    }
  }

  /** Chunk i starts where the chunks before it end. */
  lemma {:induction false} ChunkCarries(seqNr: U32, ackNr: U32, flags: Flags, payload: seq<Byte>, mss: nat, i: nat)
    requires (mss > 0 || payload == []) && i < |Chunks(seqNr, ackNr, flags, payload, mss)|
    ensures var gs := Chunks(seqNr, ackNr, flags, payload, mss);
            && |gs[i].payload| <= mss && CarriesAt(gs[i], seqNr, payload, |Payloads(gs[..i])|)
            && gs[i].flags == flags && gs[i].ackNr == ackNr && (i < |gs| - 1 ==> |gs[i].payload| == mss)
    decreases |payload|
  {
    var gs := Chunks(seqNr, ackNr, flags, payload, mss);
    if i == 0 {
      FirstCarry(gs[0], seqNr, payload);
    } else {
      var rest := Chunks(Add(seqNr, mss), ackNr, flags, payload[mss..], mss);
      assert gs[1..] == rest && gs[i] == rest[i - 1];
      ChunkCarries(Add(seqNr, mss), ackNr, flags, payload[mss..], mss, i - 1);
      assert gs[..i][1..] == rest[..i - 1] && gs[..i][0] == gs[0];
      hide Chunks, Add, CarriesAt;
      ShiftedCarry(gs[i], seqNr, payload, mss, |Payloads(rest[..i - 1])|);
    }
  }

  /** send_tcp_packet cuts a payload into consecutive, correctly numbered chunks of at most mss bytes. */
  lemma ChunksTilePayload(seqNr: U32, ackNr: U32, flags: Flags, payload: seq<Byte>, mss: nat)
    requires mss > 0 || payload == []
    ensures var gs := Chunks(seqNr, ackNr, flags, payload, mss);
            && Payloads(gs) == payload
            && forall i :: 0 <= i < |gs| ==>
                 && |gs[i].payload| <= mss && CarriesAt(gs[i], seqNr, payload, |Payloads(gs[..i])|)
                 && gs[i].flags == flags && gs[i].ackNr == ackNr && (i < |gs| - 1 ==> |gs[i].payload| == mss)
  {
    hide *;
    ChunksConcatenate(seqNr, ackNr, flags, payload, mss);
    forall i | 0 <= i < |Chunks(seqNr, ackNr, flags, payload, mss)|
      ensures var gs := Chunks(seqNr, ackNr, flags, payload, mss);
              && |gs[i].payload| <= mss && CarriesAt(gs[i], seqNr, payload, |Payloads(gs[..i])|)
              && gs[i].flags == flags && gs[i].ackNr == ackNr && (i < |gs| - 1 ==> |gs[i].payload| == mss)
    {
      ChunkCarries(seqNr, ackNr, flags, payload, mss, i);
    }
  }

  lemma FirstCarry(g: Segment, seqNr: U32, payload: seq<Byte>)
    requires |g.payload| <= |payload| && g.seqNr == seqNr && g.payload == payload[..|g.payload|]
    ensures CarriesAt(g, seqNr, payload, 0)
  {
  }

  lemma ShiftedCarry(g: Segment, seqNr: U32, payload: seq<Byte>, mss: nat, pos: nat)
    requires mss <= |payload| && CarriesAt(g, Add(seqNr, mss), payload[mss..], pos)
    ensures CarriesAt(g, seqNr, payload, mss + pos)
  {
    AddTwice(seqNr, mss, pos);
    hide Add;
    var n := |g.payload|;
    assert payload[mss..][pos..pos + n] == payload[mss + pos..mss + pos + n];
  }

  // ----- closing -----------------------------------------------------------

  predicate OneWay(a: Session, b: Session) {
    && (a.halfClosed ==> b.halfClosed)
    && (a.finSent ==> b.finSent)
    && (a.l7SendFin ==> b.l7SendFin)
    && (a.phase.Closed? ==> b.phase.Closed?)
  }

  /** The close flags never go back, between any two moments of a run. */
  lemma {:induction false} CloseFlagsOneWay(e: Endpoint, evs: seq<Event>, i: nat)
    requires i <= |evs|
    ensures OneWay(Run(e, evs[..i]).s, Run(e, evs).s)
  {
    hide Step;
    if i == |evs| {
      assert evs[..i] == evs;
    } else {
      var n := |evs| - 1;
      assert evs[..n][..i] == evs[..i];
      CloseFlagsOneWay(e, evs[..n], i);
      StepOneWay(Run(e, evs[..n]), evs[n]);
    }
  }

  /**
   * Close theorem. A FIN leaves only when the application asked for it, on a
   * segment that ends at the last queued byte, and under the number of that place
   * if no abort dropped anything; no later step of the run, closed or not, sends
   * another FIN or any data.
   */
  lemma FinIsLast(e: Endpoint, evs: seq<Event>, i: nat, g: Segment)
    requires Fresh(e) && i < |evs| && g in Emitted(e, evs, i) && g.flags.fin
    ensures var r := Run(e, evs[..i]);
            && r.s.l7SendFin && r.forgotten <= |r.queued| && g.payload == r.queued[r.forgotten..]
            && (CleanRun(e, evs[..i]) ==> CarriesAt(g, e.first, r.queued, |r.queued| - |g.payload|))
    ensures forall j, h :: i < j < |evs| && h in Emitted(e, evs, j) ==> h.payload == [] && !h.flags.fin
  {
    hide *;
    FinAtEnd(e, evs, i, g);
    forall j, h | i < j < |evs| && h in Emitted(e, evs, j)
      ensures h.payload == [] && !h.flags.fin
    {
      QuietAfterFin(e, evs, i, j, h);
    }
  }

  lemma FinAtEnd(e: Endpoint, evs: seq<Event>, i: nat, g: Segment)
    requires Fresh(e) && i < |evs| && g in Emitted(e, evs, i) && g.flags.fin
    ensures var r := Run(e, evs[..i]);
            && r.s.l7SendFin && r.forgotten <= |r.queued| && g.payload == r.queued[r.forgotten..]
            && (CleanRun(e, evs[..i]) ==> CarriesAt(g, e.first, r.queued, |r.queued| - |g.payload|))
    ensures Run(e, evs[..i + 1]).s.finSent
  {
    hide Step, CleanRun, Fresh, CarriesAt, Lost, SenderInv;
    SenderAlways(e, evs[..i]);
    FinEmitted(Run(e, evs[..i]), evs[i], g);
    if CleanRun(e, evs[..i]) {
      EmittedStep(Run(e, evs[..i]), evs[i], g);
    }
    assert evs[..i + 1][..i] == evs[..i];
  }

  lemma QuietAfterFin(e: Endpoint, evs: seq<Event>, i: nat, j: nat, h: Segment)
    requires i < j < |evs| && Run(e, evs[..i + 1]).s.finSent && h in Emitted(e, evs, j)
    ensures h.payload == [] && !h.flags.fin
  {
    hide Step, Run;
    assert evs[..j][..i + 1] == evs[..i + 1];
    CloseFlagsOneWay(e, evs[..j], i + 1);
    SilentAfterFin(Run(e, evs[..j]), evs[j], h);
  }

  lemma FinEmitted(e: Endpoint, ev: Event, g: Segment)
    requires g in Step(e, ev).out && g.flags.fin
    ensures g.payload == e.s.buf && e.s.l7SendFin && Step(e, ev).e.s.finSent
  {
  }

  lemma SilentAfterFin(e: Endpoint, ev: Event, h: Segment)
    requires e.s.finSent && h in Step(e, ev).out
    ensures h.payload == [] && !h.flags.fin
  {
  }

  /** After a close, data can still be queued, and then no longer matches its number. */
  lemma ClosedSenderLosesItsPlace(e: Endpoint, env: Sends)
    requires Fresh(e) && e.s.mss > 0
    ensures var e1 := Step(e, FromApp([65, 66], false)).e;
            var e2 := Step(e1, Arrive(Segment(0, 0, RST, []), env)).e;
            var e3 := Step(e2, FromApp([67], false)).e;
            && e3.queued == [65, 66, 67]
            && exists g :: g in Step(e3, Tick(true)).out && g.seqNr == e.first && g.payload == [67]
  {
  }

  /**
   * The same without a reset between the writes: any segment at all for a session
   * that is already closed drops what has been queued since.
   */
  lemma ClosedSenderDropsAgain(e: Endpoint, g: Segment, env: Sends)
    requires Fresh(e) && e.s.mss > 0
    ensures var e1 := Step(e, Arrive(Segment(0, 0, RST, []), env)).e;
            var e2 := Step(e1, FromApp([65], false)).e;
            var e3 := Step(e2, Arrive(g, env)).e;
            var e4 := Step(e3, FromApp([66], false)).e;
            && SenderInv(e1) && SenderInv(e2) && !SenderInv(e3) && e4.queued == [65, 66]
            && exists g :: g in Step(e4, Tick(true)).out && g.seqNr == e.first && g.payload == [66]
  {
  }

  // ----- the receiving side ------------------------------------------------

  /** A segment between handshake and FIN. */
  predicate Plain(g: Segment) {
    !g.flags.syn && !g.flags.rst && !g.flags.fin
  }

  predicate ReceiverInv(e: Endpoint, stream: seq<Byte>, peerFirst: U32) {
    && e.live && !e.s.phase.Closed? && !e.s.halfClosed
    && e.delivered <= stream
    && e.s.peerSeq == Add(peerFirst, |e.delivered|)
  }

  /** The peer may send any slice of its stream at any time, but not one 2^32 bytes away. */
  predicate FromPeer(e: Endpoint, ev: Event, stream: seq<Byte>, peerFirst: U32, pos: int) {
    ev.Arrive? ==>
      && Plain(ev.g)
      && CarriesAt(ev.g, peerFirst, stream, pos)
      && -MOD32 < pos - |e.delivered| < MOD32
      && ev.env.ack
  }

  /** What the step hands up: the payload if it is the next slice and the application has room. */
  function Taken(e: Endpoint, ev: Event, pos: int): seq<Byte> {
    if ev.Arrive? && ev.g.flags.ack && ev.env.l7 && pos == |e.delivered| then ev.g.payload else []
  }

  lemma SameNumberSamePlace(first: U32, a: int, b: int)
    requires -MOD32 < a - b < MOD32 && Add(first, a) == Add(first, b)
    ensures a == b
  {
  }

  /** The receiving half of a step, for any segment after the handshake. */
  lemma Arrival(e: Endpoint, g: Segment, env: Sends)
    requires e.live && !e.s.phase.Closed? && !g.flags.syn && !g.flags.rst && g.flags.ack
    ensures var m := Step(e, Arrive(g, env));
            var inOrder := g.seqNr == e.s.peerSeq && g.payload != [] && env.l7;
            var next := if inOrder && env.ack then Add(e.s.peerSeq, |g.payload|) else e.s.peerSeq;
            && m.e.live && m.e.s.phase == e.s.phase && m.e.s.halfClosed == (e.s.halfClosed || g.flags.fin)
            && m.e.delivered == e.delivered + (if inOrder then g.payload else [])
            && m.e.s.peerSeq == (if g.flags.fin && !e.s.halfClosed then Add(next, 1) else next)
            && (forall h :: h in m.out ==>
                  && h.flags == ACK && h.payload == [] && h.seqNr == m.e.s.localSeq
                  && (h.ackNr == next
                      || (g.flags.fin && !(inOrder && env.ack) && h.ackNr == Add(m.e.s.peerSeq, |g.payload|))))
            && (g.flags.fin && env.finAck && !(inOrder && env.ack) ==>
                  Segment(m.e.s.localSeq, Add(m.e.s.peerSeq, |g.payload|), ACK, []) in m.out)
  {
    hide AckIn;
    AppDataOf(g.payload, e.s.halfClosed);
    var d := DataIn(AckIn(e.s, g.ackNr), g, env);
    var o := Continue(AckIn(e.s, g.ackNr), g, env);
    assert o.up == if d.clean then d.up + [Close] else d.up;
    assert d.up == [] || d.up == [Data(g.payload, e.s.halfClosed)];
    assert [] + [Close] == [Close];
    assert [Data(g.payload, e.s.halfClosed)] + [Close] == [Data(g.payload, e.s.halfClosed), Close];
    assert SegmentIn(e.s, g, env) == o;
  }

  lemma AddTwice(a: int, b: int, c: int)
    ensures Add(Add(a, b), c) == Add(a, b + c)
  {
  }

  lemma ReceiverStep(e: Endpoint, ev: Event, stream: seq<Byte>, peerFirst: U32, pos: int)
    requires ReceiverInv(e, stream, peerFirst) && FromPeer(e, ev, stream, peerFirst, pos)
    ensures var m := Step(e, ev);
            && ReceiverInv(m.e, stream, peerFirst)
            && m.e.delivered == e.delivered + Taken(e, ev, pos)
            && forall h :: h in m.out ==> h.ackNr == Add(peerFirst, |m.e.delivered|)
  {
    hide Step, Add;
    if ev.Arrive? && ev.g.flags.ack {
      var g := ev.g;
      Arrival(e, g, ev.env);
      if g.seqNr == e.s.peerSeq {
        SameNumberSamePlace(peerFirst, pos, |e.delivered|);
        AddTwice(peerFirst, |e.delivered|, |g.payload|);
        assert e.delivered == stream[..pos];
        assert e.delivered + g.payload == stream[..pos + |g.payload|];
      }
    } else {
      QuietStep(e, ev);
    }
  }

  /** Local events, and segments that run_in ignores. */
  lemma QuietStep(e: Endpoint, ev: Event)
    requires ev.Arrive? ==> Plain(ev.g) && !ev.g.flags.ack && !e.s.phase.Closed?
    ensures var m := Step(e, ev);
            && m.e.live == e.live && m.e.s.phase == e.s.phase && m.e.s.halfClosed == e.s.halfClosed
            && m.e.s.peerSeq == e.s.peerSeq && m.e.delivered == e.delivered
            && forall h :: h in m.out ==> h.ackNr == e.s.peerSeq
  {
  }

  /** Step i of a run takes exactly the next slice, if that is what arrives, and acknowledges what is there. */
  ghost predicate StepRight(e: Endpoint, evs: seq<Event>, pos: seq<int>, peerFirst: U32, i: nat)
    requires |pos| == |evs| && i < |evs|
  {
    var before, after := Run(e, evs[..i]), Run(e, evs[..i + 1]);
    && after.delivered == before.delivered + Taken(before, evs[i], pos[i])
    && forall h :: h in Emitted(e, evs, i) ==> h.ackNr == Add(peerFirst, |after.delivered|)
  }

  lemma StepRightEarlier(e: Endpoint, evs: seq<Event>, pos: seq<int>, peerFirst: U32, n: nat, i: nat)
    requires |pos| == |evs| && i < n <= |evs| && StepRight(e, evs[..n], pos[..n], peerFirst, i)
    ensures StepRight(e, evs, pos, peerFirst, i)
  {
    hide Run, Step, Taken;
    assert evs[..n][..i] == evs[..i] && evs[..n][..i + 1] == evs[..i + 1];
    assert Emitted(e, evs, i) == Emitted(e, evs[..n], i);
  }

  lemma StepRightLast(e: Endpoint, evs: seq<Event>, pos: seq<int>, stream: seq<Byte>, peerFirst: U32, n: nat)
    requires |evs| == |pos| == n + 1 && ReceiverInv(Run(e, evs[..n]), stream, peerFirst)
    requires FromPeer(Run(e, evs[..n]), evs[n], stream, peerFirst, pos[n])
    ensures StepRight(e, evs, pos, peerFirst, n) && ReceiverInv(Run(e, evs), stream, peerFirst)
  {
    hide Step, Taken, ReceiverInv, FromPeer;
    assert evs[..n + 1] == evs;
    ReceiverStep(Run(e, evs[..n]), evs[n], stream, peerFirst, pos[n]);
  }

  /**
   * Receiver theorem. Whatever slices of the peer's stream arrive, in whatever
   * order and however often, the application has a prefix of the stream, a slice
   * is taken exactly when it is the next one, and every acknowledgement names
   * the first byte still missing.
   */
  lemma {:induction false} ReceiverAlways(e: Endpoint, evs: seq<Event>, pos: seq<int>,
                                          stream: seq<Byte>, peerFirst: U32)
    requires ReceiverInv(e, stream, peerFirst) && |pos| == |evs|
    requires forall i :: 0 <= i < |evs| ==> FromPeer(Run(e, evs[..i]), evs[i], stream, peerFirst, pos[i])
    ensures ReceiverInv(Run(e, evs), stream, peerFirst)
    ensures forall i :: 0 <= i < |evs| ==> StepRight(e, evs, pos, peerFirst, i)
  {
    hide Step, ReceiverInv, FromPeer, StepRight;
    if evs != [] {
      var n := |evs| - 1;
      forall i | 0 <= i < n
        ensures FromPeer(Run(e, evs[..n][..i]), evs[..n][i], stream, peerFirst, pos[..n][i])
      {
        assert evs[..n][..i] == evs[..i];
        assert FromPeer(Run(e, evs[..i]), evs[i], stream, peerFirst, pos[i]);
      }
      ReceiverAlways(e, evs[..n], pos[..n], stream, peerFirst);
      assert FromPeer(Run(e, evs[..n]), evs[n], stream, peerFirst, pos[n]);
      hide Run;
      StepRightLast(e, evs, pos, stream, peerFirst, n);
      forall i | 0 <= i < n
        ensures StepRight(e, evs, pos, peerFirst, i)
      {
        StepRightEarlier(e, evs, pos, peerFirst, n, i);
      }
    }
  }

  /**
   * After the handshake a client does not know a SYN/ACK it has had before. Of all
   * segments without FIN and RST, with acknowledgements queued, exactly that one
   * takes the expected number away from the delivered bytes.
   */
  lemma SynAckShiftsIff(e: Endpoint, g: Segment, env: Sends, peerFirst: U32)
    requires e.live && e.s.phase.Established? && !g.flags.fin && !g.flags.rst && env.ack
    requires e.s.peerSeq == Add(peerFirst, |e.delivered|)
    ensures var r := Step(e, Arrive(g, env)).e;
            r.s.peerSeq == Add(peerFirst, |r.delivered|) <==> !(e.s.isClient && g.flags.syn && g.flags.ack)
  {
    var r := Step(e, Arrive(g, env)).e;
    var n := |e.delivered|;
    AddTwice(peerFirst, n, |g.payload|);
    if e.s.isClient && g.flags.syn && g.flags.ack {
      SynAckAgain(e, g, env);
      AddTwice(peerFirst, n, 1);
      AddTwice(peerFirst, n + 1, |g.payload|);
      hide Step;
      NotOneOff(peerFirst, |r.delivered|);
    } else if g.flags.syn {
      SynQuiet(e, g, env);
    } else if g.flags.ack {
      hide Step, Add;
      Arrival(e, g, env);
    } else {
      hide Add;
      QuietStep(e, Arrive(g, env));
    }
  }

  /** A SYN/ACK for an established client counts once more, whatever else comes with it. */
  lemma SynAckAgain(e: Endpoint, g: Segment, env: Sends)
    requires e.live && e.s.phase.Established? && e.s.isClient && !g.flags.fin && !g.flags.rst && env.ack
    requires g.flags.syn && g.flags.ack
    ensures var r := Step(e, Arrive(g, env)).e;
            var next := Add(e.s.peerSeq, 1);
            || (r.delivered == e.delivered && r.s.peerSeq == next)
            || (r.delivered == e.delivered + g.payload && r.s.peerSeq == Add(next, |g.payload|))
  {
    hide Add;
    var t := e.s.(peerSeq := Add(e.s.peerSeq, 1));
    AppDataOf(g.payload, e.s.halfClosed);
    var o := Continue(t, g, env);
    assert o.up == [] || o.up == [Data(g.payload, e.s.halfClosed)];
    assert env.synAck ==> SegmentIn(e.s, g, env).up == o.up && SegmentIn(e.s, g, env).s == o.s;
  }

  /** Any other SYN leaves both alone. */
  lemma SynQuiet(e: Endpoint, g: Segment, env: Sends)
    requires e.live && e.s.phase.Established? && !g.flags.fin && !g.flags.rst
    requires g.flags.syn && !(e.s.isClient && g.flags.ack)
    ensures var r := Step(e, Arrive(g, env)).e; r.delivered == e.delivered && r.s.peerSeq == e.s.peerSeq
  {
    AppDataOf([], false);
  }

  lemma NotOneOff(first: U32, n: int)
    ensures Add(first, n + 1) != Add(first, n)
  {
  }

  /**
   * The expected number stays tied to the delivered bytes exactly when a taken
   * segment's acknowledgement could be queued; otherwise the application will
   * be handed the same bytes again.
   */
  lemma TakenOnceIffAcked(e: Endpoint, g: Segment, env: Sends, peerFirst: U32)
    requires e.live && e.s.phase.Established? && !e.s.halfClosed && Plain(g) && g.flags.ack
    requires e.s.peerSeq == Add(peerFirst, |e.delivered|) && 0 < |g.payload| < MOD32
    ensures var r := Step(e, Arrive(g, env)).e;
            r.s.peerSeq == Add(peerFirst, |r.delivered|) <==> (g.seqNr == e.s.peerSeq && env.l7 ==> env.ack)
  {
    hide Step;
    Arrival(e, g, env);
    var n := |e.delivered|;
    AddAssoc(peerFirst, n, |g.payload|);
    assert Add(peerFirst + |g.payload|, n) == Add(peerFirst, n + |g.payload|);
    if Add(peerFirst, n) == Add(peerFirst, n + |g.payload|) {
      SameNumberSamePlace(peerFirst, n, n + |g.payload|);
    }
  }

  /** And so it is: a repeated segment is handed up again exactly if its first acknowledgement could not be queued. */
  lemma RepeatTakenIffUnacked(e: Endpoint, g: Segment, env: Sends, again: Sends)
    requires e.live && !e.s.phase.Closed? && Plain(g) && g.flags.ack && 0 < |g.payload| < MOD32
    requires g.seqNr == e.s.peerSeq && env.l7 && again.l7 && again.ack
    ensures var r := Step(Step(e, Arrive(g, env)).e, Arrive(g, again)).e;
            && r.delivered == e.delivered + g.payload + (if env.ack then [] else g.payload)
            && r.s.peerSeq == Add(e.s.peerSeq, |g.payload|)
  {
    hide Step;
    Arrival(e, g, env);
    Arrival(Step(e, Arrive(g, env)).e, g, again);
    if Add(e.s.peerSeq, |g.payload|) == Add(e.s.peerSeq, 0) {
      SameNumberSamePlace(e.s.peerSeq, |g.payload|, 0);
    }
    AddNothing(e.s.peerSeq);
  }

  /** Where a FIN segment leaves the expected number. */
  lemma FinEffect(s: Session, g: Segment, env: Sends)
    requires s.phase.Established? && !s.halfClosed && !g.flags.syn && !g.flags.rst && g.flags.fin
    ensures var t := SegmentIn(s, g, env).s;
            var took := g.seqNr == s.peerSeq && g.payload != [] && env.l7 && env.ack;
            t.halfClosed && t.peerSeq == Add(if took then Add(s.peerSeq, |g.payload|) else s.peerSeq, 1)
  {
    hide AckIn, Add;
    if g.seqNr == s.peerSeq && g.payload == [] {
      assert Add(s.peerSeq, 0) == s.peerSeq by { AddNothing(s.peerSeq); }
    }
  }

  lemma AddNothing(a: U32)
    ensures Add(a, 0) == a
  {
  }

  /**
   * FIN is counted without looking at where the segment starts. The next expected
   * number is the one after the FIN exactly when the FIN's data was just taken or
   * had been taken before.
   */
  lemma FinCountsRightIff(s: Session, g: Segment, env: Sends)
    requires s.phase.Established? && !s.halfClosed && !g.flags.syn && !g.flags.rst && g.flags.fin && |g.payload| < MOD32
    ensures var t := SegmentIn(s, g, env).s;
            t.halfClosed
            && (t.peerSeq == Add(g.seqNr, |g.payload| + 1) <==>
                (g.seqNr == s.peerSeq && env.l7 && env.ack) || s.peerSeq == Add(g.seqNr, |g.payload|))
  {
    hide SegmentIn;
    FinEffect(s, g, env);
    var n := |g.payload|;
    var end := Add(g.seqNr, n);
    AddAssoc(g.seqNr, n, 1);
    assert Add(end, 1) == Add(g.seqNr, n + 1);
    AddNothing(g.seqNr);
    OneApart(s.peerSeq, end);
  }

  /** Adding one tells two numbers apart as they were. */
  lemma OneApart(a: U32, b: U32)
    ensures Add(a, 1) == Add(b, 1) <==> a == b
  {
  }
}

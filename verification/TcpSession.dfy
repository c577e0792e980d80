/**
 * The TCP session engine (src/tcp_server.cpp).
 *
 * A session is changed by three atomic steps: a segment that comes in (run_in),
 * bytes or a FIN request from the application (run_out), and one visit of the
 * sender thread. The first half of this module gives each step as a function on
 * session values; the second half is the mutable session, whose methods follow
 * the code and are proved to perform exactly those steps.
 *
 * Whether a message queue accepts what is sent to it is decided by its reader,
 * so every step takes the outcomes of its sends as input.
 */
module TcpSession {
  import opened Bytes

  /** The sender thread's buffer. */
  const SENDER_BUFFER := 65536

  datatype Flags = Flags(fin: bool, syn: bool, rst: bool, psh: bool, ack: bool)

  const ACK := Flags(false, false, false, false, true)
  const RST := Flags(false, false, true, false, false)
  const SYN := Flags(false, true, false, false, false)
  const SYN_ACK := Flags(false, true, false, false, true)

  datatype Segment = Segment(seqNr: U32, ackNr: U32, flags: Flags, payload: seq<Byte>)

  /** What the application is told. */
  datatype L7Message = Data(bytes: seq<Byte>, fin: bool) | Close

  /** The only states the code ever assigns. */
  datatype Phase = SynSent | Established | Closed

  datatype Session = Session(
    isClient: bool,
    phase: Phase,
    localSeq: U32,
    peerSeq: U32,
    mss: nat,
    halfClosed: bool,
    l7SendFin: bool,
    finSent: bool,
    inFlight: nat,
    buf: seq<Byte>)

  /** Outcomes of the sends one inbound segment can cause, and the SYN cookie of the moment. */
  datatype Sends = Sends(l7: bool, ack: bool, finAck: bool, synAck: bool, rst: bool, cookie: U32)

  datatype Outcome = Outcome(s: Session, out: seq<Segment>, up: seq<L7Message>, erased: bool)

  /** 32-bit addition and subtraction. */
  function Add(a: int, b: int): U32 {
    (a + b) % MOD32
  }

  function Sub(a: int, b: int): U32 {
    (a - b) % MOD32
  }

  // ----- an inbound segment ------------------------------------------------

  /** b is a apart from what only the receiving side changes. */
  predicate SameSender(a: Session, b: Session) {
    b == a.(phase := b.phase, peerSeq := b.peerSeq, halfClosed := b.halfClosed)
  }

  /** Segments that carry neither data nor FIN. */
  predicate ControlOnly(gs: seq<Segment>) {
    forall h :: h in gs ==> h.payload == [] && !h.flags.fin
  }

  /** The acknowledgement step of the stop-and-wait sender; the comparison is a plain one. */
  function AckIn(s: Session, ackNr: U32): (t: Session)
    ensures t == s.(localSeq := t.localSeq, buf := t.buf, inFlight := t.inFlight) && |t.buf| <= |s.buf|
  {
    var n := Sub(ackNr, s.localSeq);
    if ackNr < s.localSeq then
      s.(inFlight := 0)
    else if n <= s.inFlight then
      s.(buf := s.buf[Min(n, |s.buf|)..], localSeq := Add(s.localSeq, n), inFlight := 0)
    else
      s
  }

  function AckSegment(s: Session, ackNr: U32): Segment {
    Segment(s.localSeq, ackNr, ACK, [])
  }

  datatype Receipt = Receipt(s: Session, out: seq<Segment>, up: seq<L7Message>, acked: bool, clean: bool)

  /** Only a segment that starts exactly at the expected number is taken. */
  function DataIn(s: Session, g: Segment, env: Sends): (r: Receipt)
    ensures r.s == s.(peerSeq := r.s.peerSeq) && ControlOnly(r.out)
  {
    if g.seqNr != s.peerSeq then
      Receipt(s, if env.ack then [AckSegment(s, s.peerSeq)] else [], [], false, !env.ack)
    else if g.payload != [] && !env.l7 then
      Receipt(s, [], [], false, false)
    else
      var up := if g.payload == [] then [] else [Data(g.payload, s.halfClosed)];
      if g.flags.ack && g.payload == [] then
        Receipt(s, [], up, false, false)
      else if env.ack then
        var next := Add(s.peerSeq, |g.payload|);
        Receipt(s.(peerSeq := next), [AckSegment(s, next)], up, true, false)
      else
        Receipt(s, [], up, false, true)
  }

  datatype FinReceipt = FinReceipt(s: Session, out: seq<Segment>)

  function FinIn(s: Session, g: Segment, acked: bool, env: Sends): (r: FinReceipt)
    ensures SameSender(s, r.s) && r.s.phase == s.phase && ControlOnly(r.out)
    ensures r.s.halfClosed == (s.halfClosed || g.flags.fin)
  {
    if !g.flags.fin then
      FinReceipt(s, [])
    else
      var t := if s.halfClosed then s else s.(peerSeq := Add(s.peerSeq, 1), halfClosed := true);
      FinReceipt(t, if !acked && env.finAck then [AckSegment(t, Add(t.peerSeq, |g.payload|))] else [])
  }

  /** Data, then FIN, then the CLOSE notice when an acknowledgement could not be queued. */
  function Continue(s: Session, g: Segment, env: Sends): (o: Outcome)
    ensures SameSender(s, o.s) && o.s.phase == s.phase && ControlOnly(o.out) && !o.erased
    ensures o.s.halfClosed == (s.halfClosed || g.flags.fin)
  {
    var d := DataIn(s, g, env);
    var f := FinIn(d.s, g, d.acked, env);
    Outcome(f.s, d.out + f.out, d.up + if d.clean then [Close] else [], false)
  }

  /** The clean label for an invalid segment: maybe RST, closed for good, buffers emptied. */
  function Abort(s: Session, g: Segment, withRst: bool, afterSyn: bool, env: Sends): (o: Outcome)
    ensures o.s == s.(phase := Closed, buf := []) && ControlOnly(o.out)
  {
    Outcome(
      s.(phase := Closed, buf := []),
      if withRst && env.rst then [Segment(s.localSeq, Add(g.seqNr, if afterSyn then 1 else 0), RST, [])] else [],
      [Close],
      false)
  }

  function SynIn(s: Session, g: Segment, env: Sends): (o: Outcome)
    ensures ControlOnly(o.out) && (s.halfClosed ==> o.s.halfClosed)
    ensures SameSender(s, o.s) || (o.s.phase.Closed? && SameSender(s.(buf := []), o.s))
  {
    if s.isClient then
      if !g.flags.ack then
        var f := FinIn(s, g, false, env);
        var a := Abort(f.s, g, true, true, env);
        a.(out := f.out + a.out)
      else
        var base := if s.phase.Established? then s.peerSeq else g.seqNr;
        var t := s.(phase := Established, peerSeq := Add(base, 1));
        if env.synAck then
          var o := Continue(t, g, env);
          o.(out := [AckSegment(t, t.peerSeq)] + o.out)
        else
          Outcome(t, [], [Close], false)
    else if !s.phase.Established? then
      Outcome(s, [Segment(env.cookie, Add(g.seqNr, 1), SYN_ACK, [])], [], false)
    else
      Outcome(s, [], [], s.finSent && s.halfClosed)
  }

  /** The session once the acknowledgement in g, if it is looked at, has been processed. */
  function AfterAck(s: Session, g: Segment): Session {
    if !s.phase.Closed? && !g.flags.rst && !g.flags.syn && g.flags.ack then AckIn(s, g.ackNr) else s
  }

  /** run_in, for a segment that belongs to a known session. */
  function SegmentIn(s: Session, g: Segment, env: Sends): (o: Outcome)
    ensures ControlOnly(o.out) && (s.halfClosed ==> o.s.halfClosed) && (s.phase.Closed? ==> o.s.phase.Closed?)
    ensures SameSender(AfterAck(s, g), o.s) || (o.s.phase.Closed? && SameSender(s.(buf := []), o.s))
  {
    if s.phase.Closed? then
      Abort(s, g, true, false, env)
    else if g.flags.rst then
      Abort(s, g, false, false, env)
    else if g.flags.syn then
      SynIn(s, g, env)
    else if g.flags.ack then
      Continue(AckIn(s, g.ackNr), g, env)
    else if g.flags.fin then
      Continue(s, g, env)
    else
      Outcome(s, [], [], false)
  }

  // ----- what a segment is answered with -------------------------------------

  function Answer(when: bool, seqNr: U32, ackNr: U32): seq<Segment> {
    if when then [Segment(seqNr, ackNr, ACK, [])] else []
  }

  /**
   * Everything that is sent for a segment after the handshake. Data in its place
   * goes up; it, a segment out of place and an empty one without ACK call for an
   * acknowledgement, and if that cannot be queued the application is told to
   * close; a FIN is acknowledged on its own unless that has just been done.
   */
  lemma AnswersTo(s: Session, g: Segment, env: Sends)
    requires !s.phase.Closed? && !g.flags.rst && !g.flags.syn && (g.flags.ack || g.flags.fin)
    ensures var o := SegmentIn(s, g, env);
            var here := g.seqNr == s.peerSeq;
            var taken := here && g.payload != [] && env.l7;
            var due := !here || taken || (g.payload == [] && !g.flags.ack);
            var next := if here && due && env.ack then Add(s.peerSeq, |g.payload|) else s.peerSeq;
            && o.out == Answer(due && env.ack, o.s.localSeq, next)
                        + Answer(g.flags.fin && env.finAck && !(here && due && env.ack),
                                 o.s.localSeq, Add(o.s.peerSeq, |g.payload|))
            && o.up == (if taken then [Data(g.payload, s.halfClosed)] else [])
                       + (if due && !env.ack then [Close] else [])
            && o.s.peerSeq == (if g.flags.fin && !s.halfClosed then Add(next, 1) else next)
            && o.s.phase == s.phase && !o.erased
  {
    hide AckIn, Add, DataIn, FinIn;
    var t := if g.flags.ack then AckIn(s, g.ackNr) else s;
    assert SegmentIn(s, g, env) == Continue(t, g, env);
    hide SegmentIn;
    DataAnswers(t, g, env);
    var d := DataIn(t, g, env);
    FinAnswers(d.s, g, d.acked, env);
  }

  lemma DataAnswers(s: Session, g: Segment, env: Sends)
    ensures var d := DataIn(s, g, env);
            var here := g.seqNr == s.peerSeq;
            var taken := here && g.payload != [] && env.l7;
            var due := !here || taken || (g.payload == [] && !g.flags.ack);
            var next := if here && due && env.ack then Add(s.peerSeq, |g.payload|) else s.peerSeq;
            && d.out == Answer(due && env.ack, s.localSeq, next) && d.s == s.(peerSeq := next)
            && d.up == (if taken then [Data(g.payload, s.halfClosed)] else [])
            && d.clean == (due && !env.ack) && d.acked == (here && due && env.ack)
  {
    hide Add;
  }

  lemma FinAnswers(s: Session, g: Segment, acked: bool, env: Sends)
    ensures var f := FinIn(s, g, acked, env);
            && f.s == s.(peerSeq := if g.flags.fin && !s.halfClosed then Add(s.peerSeq, 1) else s.peerSeq,
                         halfClosed := s.halfClosed || g.flags.fin)
            && f.out == Answer(g.flags.fin && env.finAck && !acked, s.localSeq, Add(f.s.peerSeq, |g.payload|))
  {
    hide Add;
  }

  /** A closed session answers every segment with RST; a reset is not answered; both close and empty the session. */
  lemma ResetAnswers(s: Session, g: Segment, env: Sends)
    requires s.phase.Closed? || g.flags.rst
    ensures var o := SegmentIn(s, g, env);
            && o.s == s.(phase := Closed, buf := []) && o.up == [Close] && !o.erased
            && o.out == if s.phase.Closed? && env.rst then [Segment(s.localSeq, g.seqNr, RST, [])] else []
  {
    assert Add(g.seqNr, 0) == g.seqNr;
    hide Add;
  }

  /**
   * A SYN that is not a SYN/ACK for a client: reset, answered with a cookie,
   * ignored, or the end of a finished session.
   */
  lemma SynAnswers(s: Session, g: Segment, env: Sends)
    requires !s.phase.Closed? && !g.flags.rst && g.flags.syn && !(s.isClient && g.flags.ack)
    ensures var o := SegmentIn(s, g, env);
            if s.isClient then
              && o.s.phase.Closed? && o.s.buf == [] && o.up == [Close] && !o.erased
              && o.s.peerSeq == (if g.flags.fin && !s.halfClosed then Add(s.peerSeq, 1) else s.peerSeq)
              && o.out == Answer(g.flags.fin && env.finAck, s.localSeq, Add(o.s.peerSeq, |g.payload|))
                          + if env.rst then [Segment(s.localSeq, Add(g.seqNr, 1), RST, [])] else []
            else
              && o.s == s && o.up == []
              && o.out == (if s.phase.Established? then [] else [Segment(env.cookie, Add(g.seqNr, 1), SYN_ACK, [])])
              && (o.erased <==> s.phase.Established? && s.finSent && s.halfClosed)
  {
    hide Add;
  }

  /** A plain SYN/ACK for a client: the peer's first number is known, and acknowledged if that can be queued. */
  lemma SynAckAnswers(s: Session, g: Segment, env: Sends)
    requires s.isClient && s.phase.SynSent? && g.flags == SYN_ACK && g.payload == []
    ensures var o := SegmentIn(s, g, env);
            && o.s == s.(phase := Established, peerSeq := Add(g.seqNr, 1)) && !o.erased
            && (if env.synAck then |o.out| > 0 && o.out[0] == Segment(s.localSeq, Add(g.seqNr, 1), ACK, [])
                else o.out == [] && o.up == [Close])
  {
    assert g.seqNr != Add(g.seqNr, 1);
    hide Add;
  }

  // ----- application and sender --------------------------------------------

  function FromL7(s: Session, bytes: seq<Byte>, fin: bool): Session {
    s.(buf := s.buf + bytes, l7SendFin := s.l7SendFin || fin)
  }

  /** What the sender thread would put in its next segment. */
  function NextChunk(s: Session): seq<Byte> {
    s.buf[..Min(|s.buf|, Min(SENDER_BUFFER, s.mss))]
  }

  datatype Sent = Sent(s: Session, out: seq<Segment>)

  /**
   * One visit of the sender thread. A segment with payload counts as sent even
   * when the queue refused it; a refused lone FIN does not.
   */
  function SenderTick(s: Session, accepted: bool): Sent {
    var chunk := NextChunk(s);
    var sendFin := |chunk| == |s.buf| && s.l7SendFin;
    if s.inFlight != 0 || s.finSent || (chunk == [] && !sendFin) || (chunk == [] && !accepted) then
      Sent(s, [])
    else
      Sent(
        s.(localSeq := if sendFin then Add(s.localSeq, 1) else s.localSeq, finSent := sendFin, inFlight := |chunk|),
        if accepted then [Segment(s.localSeq, s.peerSeq, Flags(sendFin, false, false, true, true), chunk)] else [])
  }

  // ----- the mutable session -----------------------------------------------

  /** tcp_data: the growable byte buffer between application and network. */
  class TcpData {
    var p: array<Byte>
    var len: nat

    ghost predicate Valid()
      reads this
    {
      len <= p.Length
    }

    ghost function Contents(): seq<Byte>
      requires Valid()
      reads this, p
    {
      p[..len]
    }

    constructor ()
      ensures Valid() && Contents() == [] && fresh(p)
    {
      p := new Byte[0];
      len := 0;
    }

    method Peek(max: nat) returns (target: seq<Byte>, all: bool)
      requires Valid()
      ensures target == Contents()[..Min(|Contents()|, max)]
      ensures all <==> target == Contents()
    {
      var n := Min(len, max);
      target := p[..n];
      all := len == n;
    }

    /** Drops acknowledged bytes from the front, moving the rest down in place. */
    method Forget(n: nat)
      requires Valid()
      modifies this`len, p
      ensures Valid() && Contents() == old(Contents())[Min(n, |old(Contents())|)..]
    {
      var k := Min(n, len);
      var left := len - k;
      forall i | 0 <= i < left {
        p[i] := p[i + k];
      }
      len := left;
      assert p[..left] == old(p[..len])[k..];
    }

    method ForgetAll()
      requires Valid()
      modifies this`len
      ensures Valid() && Contents() == []
    {
      len := 0;
    }

    method Append(what: seq<Byte>)
      requires Valid()
      modifies this
      ensures Valid() && fresh(p) && Contents() == old(Contents()) + what
    {
      var q := new Byte[len + |what|];
      forall i | 0 <= i < len {
        q[i] := p[i];
      }
      forall i | 0 <= i < |what| {
        q[len + i] := what[i];
      }
      assert q[..len] == p[..len] && q[len..] == what;
      assert q[..] == q[..len] + q[len..];
      p, len := q, len + |what|;
    }
  }

  /** How send_tcp_packet cuts a payload: chunks of at most mss bytes at consecutive numbers. */
  function Chunks(seqNr: U32, ackNr: U32, flags: Flags, payload: seq<Byte>, mss: nat): (gs: seq<Segment>)
    requires mss > 0 || payload == []
    ensures |gs| >= 1 && (|payload| <= mss ==> gs == [Segment(seqNr, ackNr, flags, payload)])
    decreases |payload|
  {
    if |payload| <= mss then
      [Segment(seqNr, ackNr, flags, payload)]
    else
      [Segment(seqNr, ackNr, flags, payload[..mss])] + Chunks(Add(seqNr, mss), ackNr, flags, payload[mss..], mss)
  }

  function Payloads(gs: seq<Segment>): seq<Byte> {
    if gs == [] then [] else gs[0].payload + Payloads(gs[1..])
  }

  lemma NoPayloads()
    ensures Payloads([]) == []
  {
  }

  lemma {:induction false} PayloadsSnoc(gs: seq<Segment>, g: Segment)
    ensures Payloads(gs + [g]) == Payloads(gs) + g.payload
  {
    if gs == [] {
      assert [] + [g] == [g] && [g][1..] == [];
    } else {
      PayloadsSnoc(gs[1..], g);
      assert (gs + [g])[1..] == gs[1..] + [g];
    }
  }

  /** What is left after the next chunk. */
  lemma ChunkTurn(seqNr: U32, ackNr: U32, flags: Flags, payload: seq<Byte>, mss: nat)
    requires mss > 0 || payload == []
    ensures var n := Min(|payload|, mss);
            var packet := Segment(seqNr, ackNr, flags, payload[..n]);
            Chunks(seqNr, ackNr, flags, payload, mss)
            == [packet] + if n == |payload| then [] else Chunks(Add(seqNr, n), ackNr, flags, payload[n..], mss)
  {
    hide Add;
    var gs := Chunks(seqNr, ackNr, flags, payload, mss);
    if |payload| <= mss {
      assert payload[..|payload|] == payload;
      assert [gs[0]] + [] == [gs[0]];
    }
  }

  /**
   * send_tcp_packet. The queue takes the first `room` packets and refuses the
   * next; the refused packet's bytes are already counted.
   */
  method SendTcpPacket(seqNr: U32, ackNr: U32, flags: Flags, payload: seq<Byte>, mss: nat, room: nat)
    returns (sent: int, out: seq<Segment>)
    requires mss > 0 || payload == []
    ensures var gs := Chunks(seqNr, ackNr, flags, payload, mss); out == gs[..Min(room, |gs|)]
    ensures var gs := Chunks(seqNr, ackNr, flags, payload, mss);
            var n := |Payloads(gs[..Min(room + 1, |gs|)])|;
            sent == if room >= |gs| || n > 0 then n else -1
    ensures room >= |Chunks(seqNr, ackNr, flags, payload, mss)| ==> sent == |payload|
    ensures |payload| <= mss && room == 0 ==> sent == if payload == [] then -1 else |payload|
  {
    hide Chunks, Add, Payloads;
    ghost var gs := Chunks(seqNr, ackNr, flags, payload, mss);
    var rest, localSeq := payload, seqNr;
    sent, out := 0, [];
    assert |Payloads([])| == 0 by { NoPayloads(); }
    while true
      invariant mss > 0 || rest == []
      invariant out + Chunks(localSeq, ackNr, flags, rest, mss) == gs
      invariant sent + |rest| == |payload| && |out| <= room
      invariant out == [] ==> rest == payload
      invariant sent == |Payloads(out)|
      decreases |rest|
    {
      var useN := Min(|rest|, mss);
      var packet := Segment(localSeq, ackNr, flags, rest[..useN]);
      ghost var tail := Chunks(localSeq, ackNr, flags, rest, mss);
      ChunkTurn(localSeq, ackNr, flags, rest, mss);
      PayloadsSnoc(out, packet);
      assert (out + [packet]) + tail[1..] == gs;
      assert gs[..|out| + 1] == out + [packet];
      rest, localSeq, sent := rest[useN..], Add(localSeq, useN), sent + useN;
      if |out| == room {
        assert gs[..|out|] == out;
        return if sent > 0 then sent else -1, out;
      }
      out := out + [packet];
      if rest == [] {
        assert out == gs;
        return;
      }
    }
  }

  /** session_t. */
  class SessionObject {
    const isClient: bool
    const mss: nat
    const l7ToTcp: TcpData
    var phase: Phase
    var localSeq: U32
    var peerSeq: U32
    var halfClosed: bool
    var l7SendFin: bool
    var finSent: bool
    var inFlight: nat

    ghost predicate Valid()
      reads this, l7ToTcp
    {
      l7ToTcp.Valid()
    }

    ghost function State(): Session
      requires Valid()
      reads this, l7ToTcp, l7ToTcp.p
    {
      Session(isClient, phase, localSeq, peerSeq, mss, halfClosed, l7SendFin, finSent, inFlight, l7ToTcp.Contents())
    }

    constructor (isClient: bool, phase: Phase, localSeq: U32, peerSeq: U32, mss: nat)
      ensures Valid() && fresh(l7ToTcp) && fresh(l7ToTcp.p)
      ensures State() == Session(isClient, phase, localSeq, peerSeq, mss, false, false, false, 0, [])
    {
      this.isClient, this.phase, this.localSeq, this.peerSeq, this.mss := isClient, phase, localSeq, peerSeq, mss;
      halfClosed, l7SendFin, finSent, inFlight := false, false, false, 0;
      l7ToTcp := new TcpData();
    }

    /** The acknowledgement branch of run_in. */
    method HandleAck(ackNr: U32)
      requires Valid()
      modifies this`localSeq, this`inFlight, l7ToTcp`len, l7ToTcp.p
      ensures Valid() && State() == AckIn(old(State()), ackNr)
    {
      hide Add, Sub;
      ghost var s := State();
      var ackN := Sub(ackNr, localSeq);
      var inRange := ackNr >= localSeq;
      if inRange && ackN <= inFlight {
        l7ToTcp.Forget(ackN);
        localSeq := Add(localSeq, ackN);
        assert State() == s.(buf := s.buf[Min(ackN, |s.buf|)..], localSeq := Add(s.localSeq, ackN));
      }
      var resend := !inRange || ackN < inFlight;
      if resend {
        inFlight := 0;
      } else if ackN == inFlight {
        inFlight := inFlight - ackN;
      }
    }

    /** Hands in-order data to the application and acknowledges. */
    method HandleData(g: Segment, env: Sends) returns (out: seq<Segment>, up: seq<L7Message>, acked: bool, clean: bool)
      requires Valid()
      modifies this`peerSeq
      ensures Valid() && Receipt(State(), out, up, acked, clean) == DataIn(old(State()), g, env)
    {
      out, up, acked, clean := [], [], false, false;
      if g.seqNr == peerSeq {
        var ok := true;
        if |g.payload| > 0 {
          ok := env.l7;
          if ok {
            up := [Data(g.payload, halfClosed)];
          }
        }
        if ok && (!g.flags.ack || |g.payload| > 0) {
          if env.ack {
            out := [Segment(localSeq, Add(peerSeq, |g.payload|), ACK, [])];
            peerSeq := Add(peerSeq, |g.payload|);
            acked := true;
          } else {
            clean := true;
          }
        }
      } else if env.ack {
        out := [Segment(localSeq, peerSeq, ACK, [])];
      } else {
        clean := true;
      }
    }

    method HandleFin(g: Segment, acked: bool, env: Sends) returns (out: seq<Segment>)
      requires Valid()
      modifies this`peerSeq, this`halfClosed
      ensures Valid() && FinReceipt(State(), out) == FinIn(old(State()), g, acked, env)
    {
      out := [];
      if g.flags.fin {
        if !halfClosed {
          peerSeq := Add(peerSeq, 1);
          halfClosed := true;
        }
        if !acked && env.finAck {
          out := [Segment(localSeq, Add(peerSeq, |g.payload|), ACK, [])];
        }
      }
    }

    /** The part of run_in between the flag checks and its clean label. */
    method HandleRest(g: Segment, env: Sends) returns (out: seq<Segment>, up: seq<L7Message>)
      requires Valid()
      modifies this`peerSeq, this`halfClosed
      ensures Valid() && Outcome(State(), out, up, false) == Continue(old(State()), g, env)
    {
      var acked, clean;
      out, up, acked, clean := HandleData(g, env);
      var finAck := HandleFin(g, acked, env);
      out := out + finAck;
      up := up + if clean then [Close] else [];
    }

    /** The clean label for an invalid segment. */
    method HandleInvalid(g: Segment, withRst: bool, afterSyn: bool, env: Sends)
      returns (out: seq<Segment>, up: seq<L7Message>)
      requires Valid()
      modifies this`phase, l7ToTcp`len
      ensures Valid() && Outcome(State(), out, up, false) == Abort(old(State()), g, withRst, afterSyn, env)
    {
      out := [];
      if withRst && env.rst {
        out := [Segment(localSeq, Add(g.seqNr, if afterSyn then 1 else 0), RST, [])];
      }
      phase := Closed;
      l7ToTcp.ForgetAll();
      up := [Close];
    }

    method HandleSyn(g: Segment, env: Sends) returns (out: seq<Segment>, up: seq<L7Message>, erased: bool)
      requires Valid()
      modifies this, l7ToTcp`len
      ensures Valid() && Outcome(State(), out, up, erased) == SynIn(old(State()), g, env)
    {
      out, up, erased := [], [], false;
      if isClient {
        if !g.flags.ack {
          var finAck := HandleFin(g, false, env);
          out, up := HandleInvalid(g, true, true, env);
          out := finAck + out;
        } else {
          if phase != Established {
            phase := Established;
            peerSeq := g.seqNr;
          }
          peerSeq := Add(peerSeq, 1);
          if env.synAck {
            var synAck := Segment(localSeq, peerSeq, ACK, []);
            out, up := HandleRest(g, env);
            out := [synAck] + out;
          } else {
            up := [Close];
          }
        }
      } else if phase != Established {
        out := [Segment(env.cookie, Add(g.seqNr, 1), SYN_ACK, [])];
      } else {
        erased := finSent && halfClosed;
      }
    }

    /** One inbound segment for this session. */
    method HandleSegment(g: Segment, env: Sends) returns (out: seq<Segment>, up: seq<L7Message>, erased: bool)
      requires Valid()
      modifies this, l7ToTcp`len, l7ToTcp.p
      ensures Valid() && Outcome(State(), out, up, erased) == SegmentIn(old(State()), g, env)
    {
      out, up, erased := [], [], false;
      if phase == Closed {
        out, up := HandleInvalid(g, true, false, env);
      } else if g.flags.rst {
        out, up := HandleInvalid(g, false, false, env);
      } else if g.flags.syn {
        out, up, erased := HandleSyn(g, env);
      } else if g.flags.ack {
        HandleAck(g.ackNr);
        out, up := HandleRest(g, env);
      } else if g.flags.fin {
        out, up := HandleRest(g, env);
      }
    }

    /** The application message step of run_out. */
    method HandleL7(bytes: seq<Byte>, fin: bool)
      requires Valid()
      modifies this`l7SendFin, l7ToTcp
      ensures Valid() && (fresh(l7ToTcp.p) || l7ToTcp.p == old(l7ToTcp.p))
      ensures State() == FromL7(old(State()), bytes, fin)
    {
      if |bytes| > 0 {
        l7ToTcp.Append(bytes);
      }
      if fin {
        l7SendFin := true;
      }
    }

    /** The body of the sender thread's loop for this session. */
    method Tick(room: nat) returns (out: seq<Segment>)
      requires Valid()
      modifies this`localSeq, this`finSent, this`inFlight
      ensures Valid() && Sent(State(), out) == SenderTick(old(State()), room > 0)
    {
      out := [];
      if inFlight != 0 || finSent {
        return;
      }
      var chunk, end := l7ToTcp.Peek(Min(SENDER_BUFFER, mss));
      var sendFin := end && l7SendFin;
      if |chunk| > 0 || sendFin {
        var sent;
        sent, out := SendTcpPacket(localSeq, peerSeq, Flags(sendFin, false, false, true, true), chunk, mss, room);
        if sent == -1 {
          return;
        }
        if sent == |chunk| && sendFin && !finSent {
          localSeq := Add(localSeq, 1);
          finSent := true;
        }
        inFlight := sent;
      }
    }
  }
}

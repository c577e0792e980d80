/**
 * Two TCP endpoints of this stack on a network that loses, repeats and reorders
 * segments: everything ever sent stays available and may be delivered any number
 * of times, at any moment, or never. Only a SYN/ACK does not reach a client a
 * second time in the runs called allowed; the last section shows why.
 */
module TcpNetwork {
  import opened Bytes
  import opened TcpSession
  import opened TcpStream

  /** A segment in transit, with the stream position and the delivered count of the moment it was sent. */
  datatype Packet = Packet(seg: Segment, pos: nat, ackPos: nat)

  datatype Net = Net(a: Endpoint, b: Endpoint, ab: set<Packet>, ba: set<Packet>)

  datatype Action =
    | Deliver(atA: bool, p: Packet, env: Sends)
    | App(atA: bool, bytes: seq<Byte>, fin: bool)
    | Send(atA: bool, accepted: bool)

  function EventOf(act: Action): Event {
    match act
    case Deliver(_, p, env) => Arrive(p.seg, env)
    case App(_, bytes, fin) => FromApp(bytes, fin)
    case Send(_, accepted) => Tick(accepted)
  }

  /** What the step of x adds to its outgoing link. */
  function Tagged(x: Endpoint, ev: Event): set<Packet> {
    var m := Step(x, ev);
    set g | g in m.out :: Packet(g, x.forgotten, |m.e.delivered|)
  }

  function NetStep(n: Net, act: Action): Net {
    var ev := EventOf(act);
    if act.atA then
      n.(a := Step(n.a, ev).e, ab := n.ab + Tagged(n.a, ev))
    else
      n.(b := Step(n.b, ev).e, ba := n.ba + Tagged(n.b, ev))
  }

  /** p is not so old that 32-bit numbers have come round since it was sent. */
  predicate Recent(z: Endpoint, p: Packet) {
    && |z.delivered| - p.pos < MOD32 - 1
    && z.forgotten + z.s.inFlight + (if z.s.finSent then 1 else 0) - p.ackPos < MOD32
  }

  /** A taken data segment's acknowledgement can be queued. */
  predicate AckRoom(z: Endpoint, g: Segment, env: Sends) {
    g.seqNr == z.s.peerSeq && g.payload != [] && env.l7 ==> env.ack
  }

  predicate Possible(z: Endpoint, link: set<Packet>, act: Action) {
    act.Deliver? ==> act.p in link && Recent(z, act.p) && AckRoom(z, act.p.seg, act.env)
  }

  /** A server with an open session does nothing about a SYN, unless the session is finished and may be released. */
  predicate IgnoresSyn(z: Endpoint, g: Segment) {
    && g.flags.syn && !g.flags.rst
    && !z.s.isClient && z.s.phase.Established? && !(z.s.finSent && z.s.halfClosed)
  }

  /** Segments of the handshake may come again where they are ignored, all others anywhere. */
  predicate Permitted(z: Endpoint, link: set<Packet>, act: Action) {
    if act.Deliver? && act.p.seg.flags.syn then act.p in link && IgnoresSyn(z, act.p.seg) else Possible(z, link, act)
  }

  predicate Allowed(n: Net, act: Action) {
    if act.atA then Permitted(n.a, n.ba, act) else Permitted(n.b, n.ab, act)
  }

  // ----- the invariant of one direction, from sender x to receiver y --------

  predicate Up(x: Endpoint) {
    x.live && !x.s.phase.Closed? && SenderInv(x)
  }

  predicate AfterHandshake(g: Segment) {
    g.flags.ack && !g.flags.syn && !g.flags.rst
  }

  predicate TrueData(x: Endpoint, y: Endpoint, p: Packet) {
    && AfterHandshake(p.seg)
    && (p.seg.payload != [] ==> CarriesAt(p.seg, x.first, x.queued, p.pos) && p.pos <= |y.delivered|)
    && (p.seg.flags.fin ==> x.s.finSent)
  }

  predicate TrueAck(x: Endpoint, y: Endpoint, p: Packet) {
    && AfterHandshake(p.seg)
    && (!x.s.finSent ==> p.seg.ackNr == Add(x.first, p.ackPos) && p.ackPos <= |y.delivered|)
  }

  predicate Direction(x: Endpoint, y: Endpoint, xy: set<Packet>, yx: set<Packet>) {
    && Up(x)
    && y.delivered <= x.queued
    && y.s.peerSeq == Add(x.first + |y.delivered|, if y.s.halfClosed then 1 else 0)
    && (y.s.halfClosed ==> x.s.finSent)
    && (!x.s.finSent ==> x.forgotten <= |y.delivered|)
    && (forall p :: p in xy ==> TrueData(x, y, p))
    && (forall p :: p in yx ==> TrueAck(x, y, p))
  }

  /** What travels on a link besides the handshake. */
  function NoSyn(link: set<Packet>): set<Packet> {
    set p | p in link && !p.seg.flags.syn
  }

  predicate NetInv(n: Net) {
    Direction(n.a, n.b, NoSyn(n.ab), NoSyn(n.ba)) && Direction(n.b, n.a, NoSyn(n.ba), NoSyn(n.ab))
  }

  /** An acknowledgement of the handshake: it covers nothing of the stream that starts at first. */
  predicate HandshakeAck(p: Packet, first: U32) {
    p.seg.flags == ACK && p.seg.payload == [] && p.seg.ackNr == first && p.ackPos == 0
  }

  /** Two endpoints that have just finished the handshake, with only its segments under way. */
  predicate Connected(n: Net) {
    && Fresh(n.a) && Fresh(n.b)
    && n.b.s.peerSeq == n.a.first && n.a.s.peerSeq == n.b.first
    && (forall p :: p in n.ab ==> p.seg.flags.syn || HandshakeAck(p, n.b.first))
    && (forall p :: p in n.ba ==> p.seg.flags.syn || HandshakeAck(p, n.a.first))
  }

  /** The session run_in opens for an acknowledgement with a valid cookie, before it looks at the segment's data. */
  function OpenSession(g: Segment, mss: nat): Session {
    Session(false, Established, g.ackNr, g.seqNr, mss, false, false, false, 0, [])
  }

  /** The session a client opens with a SYN numbered isn. */
  function ClientSession(isn: U32): Session {
    Session(true, SynSent, Add(isn, 1), 0, 536, false, false, false, 0, [])
  }

  /** A segment of the handshake in transit. */
  function Opening(seqNr: U32, ackNr: U32, flags: Flags): Packet {
    Packet(Segment(seqNr, ackNr, flags, []), 0, 0)
  }

  /**
   * The handshake between two of these stacks. The client takes the SYN/ACK with
   * cookie c, its acknowledgement opens the server's session, and the two are
   * connected: each expects the number the other starts at. SYN and SYN/ACK are
   * still under way.
   */
  lemma HandshakeConnects(isn: U32, c: U32, mss: nat, atClient: Sends, atServer: Sends)
    requires atClient.synAck && atClient.ack
    ensures var o := SegmentIn(ClientSession(isn), Segment(c, Add(isn, 1), SYN_ACK, []), atClient);
            && |o.out| > 0 && o.up == [] && !o.erased
            && (var r := Continue(OpenSession(o.out[0], mss), o.out[0], atServer);
                && r.out == [] && r.up == []
                && Connected(Net(Endpoint(o.s, Add(isn, 1), [], 0, [], true),
                                 Endpoint(r.s, Add(c, 1), [], 0, [], true),
                                 {Opening(isn, 0, SYN)} + set g | g in o.out :: Packet(g, 0, 0),
                                 {Opening(c, Add(isn, 1), SYN_ACK)})))
  {
  }

  // ----- one step ----------------------------------------------------------

  /** An acknowledgement never makes the sender forget what it does not cover. */
  lemma AckForgetsCovered(x: Endpoint, ackNr: U32, ackPos: nat)
    requires SenderInv(x) && !x.s.finSent
    requires ackNr == Add(x.first, ackPos) && x.forgotten + x.s.inFlight - ackPos < MOD32
    ensures var left := AckIn(x.s, ackNr).buf;
            var f := x.forgotten + |x.s.buf| - |left|;
            x.forgotten <= f && (f <= x.forgotten || f <= ackPos)
  {
    var n := Sub(ackNr, x.s.localSeq);
    var d := ackPos - x.forgotten;
    assert x.s.localSeq == Add(x.first, x.forgotten);
    Distance(x.first, ackPos, x.forgotten);
    hide Add, Sub;
    if d < 0 {
      assert n == d + MOD32;
    } else {
      assert n <= d;
    }
  }

  /** The 32-bit difference of two numbers is the distance of the positions they stand for. */
  lemma Distance(first: U32, a: nat, b: nat)
    ensures Sub(Add(first, a), Add(first, b)) == (a - b) % MOD32
    ensures -MOD32 < a - b < 0 ==> (a - b) % MOD32 == a - b + MOD32
    ensures a >= b ==> (a - b) % MOD32 <= a - b
    ensures 0 <= a - b < MOD32 ==> (a - b) % MOD32 == a - b
  {
  }

  /** A step of an endpoint that is up, on a possible event, leaves it up and emits only such segments. */
  lemma StaysUp(x: Endpoint, ev: Event)
    requires Up(x) && (ev.Arrive? ==> AfterHandshake(ev.g))
    ensures Up(Step(x, ev).e)
    ensures forall g :: g in Step(x, ev).out ==> AfterHandshake(g)
  {
    SenderStep(x, ev);
    if ev.Arrive? {
      hide Step;
      Arrival(x, ev.g, ev.env);
    }
  }

  lemma SenderMoves(x: Endpoint, y: Endpoint, xy: set<Packet>, yx: set<Packet>, act: Action)
    requires Direction(x, y, xy, yx) && Possible(x, yx, act)
    ensures var ev := EventOf(act); Direction(Step(x, ev).e, y, xy + Tagged(x, ev), yx)
  {
    var ev := EventOf(act);
    var m := Step(x, ev);
    StaysUp(x, ev);
    SenderQueue(x, ev);
    ForgottenAfter(x, y, yx, act);
    forall p | p in xy + Tagged(x, ev)
      ensures TrueData(m.e, y, p)
    {
      hide Step;
      if p in xy {
        if p.seg.payload != [] {
          CarriesAtExtends(p.seg, x.first, x.queued, m.e.queued, p.pos);
        }
      } else {
        EmittedStep(x, ev, p.seg);
        if p.seg.payload != [] {
          CarriesAtExtends(p.seg, x.first, x.queued, m.e.queued, p.pos);
          DataMeansNoFinYet(x, ev, p.seg);
        }
      }
    }
    hide Step;
  }

  /** What a sender's step does to its stream. */
  lemma SenderQueue(x: Endpoint, ev: Event)
    ensures var r := Step(x, ev).e;
            x.queued <= r.queued && r.first == x.first && (x.s.finSent ==> r.s.finSent)
  {
  }

  lemma DataMeansNoFinYet(x: Endpoint, ev: Event, g: Segment)
    requires g in Step(x, ev).out && g.payload != []
    ensures !x.s.finSent
  {
  }

  lemma ForgottenAfter(x: Endpoint, y: Endpoint, yx: set<Packet>, act: Action)
    requires Up(x) && Possible(x, yx, act) && (!x.s.finSent ==> x.forgotten <= |y.delivered|)
    requires forall p :: p in yx ==> TrueAck(x, y, p)
    ensures var r := Step(x, EventOf(act)).e; !r.s.finSent ==> r.forgotten <= |y.delivered|
  {
    hide SegmentIn, AckIn;
    if act.Deliver? && !x.s.finSent {
      assert TrueAck(x, y, act.p);
      AckForgetsCovered(x, act.p.seg.ackNr, act.p.ackPos);
      hide Step;
      Arrival(x, act.p.seg, act.env);
      ArrivalForgets(x, act.p.seg, act.env);
    }
  }

  lemma ArrivalForgets(x: Endpoint, g: Segment, env: Sends)
    requires x.live && !x.s.phase.Closed? && AfterHandshake(g)
    ensures var r := Step(x, Arrive(g, env)).e;
            r.forgotten == x.forgotten + |x.s.buf| - |AckIn(x.s, g.ackNr).buf| && r.s.finSent == x.s.finSent
  {
  }

  lemma ReceiverMoves(x: Endpoint, y: Endpoint, xy: set<Packet>, yx: set<Packet>, act: Action)
    requires Direction(x, y, xy, yx) && Up(y) && Possible(y, xy, act)
    ensures var ev := EventOf(act); Direction(x, Step(y, ev).e, xy, yx + Tagged(y, ev))
  {
    var ev := EventOf(act);
    var m := Step(y, ev);
    if act.Deliver? {
      assert TrueData(x, y, act.p);
      TakesNext(x, y, act.p, act.env);
    } else {
      StaysUp(y, ev);
    }
    hide Step, Add, SenderInv;
    if !act.Deliver? {
      LocalKeepsDelivered(y, ev);
    }
    forall p | p in yx + Tagged(y, ev)
      ensures TrueAck(x, m.e, p)
    {
      if p in yx {
        assert TrueAck(x, y, p);
      } else {
        AnswerTrue(x, y, xy, yx, act, p);
      }
    }
    forall p | p in xy
      ensures TrueData(x, m.e, p)
    {
      assert TrueData(x, y, p);
    }
  }

  /** Whatever the receiver sends acknowledges what its application has. */
  lemma AnswerTrue(x: Endpoint, y: Endpoint, xy: set<Packet>, yx: set<Packet>, act: Action, p: Packet)
    requires Direction(x, y, xy, yx) && Up(y) && Possible(y, xy, act) && p in Tagged(y, EventOf(act))
    ensures TrueAck(x, Step(y, EventOf(act)).e, p)
  {
    hide Step, Add, SenderInv;
    if act.Deliver? {
      assert TrueData(x, y, act.p);
      Arrival(y, act.p.seg, act.env);
      AckNumber(x, y, act.p, act.env, p.seg);
    } else {
      LocalAcks(y, EventOf(act), p.seg);
      LocalKeepsDelivered(y, EventOf(act));
      Regroup(x.first, |y.delivered|, 0);
    }
  }

  lemma LocalKeepsDelivered(y: Endpoint, ev: Event)
    requires !ev.Arrive?
    ensures var r := Step(y, ev).e;
            r.delivered == y.delivered && r.s.peerSeq == y.s.peerSeq && r.s.halfClosed == y.s.halfClosed
  {
  }

  lemma LocalAcks(y: Endpoint, ev: Event, g: Segment)
    requires !ev.Arrive? && g in Step(y, ev).out
    ensures g.ackNr == y.s.peerSeq && AfterHandshake(g)
  {
  }

  /** The receiver takes a segment only where the stream continues, FIN or no FIN. */
  lemma TakesNext(x: Endpoint, y: Endpoint, p: Packet, env: Sends)
    requires y.live && !y.s.phase.Closed? && TrueData(x, y, p) && Recent(y, p) && AckRoom(y, p.seg, env)
    requires y.delivered <= x.queued
    requires y.s.peerSeq == Add(x.first + |y.delivered|, if y.s.halfClosed then 1 else 0)
    requires y.s.halfClosed ==> x.s.finSent
    ensures var r := Step(y, Arrive(p.seg, env)).e;
            && y.delivered <= r.delivered <= x.queued
            && r.s.peerSeq == Add(x.first + |r.delivered|, if r.s.halfClosed then 1 else 0)
            && (r.s.halfClosed ==> x.s.finSent)
  {
    hide Step;
    var g, n := p.seg, |y.delivered|;
    Arrival(y, g, env);
    if g.seqNr == y.s.peerSeq && g.payload != [] && env.l7 {
      var h := if y.s.halfClosed then 1 else 0;
      assert Add(x.first, p.pos) == Add(x.first, n + h);
      SameNumberSamePlace(x.first, p.pos, n + h);
      assert y.delivered == x.queued[..n];
      assert y.delivered + g.payload == x.queued[..n + |g.payload|];
      AddAssoc(x.first + n, 0, |g.payload|);
      AddAssoc(x.first + n + |g.payload|, 0, 1);
    } else {
      AddAssoc(x.first + n, 0, 1);
    }
  }

  // ----- no byte is forgotten undelivered ------------------------------------

  /** The sender's numbers come round within what it has in flight. */
  predicate Wraps(x: Endpoint) {
    x.s.localSeq + x.s.inFlight >= MOD32
  }

  /**
   * Data that comes with a FIN, just where z expects it, is taken by the
   * application, if the sender x still has it in flight and its numbers do not
   * come round just there.
   */
  predicate FinTaken(x: Endpoint, z: Endpoint, act: Action) {
    act.Deliver? ==>
      var g := act.p.seg;
      && !g.flags.syn && g.flags.fin && g.payload != [] && g.seqNr == z.s.peerSeq && !z.s.halfClosed
      && x.s.inFlight > 0 && !Wraps(x)
      ==> act.env.l7
  }

  /**
   * Data starts no later than the sender stands; while the FIN's segment is in
   * flight it is the one the sender stands at.
   */
  predicate Placed(x: Endpoint, p: Packet) {
    && (p.seg.payload != [] ==> p.pos <= x.forgotten && |p.seg.payload| <= SENDER_BUFFER)
    && (p.seg.flags.fin && x.s.inFlight > 0 ==> p.pos == x.forgotten && |p.seg.payload| == x.s.inFlight)
  }

  /**
   * An acknowledgement counts the delivered bytes, the FIN if there was one, and,
   * while it could matter, the FIN's data twice only if that is already delivered
   * or the sender will take the number for an old one.
   */
  predicate Harmless(x: Endpoint, k: nat) {
    x.forgotten < k || (x.forgotten == k && Wraps(x))
  }

  predicate Counted(x: Endpoint, y: Endpoint, p: Packet) {
    var nr, k, fly := p.seg.ackNr, p.ackPos, x.s.inFlight;
    && k <= |y.delivered|
    && (nr == Add(x.first, k)
        || (x.s.finSent && nr == Add(x.first, k + 1))
        || (x.s.finSent && (fly > 0 ==> nr == Add(x.first, k + 1 + fly) && Harmless(x, k))))
  }

  predicate TailKept(x: Endpoint, y: Endpoint, xy: set<Packet>, yx: set<Packet>) {
    && x.forgotten <= |y.delivered| <= x.forgotten + SENDER_BUFFER
    && x.s.inFlight <= SENDER_BUFFER
    && (x.s.finSent && x.s.inFlight > 0 && y.s.halfClosed ==> Harmless(x, |y.delivered|))
    && (forall p :: p in xy ==> Placed(x, p))
    && (forall p :: p in yx ==> Counted(x, y, p))
  }

  /** An acknowledgement that counts at most what is delivered does not reach further than that. */
  lemma ReachesDelivered(first: U32, nr: U32, k: nat, f: nat, d: nat, fly: nat)
    requires f <= d <= f + SENDER_BUFFER && 0 < fly <= SENDER_BUFFER && k <= d && f + fly + 1 - k < MOD32
    requires nr == Add(first, k) || nr == Add(first, k + 1) || (nr == Add(first, k + 1 + fly) && f < k)
    ensures var n := Sub(nr, Add(first, f + 1)); n <= fly ==> f + n <= d
  {
    var a := if nr == Add(first, k) then k else if nr == Add(first, k + 1) then k + 1 else k + 1 + fly;
    Distance(first, a, f + 1);
    hide Add, Sub;
  }

  lemma ComesRound(first: U32, a: nat, n: nat)
    requires Add(first, a) + n >= MOD32 && 0 < n <= SENDER_BUFFER
    ensures Add(first, a + n) < Add(first, a)
  {
  }

  /** After the FIN, an acknowledgement moves the sender no further than the receiver is, or not at all. */
  lemma AckAfterFin(x: Endpoint, y: Endpoint, p: Packet)
    requires SenderInv(x) && x.s.finSent && Counted(x, y, p) && Recent(x, p)
    requires x.forgotten <= |y.delivered| <= x.forgotten + SENDER_BUFFER && x.s.inFlight <= SENDER_BUFFER
    ensures var t := AckIn(x.s, p.seg.ackNr);
            var f := x.forgotten + |x.s.buf| - |t.buf|;
            && x.forgotten <= f <= |y.delivered|
            && (t.inFlight == 0 || (t.inFlight == x.s.inFlight && f == x.forgotten))
  {
    assert x.s.localSeq == Add(x.first, x.forgotten + 1);
    if x.forgotten == p.ackPos && Wraps(x) {
      ComesRound(x.first, x.forgotten + 1, x.s.inFlight);
    }
    hide Add, Sub;
    if x.s.inFlight > 0 && p.seg.ackNr >= x.s.localSeq {
      ReachesDelivered(x.first, p.seg.ackNr, p.ackPos, x.forgotten, |y.delivered|, x.s.inFlight);
    }
  }

  lemma SenderKeepsTail(x: Endpoint, y: Endpoint, xy: set<Packet>, yx: set<Packet>, act: Action)
    requires Direction(x, y, xy, yx) && TailKept(x, y, xy, yx) && Possible(x, yx, act)
    ensures var ev := EventOf(act); TailKept(Step(x, ev).e, y, xy + Tagged(x, ev), yx)
  {
    var ev := EventOf(act);
    var r := Step(x, ev).e;
    hide Step, Add, SenderInv;
    SenderProgress(x, y, xy, yx, act);
    SenderQueue(x, ev);
    if act.Deliver? {
      assert TrueAck(x, y, act.p);
    }
    StaysUp(x, ev);
    if x.s.finSent {
      SamePlace(x, r);
    }
    forall p | p in xy + Tagged(x, ev)
      ensures Placed(r, p)
    {
      if p in xy {
        assert Placed(x, p) && TrueData(x, y, p);
      } else {
        TaggedPlaced(x, ev, p);
      }
    }
    forall p | p in yx
      ensures Counted(r, y, p)
    {
      assert Counted(x, y, p) && TrueAck(x, y, p);
    }
  }

  /** How a sender's position and what it has in flight move. */
  lemma SenderProgress(x: Endpoint, y: Endpoint, xy: set<Packet>, yx: set<Packet>, act: Action)
    requires Direction(x, y, xy, yx) && TailKept(x, y, xy, yx) && Possible(x, yx, act)
    ensures var r := Step(x, EventOf(act)).e;
            && x.forgotten <= r.forgotten <= |y.delivered| && r.s.inFlight <= SENDER_BUFFER
            && (x.s.finSent ==> r.s.inFlight == 0 || (r.s.inFlight == x.s.inFlight && r.forgotten == x.forgotten))
            && (r.s.finSent && !x.s.finSent ==> r.forgotten == x.forgotten)
  {
    if act.Deliver? {
      var p := act.p;
      assert TrueAck(x, y, p) && Counted(x, y, p);
      ArrivalForgets(x, p.seg, act.env);
      hide Step;
      if x.s.finSent {
        AckAfterFin(x, y, p);
      } else {
        AckForgetsCovered(x, p.seg.ackNr, p.ackPos);
      }
    }
  }

  /** A sender that stands where it stood has the number it had. */
  lemma SamePlace(x: Endpoint, r: Endpoint)
    requires SenderInv(x) && SenderInv(r) && x.first == r.first && x.s.finSent == r.s.finSent
    ensures x.forgotten == r.forgotten ==> x.s.localSeq == r.s.localSeq
  {
  }

  lemma TaggedPlaced(x: Endpoint, ev: Event, p: Packet)
    requires Up(x) && p in Tagged(x, ev) && (ev.Arrive? ==> AfterHandshake(ev.g))
    ensures Placed(Step(x, ev).e, p)
  {
  }

  lemma ReceiverKeepsTail(x: Endpoint, y: Endpoint, xy: set<Packet>, yx: set<Packet>, act: Action)
    requires Direction(x, y, xy, yx) && TailKept(x, y, xy, yx) && Up(y) && Possible(y, xy, act) && FinTaken(x, y, act)
    ensures var ev := EventOf(act); TailKept(x, Step(y, ev).e, xy, yx + Tagged(y, ev))
  {
    var ev := EventOf(act);
    var r := Step(y, ev).e;
    hide Step;
    if act.Deliver? {
      ReceiverProgress(x, y, xy, yx, act.p, act.env);
    } else {
      LocalKeepsDelivered(y, ev);
    }
    forall p | p in yx + Tagged(y, ev)
      ensures Counted(x, r, p)
    {
      if p in yx {
        assert Counted(x, y, p);
      } else if !act.Deliver? {
        LocalAcks(y, ev, p.seg);
      }
    }
  }

  /** What a delivery does to the receiver's side of the bargain. */
  lemma ReceiverProgress(x: Endpoint, y: Endpoint, xy: set<Packet>, yx: set<Packet>, p: Packet, env: Sends)
    requires Direction(x, y, xy, yx) && TailKept(x, y, xy, yx) && Up(y)
    requires Possible(y, xy, Deliver(true, p, env)) && FinTaken(x, y, Deliver(true, p, env))
    ensures var m := Step(y, Arrive(p.seg, env));
            && y.delivered <= m.e.delivered && |m.e.delivered| <= x.forgotten + SENDER_BUFFER
            && (x.s.finSent && x.s.inFlight > 0 && m.e.s.halfClosed ==> Harmless(x, |m.e.delivered|))
            && forall h :: h in m.out ==> Counted(x, m.e, Packet(h, y.forgotten, |m.e.delivered|))
  {
    hide Step, SenderInv;
    assert TrueData(x, y, p) && Placed(x, p);
    TailDelivered(x, y, p, env);
    var m := Step(y, Arrive(p.seg, env));
    forall h | h in m.out
      ensures Counted(x, m.e, Packet(h, y.forgotten, |m.e.delivered|))
    {
      AckNumber(x, y, p, env, h);
      Arrival(y, p.seg, env);
    }
  }

  lemma TailDelivered(x: Endpoint, y: Endpoint, p: Packet, env: Sends)
    requires y.live && !y.s.phase.Closed? && TrueData(x, y, p) && Placed(x, p) && FinTaken(x, y, Deliver(true, p, env))
    requires Recent(y, p) && AckRoom(y, p.seg, env) && y.delivered <= x.queued && (y.s.halfClosed ==> x.s.finSent)
    requires y.s.peerSeq == Add(x.first + |y.delivered|, if y.s.halfClosed then 1 else 0)
    requires x.forgotten <= |y.delivered| <= x.forgotten + SENDER_BUFFER
    requires x.s.finSent && x.s.inFlight > 0 && y.s.halfClosed ==> Harmless(x, |y.delivered|)
    ensures var r := Step(y, Arrive(p.seg, env)).e;
            && y.delivered <= r.delivered && |r.delivered| <= x.forgotten + SENDER_BUFFER
            && (x.s.finSent && x.s.inFlight > 0 && r.s.halfClosed ==> Harmless(x, |r.delivered|))
  {
    hide Step;
    var n := |y.delivered|;
    Arrival(y, p.seg, env);
    var h := if y.s.halfClosed then 1 else 0;
    assert y.s.peerSeq == Add(x.first, n + h);
    if p.seg.payload != [] && p.seg.seqNr == y.s.peerSeq {
      SameNumberSamePlace(x.first, p.pos, n + h);
    }
    hide Add;
  }

  /** The numbers an arrival is answered with. */
  lemma AckNumber(x: Endpoint, y: Endpoint, p: Packet, env: Sends, h: Segment)
    requires y.live && !y.s.phase.Closed? && TrueData(x, y, p) && Recent(y, p) && AckRoom(y, p.seg, env)
    requires y.delivered <= x.queued && (y.s.halfClosed ==> x.s.finSent)
    requires y.s.peerSeq == Add(x.first + |y.delivered|, if y.s.halfClosed then 1 else 0)
    requires h in Step(y, Arrive(p.seg, env)).out
    ensures var r := Step(y, Arrive(p.seg, env)).e;
            || h.ackNr == Add(x.first, |r.delivered| + if y.s.halfClosed then 1 else 0)
            || (p.seg.flags.fin && h.ackNr == Add(x.first, |r.delivered| + 1 + |p.seg.payload|))
  {
    hide Step;
    var g, r := p.seg, Step(y, Arrive(p.seg, env)).e;
    Arrival(y, g, env);
    TakesNext(x, y, p, env);
    var n := |r.delivered|;
    var taken := g.seqNr == y.s.peerSeq && g.payload != [] && env.l7;
    var next := if taken && env.ack then Add(y.s.peerSeq, |g.payload|) else y.s.peerSeq;
    Regroup(x.first, n, |g.payload|);
    hide TrueData, Recent;
    OneApart(next, Add(x.first, n));
    hide Add;
  }

  lemma Regroup(first: U32, n: nat, len: nat)
    ensures Add(first + n, 0) == Add(first, n)
    ensures Add(first + n, 1) == Add(first, n + 1) == Add(Add(first, n), 1)
    ensures Add(Add(first + n, 1), len) == Add(first, n + 1 + len)
  {
  }

  // ----- both directions -----------------------------------------------------

  /** The invariant is kept by every possible action. */
  lemma NetStepKeepsInv(n: Net, act: Action)
    requires NetInv(n) && Allowed(n, act)
    ensures NetInv(NetStep(n, act))
  {
    hide Direction, Step, NoSyn;
    UpOf(n);
    var ab, ba := NoSyn(n.ab), NoSyn(n.ba);
    LinksAfter(n, act);
    if SynAgain(act) {
      SynIgnored(n, act);
    } else if act.atA {
      SenderMoves(n.a, n.b, ab, ba, act);
      ReceiverMoves(n.b, n.a, ba, ab, act);
    } else {
      SenderMoves(n.b, n.a, ba, ab, act);
      ReceiverMoves(n.a, n.b, ab, ba, act);
    }
  }

  /** A segment of the handshake is delivered again. */
  predicate SynAgain(act: Action) {
    act.Deliver? && act.p.seg.flags.syn
  }

  lemma SynIgnored(n: Net, act: Action)
    requires Up(n.a) && Up(n.b) && Allowed(n, act) && SynAgain(act)
    ensures NetStep(n, act) == n
  {
    var z := if act.atA then n.a else n.b;
    var m := Step(z, EventOf(act));
    assert m.e == z && m.out == [];
    assert Tagged(z, EventOf(act)) == {};
  }

  /** Other actions are possible on the links without the handshake, and add no handshake to them. */
  lemma LinksAfter(n: Net, act: Action)
    requires NetInv(n) && Allowed(n, act)
    ensures !SynAgain(act) ==>
              var r, ev := NetStep(n, act), EventOf(act);
              if act.atA
              then Possible(n.a, NoSyn(n.ba), act) && NoSyn(r.ab) == NoSyn(n.ab) + Tagged(n.a, ev) && r.ba == n.ba
              else Possible(n.b, NoSyn(n.ab), act) && NoSyn(r.ba) == NoSyn(n.ba) + Tagged(n.b, ev) && r.ab == n.ab
  {
    hide Step, SenderInv, Recent, AckRoom;
    if !SynAgain(act) {
      var ev := EventOf(act);
      if act.atA {
        if act.Deliver? {
          assert TrueAck(n.a, n.b, act.p);
        }
        StaysUp(n.a, ev);
      } else {
        if act.Deliver? {
          assert TrueAck(n.b, n.a, act.p);
        }
        StaysUp(n.b, ev);
      }
    }
  }

  predicate FinTakenAt(n: Net, act: Action) {
    if act.atA then FinTaken(n.b, n.a, act) else FinTaken(n.a, n.b, act)
  }

  predicate TailInv(n: Net) {
    TailKept(n.a, n.b, NoSyn(n.ab), NoSyn(n.ba)) && TailKept(n.b, n.a, NoSyn(n.ba), NoSyn(n.ab))
  }

  lemma NetStepKeepsTail(n: Net, act: Action)
    requires NetInv(n) && TailInv(n) && Allowed(n, act) && FinTakenAt(n, act)
    ensures TailInv(NetStep(n, act))
  {
    hide Direction, TailKept, Step, NoSyn;
    UpOf(n);
    var ab, ba := NoSyn(n.ab), NoSyn(n.ba);
    LinksAfter(n, act);
    if SynAgain(act) {
      SynIgnored(n, act);
    } else if act.atA {
      SenderKeepsTail(n.a, n.b, ab, ba, act);
      ReceiverKeepsTail(n.b, n.a, ba, ab, act);
    } else {
      SenderKeepsTail(n.b, n.a, ba, ab, act);
      ReceiverKeepsTail(n.a, n.b, ab, ba, act);
    }
  }

  lemma UpOf(n: Net)
    requires NetInv(n)
    ensures Up(n.a) && Up(n.b)
  {
  }

  // ----- runs --------------------------------------------------------------

  function NetRun(n: Net, acts: seq<Action>): Net {
    if acts == [] then n else NetStep(NetRun(n, acts[..|acts| - 1]), acts[|acts| - 1])
  }

  predicate AllowedRun(n: Net, acts: seq<Action>) {
    forall i :: 0 <= i < |acts| ==> Allowed(NetRun(n, acts[..i]), acts[i])
  }

  lemma OneMore(n: Net, acts: seq<Action>, a: Action)
    ensures NetRun(n, acts + [a]) == NetStep(NetRun(n, acts), a)
    ensures AllowedRun(n, acts + [a]) <==> AllowedRun(n, acts) && Allowed(NetRun(n, acts), a)
    ensures FinDataTaken(n, acts + [a]) <==> FinDataTaken(n, acts) && FinTakenAt(NetRun(n, acts), a)
  {
    hide NetStep, Allowed, FinTakenAt;
    var more, k := acts + [a], |acts|;
    assert more[..k] == acts && more[k] == a;
    assert NetRun(n, more) == NetStep(NetRun(n, acts), a);
    hide NetRun;
    assert forall i :: 0 <= i < k ==> more[..i] == acts[..i] && more[i] == acts[i];
    if AllowedRun(n, more) {
      assert Allowed(NetRun(n, more[..k]), more[k]);
      forall i | 0 <= i < k
        ensures Allowed(NetRun(n, acts[..i]), acts[i])
      {
        assert Allowed(NetRun(n, more[..i]), more[i]);
      }
    }
    if FinDataTaken(n, more) {
      assert FinTakenAt(NetRun(n, more[..k]), more[k]);
      forall i | 0 <= i < k
        ensures FinTakenAt(NetRun(n, acts[..i]), acts[i])
      {
        assert FinTakenAt(NetRun(n, more[..i]), more[i]);
      }
    }
  }

  lemma NoActions(n: Net)
    ensures NetRun(n, []) == n && AllowedRun(n, [])
  {
  }

  lemma ConnectedInv(n: Net)
    requires Connected(n)
    ensures NetInv(n)
  {
  }

  lemma {:induction false} NetInvAlways(n: Net, acts: seq<Action>)
    requires Connected(n) && AllowedRun(n, acts)
    ensures NetInv(NetRun(n, acts))
  {
    hide *;
    if acts == [] {
      NoActions(n);
      ConnectedInv(n);
    } else {
      var k := |acts| - 1;
      OneMore(n, acts[..k], acts[k]);
      assert acts[..k] + [acts[k]] == acts;
      NetInvAlways(n, acts[..k]);
      NetStepKeepsInv(NetRun(n, acts[..k]), acts[k]);
    }
  }

  /** In no delivery of the run does an application refuse data that comes with a FIN where it is expected. */
  ghost predicate FinDataTaken(n: Net, acts: seq<Action>) {
    forall i :: 0 <= i < |acts| ==> FinTakenAt(NetRun(n, acts[..i]), acts[i])
  }

  lemma ConnectedTail(n: Net)
    requires Connected(n)
    ensures TailInv(n)
  {
  }

  lemma {:induction false} TailInvAlways(n: Net, acts: seq<Action>)
    requires Connected(n) && AllowedRun(n, acts) && FinDataTaken(n, acts)
    ensures NetInv(NetRun(n, acts)) && TailInv(NetRun(n, acts))
  {
    hide *;
    NetInvAlways(n, acts);
    if acts == [] {
      NoActions(n);
      ConnectedTail(n);
    } else {
      var k := |acts| - 1;
      OneMore(n, acts[..k], acts[k]);
      assert acts[..k] + [acts[k]] == acts;
      TailInvAlways(n, acts[..k]);
      NetStepKeepsTail(NetRun(n, acts[..k]), acts[k]);
    }
  }

  /**
   * Nothing is forgotten undelivered, FINs or no FINs: in every run in which data
   * that comes with a FIN is taken when it arrives where it is expected, while it
   * is in flight and no numbers come round, neither side has forgotten a byte the
   * other application does not have, nor is the other ahead by more than one
   * segment.
   */
  lemma ForgottenIsDelivered(n: Net, acts: seq<Action>)
    requires Connected(n) && AllowedRun(n, acts) && FinDataTaken(n, acts)
    ensures var r := NetRun(n, acts);
            && r.a.forgotten <= |r.b.delivered| <= |r.a.queued| && |r.b.delivered| <= r.a.forgotten + SENDER_BUFFER
            && r.b.forgotten <= |r.a.delivered| <= |r.b.queued| && |r.a.delivered| <= r.b.forgotten + SENDER_BUFFER
  {
    TailInvAlways(n, acts);
  }

  lemma HalfClosedTakesNothing(x: Endpoint, y: Endpoint, xy: set<Packet>, yx: set<Packet>, act: Action)
    requires Direction(x, y, xy, yx) && Up(y) && Possible(y, xy, act) && y.s.halfClosed
    ensures var r := Step(y, EventOf(act)).e; r.delivered == y.delivered && r.s.halfClosed
  {
    hide Step;
    if act.Deliver? {
      var p, n := act.p, |y.delivered|;
      assert TrueData(x, y, p);
      Arrival(y, p.seg, act.env);
      if p.seg.seqNr == y.s.peerSeq && p.seg.payload != [] {
        assert Add(x.first, p.pos) == Add(x.first, n + 1);
        SameNumberSamePlace(x.first, p.pos, n + 1);
      }
    } else {
      LocalKeepsDelivered(y, EventOf(act));
    }
  }

  /**
   * Once an endpoint has counted a FIN its application is handed nothing more:
   * what was refused then stays undelivered.
   */
  lemma {:induction false} NothingTakenAfterFin(n: Net, acts: seq<Action>, i: nat)
    requires Connected(n) && AllowedRun(n, acts) && i <= |acts|
    ensures var r, last := NetRun(n, acts[..i]), NetRun(n, acts);
            && (r.a.s.halfClosed ==> last.a.s.halfClosed && last.a.delivered == r.a.delivered)
            && (r.b.s.halfClosed ==> last.b.s.halfClosed && last.b.delivered == r.b.delivered)
  {
    hide *;
    var k := |acts| - 1;
    if i == |acts| {
      assert acts[..i] == acts;
    } else {
      assert acts[..k][..i] == acts[..i] && acts[..k] + [acts[k]] == acts;
      OneMore(n, acts[..k], acts[k]);
      NothingTakenAfterFin(n, acts[..k], i);
      NetInvAlways(n, acts[..k]);
      HalfClosedNet(NetRun(n, acts[..k]), acts[k]);
    }
  }

  lemma HalfClosedNet(n: Net, act: Action)
    requires NetInv(n) && Allowed(n, act)
    ensures var r := NetStep(n, act);
            && (n.a.s.halfClosed ==> r.a.s.halfClosed && r.a.delivered == n.a.delivered)
            && (n.b.s.halfClosed ==> r.b.s.halfClosed && r.b.delivered == n.b.delivered)
  {
    hide Direction, Step, Tagged, NoSyn;
    UpOf(n);
    LinksAfter(n, act);
    if SynAgain(act) {
      SynIgnored(n, act);
    } else if act.atA && n.a.s.halfClosed {
      HalfClosedTakesNothing(n.b, n.a, NoSyn(n.ba), NoSyn(n.ab), act);
    } else if !act.atA && n.b.s.halfClosed {
      HalfClosedTakesNothing(n.a, n.b, NoSyn(n.ab), NoSyn(n.ba), act);
    }
  }

  /**
   * Stream safety. In every run, FINs included, what either application has been
   * handed is a prefix of what the other queued; until a side has sent its FIN,
   * and after it as long as no application refuses data that comes with one, it
   * has forgotten no byte the other application does not have; and neither
   * session is ever reset.
   */
  lemma StreamSafety(n: Net, acts: seq<Action>)
    requires Connected(n) && AllowedRun(n, acts)
    ensures var r := NetRun(n, acts);
            && r.b.delivered <= r.a.queued && r.a.delivered <= r.b.queued
            && (!r.a.s.finSent || FinDataTaken(n, acts) ==> r.a.forgotten <= |r.b.delivered| <= |r.a.queued|)
            && (!r.b.s.finSent || FinDataTaken(n, acts) ==> r.b.forgotten <= |r.a.delivered| <= |r.b.queued|)
            && !r.a.s.phase.Closed? && !r.b.s.phase.Closed?
  {
    hide FinDataTaken, Connected, AllowedRun;
    if FinDataTaken(n, acts) {
      ForgottenIsDelivered(n, acts);
    }
    NetInvAlways(n, acts);
  }

  /** Streams short enough for 32-bit numbers never have stale segments: any packet may arrive any time. */
  lemma ShortStreamsAreRecent(n: Net, p: Packet)
    requires NetInv(n) && |n.a.queued| < MOD32 - 1 && |n.b.queued| < MOD32 - 1
    ensures Recent(n.a, p) && Recent(n.b, p)
  {
  }

  /** The same action, whatever the age of the packet it delivers. */
  predicate AllowedAnyAge(n: Net, act: Action) {
    act.Deliver? ==>
      var z, link := if act.atA then n.a else n.b, if act.atA then n.ba else n.ab;
      act.p in link && if act.p.seg.flags.syn then IgnoresSyn(z, act.p.seg) else AckRoom(z, act.p.seg, act.env)
  }

  lemma NoAgeNeeded(n: Net, act: Action)
    requires NetInv(n) && |n.a.queued| < MOD32 - 1 && |n.b.queued| < MOD32 - 1 && AllowedAnyAge(n, act)
    ensures Allowed(n, act)
  {
    hide NetInv, Recent, AckRoom;
    if act.Deliver? {
      ShortStreamsAreRecent(n, act.p);
    }
  }

  lemma {:induction false} NetQueuedGrows(n: Net, acts: seq<Action>, i: nat)
    requires i <= |acts|
    ensures NetAfter(n, acts, i).a.queued <= NetRun(n, acts).a.queued
    ensures NetAfter(n, acts, i).b.queued <= NetRun(n, acts).b.queued
  {
    hide Step, Tagged;
    if i == |acts| {
      assert acts[..i] == acts;
    } else {
      var k := |acts| - 1;
      assert acts[..k][..i] == acts[..i];
      NetQueuedGrows(n, acts[..k], i);
      var r := NetRun(n, acts[..k]);
      SenderQueue(if acts[k].atA then r.a else r.b, EventOf(acts[k]));
    }
  }

  /** The network after the first i actions. */
  function NetAfter(n: Net, acts: seq<Action>, i: nat): Net
    requires i <= |acts|
  {
    NetRun(n, acts[..i])
  }

  /**
   * Stream safety for streams under 2^32 - 1 bytes: there no assumption on the
   * age of packets is left.
   */
  lemma {:induction false} ShortStreamSafety(n: Net, acts: seq<Action>)
    requires Connected(n) && |NetRun(n, acts).a.queued| < MOD32 - 1 && |NetRun(n, acts).b.queued| < MOD32 - 1
    requires forall i :: 0 <= i < |acts| ==> AllowedAnyAge(NetAfter(n, acts, i), acts[i])
    ensures AllowedRun(n, acts)
    ensures var r := NetRun(n, acts);
            && r.b.delivered <= r.a.queued && r.a.delivered <= r.b.queued
            && (!r.a.s.finSent || FinDataTaken(n, acts) ==> r.a.forgotten <= |r.b.delivered|)
            && (!r.b.s.finSent || FinDataTaken(n, acts) ==> r.b.forgotten <= |r.a.delivered|)
  {
    hide NetStep, NetInv, Connected, Allowed, AllowedAnyAge, FinDataTaken;
    if acts != [] {
      var k := |acts| - 1;
      var front := acts[..k];
      NetQueuedGrows(n, acts, k);
      forall i | 0 <= i < k
        ensures AllowedAnyAge(NetAfter(n, front, i), front[i])
      {
        assert front[..i] == acts[..i];
        assert AllowedAnyAge(NetAfter(n, acts, i), acts[i]);
      }
      ShortStreamSafety(n, front);
      NetInvAlways(n, front);
      assert AllowedAnyAge(NetAfter(n, acts, k), acts[k]);
      NoAgeNeeded(NetRun(n, front), acts[k]);
      forall i | 0 <= i < |acts|
        ensures Allowed(NetRun(n, acts[..i]), acts[i])
      {
        if i < k {
          assert front[..i] == acts[..i];
          assert Allowed(NetRun(n, front[..i]), front[i]);
        }
      }
    }
    StreamSafety(n, acts);
  }

  // ----- when the tail is lost -------------------------------------------------

  /** The acknowledgement that a receiver z sends for a FIN segment it does not take. */
  function RefusalAck(z: Endpoint, p: Packet, env: Sends): Packet {
    var r := Step(z, Arrive(p.seg, env)).e;
    Packet(Segment(r.s.localSeq, Add(r.s.peerSeq, |p.seg.payload|), ACK, []), z.forgotten, |r.delivered|)
  }

  /** What the refusal itself does, whether or not it is answered. */
  lemma RefusalCounts(x: Endpoint, y: Endpoint, xy: set<Packet>, yx: set<Packet>, p: Packet, env: Sends)
    requires Direction(x, y, xy, yx) && TailKept(x, y, xy, yx) && Up(y) && p in xy && Recent(y, p)
    requires !FinTaken(x, y, Deliver(true, p, env))
    ensures var r := Step(y, Arrive(p.seg, env)).e;
            && Up(r) && r.s.halfClosed && r.delivered == y.delivered && |y.delivered| == x.forgotten
            && r.s.peerSeq == Add(x.first, x.forgotten + 1) && p.seg.seqNr == Add(x.first, x.forgotten)
            && y.forgotten <= r.forgotten && Recent(r, p) && |p.seg.payload| == x.s.inFlight
  {
    hide Step;
    var n := |y.delivered|;
    assert TrueData(x, y, p) && Placed(x, p);
    StaysUp(y, Arrive(p.seg, env));
    Arrival(y, p.seg, env);
    Regroup(x.first, n, 0);
    SameNumberSamePlace(x.first, p.pos, n);
    hide Add;
    NoFurther(y, p.seg, env);
  }

  /** Position and what is in flight together never move on by an arrival. */
  lemma NoFurther(y: Endpoint, g: Segment, env: Sends)
    requires Up(y) && AfterHandshake(g)
    ensures var r := Step(y, Arrive(g, env)).e;
            && y.forgotten <= r.forgotten && r.forgotten + r.s.inFlight <= y.forgotten + y.s.inFlight
            && r.s.finSent == y.s.finSent
  {
    ArrivalForgets(y, g, env);
    ArrivalInFlight(y, g, env);
    hide Step, Add, Sub;
  }

  /** A repeat of a segment that was refused is acknowledged, data and FIN. */
  lemma RepeatAnswered(x: Endpoint, y: Endpoint, p: Packet, again: Sends)
    requires Up(y) && y.s.halfClosed && |y.delivered| == x.forgotten && AfterHandshake(p.seg) && p.seg.flags.fin
    requires y.s.peerSeq == Add(x.first, x.forgotten + 1) && p.seg.seqNr == Add(x.first, x.forgotten) && again.finAck
    ensures var q := RefusalAck(y, p, again);
            && AckRoom(y, p.seg, again) && Step(y, Arrive(p.seg, again)).e.delivered == y.delivered
            && q in Tagged(y, Arrive(p.seg, again)) && q.ackPos == x.forgotten && q.pos == y.forgotten
            && q.seg.ackNr == Add(x.first, x.forgotten + 1 + |p.seg.payload|)
  {
    hide Step, SenderInv;
    if p.seg.seqNr == y.s.peerSeq {
      SameNumberSamePlace(x.first, x.forgotten, x.forgotten + 1);
    }
    Arrival(y, p.seg, again);
    Regroup(x.first, x.forgotten, |p.seg.payload|);
    hide Add;
    assert RefusalAck(y, p, again).seg in Step(y, Arrive(p.seg, again)).out;
  }

  /** That acknowledgement covers the refused bytes. */
  lemma RefusalForgets(x: Endpoint, q: Segment, any: Sends)
    requires Up(x) && x.s.finSent && 0 < x.s.inFlight <= SENDER_BUFFER && !Wraps(x) && AfterHandshake(q)
    requires q.ackNr == Add(x.first, x.forgotten + 1 + x.s.inFlight)
    ensures Step(x, Arrive(q, any)).e.forgotten == x.forgotten + x.s.inFlight
  {
    var len := x.s.inFlight;
    assert x.s.localSeq == Add(x.first, x.forgotten + 1);
    Distance(x.first, x.forgotten + 1 + len, x.forgotten + 1);
    ArrivalForgets(x, q, any);
    assert q.ackNr == x.s.localSeq + len;
    hide Step, Add, Sub;
  }

  lemma ArrivalInFlight(x: Endpoint, g: Segment, env: Sends)
    requires x.live && !x.s.phase.Closed? && AfterHandshake(g)
    ensures Step(x, Arrive(g, env)).e.s.inFlight == AckIn(x.s, g.ackNr).inFlight
  {
  }

  /** Refusal, repeat and acknowledgement, on the endpoints: all may happen, and bytes are lost. */
  lemma RefusedTailLost(x: Endpoint, y: Endpoint, xy: set<Packet>, yx: set<Packet>, p: Packet, env: Sends, again: Sends,
                        any: Sends)
    requires Direction(x, y, xy, yx) && TailKept(x, y, xy, yx) && Direction(y, x, yx, xy) && TailKept(y, x, yx, xy)
    requires p in xy && Recent(y, p) && !FinTaken(x, y, Deliver(true, p, env)) && again.finAck
    ensures var y1 := Step(y, Arrive(p.seg, env)).e;
            var y2 := Step(y1, Arrive(p.seg, again)).e;
            var q := RefusalAck(y1, p, again);
            && Recent(y1, p) && AckRoom(y1, p.seg, again)
            && q in Tagged(y1, Arrive(p.seg, again)) && Recent(x, q) && AckRoom(x, q.seg, any)
            && Step(x, Arrive(q.seg, any)).e.forgotten > |y2.delivered|
  {
    hide Step, SenderInv;
    assert TrueData(x, y, p) && Placed(x, p);
    RefusalCounts(x, y, xy, yx, p, env);
    var y1 := Step(y, Arrive(p.seg, env)).e;
    RepeatAnswered(x, y1, p, again);
    RefusalForgets(x, RefusalAck(y1, p, again).seg, any);
    hide RefusalAck;
  }

  /** The first delivery, the same packet again, and the acknowledgement of that. */
  function WithRepeat(n: Net, atA: bool, p: Packet, env: Sends, again: Sends, any: Sends): seq<Action> {
    var z := if atA then n.a else n.b;
    var q := RefusalAck(Step(z, Arrive(p.seg, env)).e, p, again);
    [Deliver(atA, p, env), Deliver(atA, p, again), Deliver(!atA, q, any)]
  }

  /** The sender towards the given side has forgotten bytes that side does not have. */
  predicate Lossy(n: Net, toA: bool) {
    if toA then n.b.forgotten > |n.a.delivered| else n.a.forgotten > |n.b.delivered|
  }

  /**
   * The exact condition, for either direction. After any run in which FinTaken
   * held, a delivery breaks it if and only if bytes can be lost by it: the same
   * packet may come again, the acknowledgement of that may arrive, and then the
   * sender has forgotten what the application does not have. By
   * NothingTakenAfterFin it never will.
   */
  lemma TailLostIff(n: Net, acts: seq<Action>, atA: bool, p: Packet, env: Sends, again: Sends, any: Sends)
    requires Connected(n) && AllowedRun(n, acts) && FinDataTaken(n, acts) && again.finAck
    requires Allowed(NetRun(n, acts), Deliver(atA, p, env))
    ensures var r := NetRun(n, acts);
            var more := acts + WithRepeat(r, atA, p, env, again, any);
            !FinTakenAt(r, Deliver(atA, p, env)) <==> AllowedRun(n, more) && Lossy(NetRun(n, more), atA)
  {
    hide *;
    if FinTakenAt(NetRun(n, acts), Deliver(atA, p, env)) {
      RepeatKeepsTail(n, acts, atA, p, env, again, any);
    } else {
      RefusalLoses(n, acts, atA, p, env, again, any);
    }
  }

  lemma RefusalLoses(n: Net, acts: seq<Action>, atA: bool, p: Packet, env: Sends, again: Sends, any: Sends)
    requires Connected(n) && AllowedRun(n, acts) && FinDataTaken(n, acts) && again.finAck
    requires Allowed(NetRun(n, acts), Deliver(atA, p, env)) && !FinTakenAt(NetRun(n, acts), Deliver(atA, p, env))
    ensures var more := acts + WithRepeat(NetRun(n, acts), atA, p, env, again, any);
            AllowedRun(n, more) && Lossy(NetRun(n, more), atA)
  {
    hide Connected, AllowedRun, FinDataTaken, Step, Direction, TailKept, RefusalAck, Recent, AckRoom;
    TailInvAlways(n, acts);
    var r := NetRun(n, acts);
    assert !p.seg.flags.syn;
    if atA {
      RefusedTailLost(r.b, r.a, NoSyn(r.ba), NoSyn(r.ab), p, env, again, any);
    } else {
      RefusedTailLost(r.a, r.b, NoSyn(r.ab), NoSyn(r.ba), p, env, again, any);
    }
    var three := WithRepeat(r, atA, p, env, again, any);
    var z := if atA then r.a else r.b;
    assert !three[2].p.seg.flags.syn by { NoSynInRefusal(Step(z, Arrive(p.seg, env)).e, p, again); }
    ThreeMore(n, acts, three);
  }

  lemma NoSynInRefusal(z: Endpoint, p: Packet, env: Sends)
    ensures RefusalAck(z, p, env).seg.flags == ACK
  {
  }

  lemma ThreeMore(n: Net, acts: seq<Action>, three: seq<Action>)
    requires AllowedRun(n, acts) && |three| == 3
    ensures var r1 := NetStep(NetRun(n, acts), three[0]);
            var r2 := NetStep(r1, three[1]);
            && NetRun(n, acts + three) == NetStep(r2, three[2])
            && (AllowedRun(n, acts + three)
                <==> Allowed(NetRun(n, acts), three[0]) && Allowed(r1, three[1]) && Allowed(r2, three[2]))
            && ((FinDataTaken(n, acts) && FinTakenAt(NetRun(n, acts), three[0])
                 && FinTakenAt(r1, three[1]) && FinTakenAt(r2, three[2])) ==> FinDataTaken(n, acts + three))
  {
    hide *;
    OneMore(n, acts, three[0]);
    OneMore(n, acts + [three[0]], three[1]);
    OneMore(n, acts + [three[0]] + [three[1]], three[2]);
    assert acts + [three[0]] + [three[1]] + [three[2]] == acts + three;
  }

  lemma RepeatKeepsTail(n: Net, acts: seq<Action>, atA: bool, p: Packet, env: Sends, again: Sends, any: Sends)
    requires Connected(n) && AllowedRun(n, acts) && FinDataTaken(n, acts)
    requires Allowed(NetRun(n, acts), Deliver(atA, p, env)) && FinTakenAt(NetRun(n, acts), Deliver(atA, p, env))
    ensures var more := acts + WithRepeat(NetRun(n, acts), atA, p, env, again, any);
            AllowedRun(n, more) ==> !Lossy(NetRun(n, more), atA)
  {
    hide Connected, AllowedRun, FinDataTaken, Step, Direction, TailKept, RefusalAck, Recent, AckRoom, NoSyn;
    var r := NetRun(n, acts);
    var three := WithRepeat(r, atA, p, env, again, any);
    var z := if atA then r.a else r.b;
    NoSynInRefusal(Step(z, Arrive(p.seg, env)).e, p, again);
    ThreeMore(n, acts, three);
    TailInvAlways(n, acts);
    if !p.seg.flags.syn && p.seg.flags.fin {
      FinCloses(r, atA, p, env);
    }
    if AllowedRun(n, acts + three) {
      ForgottenIsDelivered(n, acts + three);
    }
  }

  lemma FinCloses(n: Net, atA: bool, p: Packet, env: Sends)
    requires NetInv(n) && Allowed(n, Deliver(atA, p, env)) && !p.seg.flags.syn && p.seg.flags.fin
    ensures Step(if atA then n.a else n.b, Arrive(p.seg, env)).e.s.halfClosed
  {
    hide Step, SenderInv;
    if atA {
      assert TrueAck(n.a, n.b, p);
      Arrival(n.a, p.seg, env);
    } else {
      assert TrueAck(n.b, n.a, p);
      Arrival(n.b, p.seg, env);
    }
  }

  /** The data segment with FIN that the run below is about. */
  function FinalByte(ackNr: U32): Packet {
    Packet(Segment(0, ackNr, Flags(true, false, false, true, true), [65]), 0, 0)
  }

  lemma FinalByteSent(n: Net)
    requires Connected(n) && n.a.first == 0 && n.a.s.mss > 0
    ensures var r := NetStep(NetStep(n, App(true, [65], true)), Send(true, true));
            && r.b == n.b && FinalByte(n.b.first) in r.ab && Up(r.a)
            && r.a.s.localSeq == 1 && r.a.s.inFlight == 1 && r.a.s.finSent && r.a.s.buf == [65] && r.a.forgotten == 0
            && r.a.delivered == []
  {
    var n1 := NetStep(n, App(true, [65], true));
    assert n1.a.s.buf == [65] && NextChunk(n1.a.s) == [65];
    assert Step(n1.a, Tick(true)).out == [FinalByte(n.b.first).seg];
  }

  /** The receiver without room still counts the FIN, and acknowledges the byte along with it. */
  lemma FinalByteRefused(y: Endpoint, ackNr: U32, refuse: Sends)
    requires Fresh(y) && y.s.peerSeq == 0 && !refuse.l7 && refuse.finAck
    ensures var m := Step(y, Arrive(FinalByte(ackNr).seg, refuse));
            m.out == [Segment(y.first, 2, ACK, [])] && m.e.delivered == []
  {
    var g := FinalByte(ackNr).seg;
    hide AckIn;
    var t := AckIn(y.s, g.ackNr);
    assert t.localSeq == y.s.localSeq by {
      NothingToAck(y.s, ackNr);
    }
    assert DataIn(t, g, refuse) == Receipt(t, [], [], false, false);
    var o := Continue(t, g, refuse);
    assert o.up == [] && o.out == [Segment(y.first, 2, ACK, [])];
  }

  lemma NothingToAck(s: Session, ackNr: U32)
    requires s.inFlight == 0 && s.buf == []
    ensures AckIn(s, ackNr).localSeq == s.localSeq
  {
    var n := Sub(ackNr, s.localSeq);
    if n == 0 {
      assert Add(s.localSeq, n) == s.localSeq;
    }
  }

  lemma FinalByteForgotten(x: Endpoint, seqNr: U32, any: Sends)
    requires Up(x) && x.s.localSeq == 1 && x.s.inFlight == 1 && x.s.buf == [65] && x.forgotten == 0
    ensures Step(x, Arrive(Segment(seqNr, 2, ACK, []), any)).e.forgotten == 1
  {
  }

  /**
   * After a FIN the sender may forget bytes nobody was handed: here the receiver's
   * application had no room for the data that came with the FIN, the FIN was
   * counted all the same, and the acknowledgement covered both.
   */
  lemma FinCanLoseTheTail(n: Net, refuse: Sends, any: Sends)
    requires Connected(n) && n.a.first == 0 && n.a.s.mss > 0 && !refuse.l7 && refuse.finAck
    ensures exists acts :: AllowedRun(n, acts) && NetRun(n, acts).a.forgotten == 1 && NetRun(n, acts).b.delivered == []
  {
    hide Step, SenderInv;
    var a0, a1 := App(true, [65], true), Send(true, true);
    var n1 := NetStep(n, a0);
    var n2 := NetStep(n1, a1);
    FinalByteSent(n);
    var a2 := Deliver(false, FinalByte(n.b.first), refuse);
    var n3 := NetStep(n2, a2);
    FinalByteRefused(n.b, n.b.first, refuse);
    var q := Packet(Segment(n.b.first, 2, ACK, []), 0, 0);
    assert q.seg in Step(n2.b, EventOf(a2)).out;
    assert q in n3.ba;
    var a3 := Deliver(true, q, any);
    var n4 := NetStep(n3, a3);
    FinalByteForgotten(n3.a, n.b.first, any);
    var acts := [a0, a1, a2, a3];
    FourSteps(n, acts);
    assert Allowed(n, a0) && Allowed(n1, a1) && Allowed(n2, a2) && Allowed(n3, a3);
    assert AllowedRun(n, acts);
    assert NetRun(n, acts) == n4;
  }

  lemma FourSteps(n: Net, acts: seq<Action>)
    requires |acts| == 4
    ensures var n1 := NetStep(n, acts[0]);
            var n2 := NetStep(n1, acts[1]);
            var n3 := NetStep(n2, acts[2]);
            && NetRun(n, acts[..0]) == n && NetRun(n, acts[..1]) == n1 && NetRun(n, acts[..2]) == n2
            && NetRun(n, acts[..3]) == n3 && NetRun(n, acts) == NetStep(n3, acts[3])
  {
    hide NetStep;
    assert acts[..1][..0] == acts[..0] && acts[..2][..1] == acts[..1] && acts[..3][..2] == acts[..2];
  }

  // ----- the SYN/ACK again -----------------------------------------------------

  /** The answer of a client to the SYN/ACK it has had before: it acknowledges a byte that was never sent. */
  lemma SynAckAnswered(x: Endpoint, q: Packet, env: Sends)
    requires Fresh(x) && x.s.isClient && x.s.phase.Established? && q.seg.flags == SYN_ACK && q.seg.payload == []
    requires q.seg.seqNr != Add(x.s.peerSeq, 1) && env.synAck
    ensures var m := Step(x, Arrive(q.seg, env));
            && m.e == x.(s := m.e.s) && m.e.s == x.s.(peerSeq := Add(x.s.peerSeq, 1))
            && Segment(x.first, Add(x.s.peerSeq, 1), ACK, []) in m.out
  {
    hide Add;
    var t := x.s.(peerSeq := Add(x.s.peerSeq, 1));
    var o := Continue(t, q.seg, env);
    assert o.up == [] || o.up == [Close];
    AppDataOf([], false);
    assert AppData(o.up) == [];
    assert SegmentIn(x.s, q.seg, env).out[0] == AckSegment(t, t.peerSeq);
  }

  const PSH_ACK := Flags(false, false, false, true, true)

  lemma TwoBytesSent(y: Endpoint)
    requires Fresh(y) && y.s.mss > 0
    ensures var y2 := Step(Step(y, FromApp([65, 66], false)).e, Tick(true)).e;
            && y2 == y.(s := y2.s, queued := [65, 66]) && 1 <= y2.s.inFlight <= 2
            && y2.s == y.s.(buf := [65, 66], inFlight := y2.s.inFlight)
  {
    var y1 := Step(y, FromApp([65, 66], false)).e;
    assert y1.s.buf == [65, 66] && |NextChunk(y1.s)| >= 1;
  }

  /** The server is told of one byte more than the client can have. */
  lemma FirstByteForgotten(y: Endpoint, fly: nat, seqNr: U32, any: Sends)
    requires y.live && !y.s.phase.Closed? && y.s.buf == [65, 66] && y.s.inFlight == fly && 1 <= fly <= 2
    requires y.s.localSeq + 1 < MOD32 && y.forgotten == 0
    ensures var g := Segment(seqNr, y.s.localSeq + 1, ACK, []);
            var r := Step(y, Arrive(g, any)).e;
            && r.forgotten == 1 && r.queued == y.queued && r.live && r.s.peerSeq == y.s.peerSeq
            && SameSender(y.s.(buf := [66], localSeq := y.s.localSeq + 1, inFlight := 0), r.s)
  {
    var g := Segment(seqNr, y.s.localSeq + 1, ACK, []);
    assert Sub(g.ackNr, y.s.localSeq) == 1 && Add(y.s.localSeq, 1) == y.s.localSeq + 1;
    assert AckIn(y.s, g.ackNr) == y.s.(buf := [66], localSeq := y.s.localSeq + 1, inFlight := 0);
    hide AckIn, Add, Sub, Step;
    ArrivalSender(y, g, any);
    ArrivalForgets(y, g, any);
    Arrival(y, g, any);
  }

  lemma SecondByteSent(y: Endpoint)
    requires y.live && y.s.buf == [66] && y.s.inFlight == 0 && y.s.mss > 0 && !y.s.finSent && !y.s.l7SendFin
    ensures Step(y, Tick(true)).out == [Segment(y.s.localSeq, y.s.peerSeq, PSH_ACK, [66])]
    ensures Step(y, Tick(true)).e == y.(s := Step(y, Tick(true)).e.s)
  {
    assert NextChunk(y.s) == [66];
  }

  /** The answer to the second SYN/ACK, and the second byte of the stream. */
  function WrongAck(n: Net): Packet {
    Packet(Segment(n.a.first, Add(n.b.first, 1), ACK, []), 0, 0)
  }

  function SecondByte(n: Net): Packet {
    Packet(Segment(Add(n.b.first, 1), n.a.first, PSH_ACK, [66]), 1, 0)
  }

  function SynAckRun(n: Net, q: Packet, ok: Sends): seq<Action> {
    [Deliver(true, q, ok), App(false, [65, 66], false), Send(false, true),
     Deliver(false, WrongAck(n), ok), Send(false, true), Deliver(true, SecondByte(n), ok)]
  }

  /**
   * What a repeated SYN/ACK can do. The client counts it again and says so; the
   * server forgets a byte that never arrived, and the client is handed the one
   * behind it. Everything but the repeat is as in an allowed run.
   */
  lemma RepeatedSynAckSkipsByte(n: Net, q: Packet, ok: Sends)
    requires Connected(n) && n.a.s.isClient && n.a.s.phase.Established? && n.b.s.mss > 0 && n.b.first + 1 < MOD32
    requires q in n.ba && q.seg.flags == SYN_ACK && q.seg.payload == [] && Add(q.seg.seqNr, 1) == n.b.first
    requires ok.synAck && ok.ack && ok.l7
    ensures var acts := SynAckRun(n, q, ok);
            var r := NetRun(n, acts);
            && (forall i :: 1 <= i < |acts| ==> Allowed(NetRun(n, acts[..i]), acts[i]))
            && r.a.delivered == [66] && r.b.queued == [65, 66] && r.b.forgotten == 1
  {
    hide Step, SenderInv, Recent, AckRoom, Tagged, NetRun;
    var acts := SynAckRun(n, q, ok);
    SixSteps(n, acts);
    var n1 := NetStep(n, acts[0]);
    SecondSynAck(n, q, ok);
    var n3 := NetStep(NetStep(n1, acts[1]), acts[2]);
    TwoBytesSent(n.b);
    ByteSkipped(n3, n, acts[3]);
    var n4 := NetStep(n3, acts[3]);
    SecondByteSent(n4.b);
    var n5 := NetStep(n4, acts[4]);
    SecondByteTaken(n4, n, ok);
    assert Allowed(n1, acts[1]) && Allowed(NetStep(n1, acts[1]), acts[2]) && Allowed(n4, acts[4]);
    assert Allowed(n3, acts[3]) && Allowed(n5, acts[5]);
  }

  lemma SecondSynAck(n: Net, q: Packet, ok: Sends)
    requires Connected(n) && n.a.s.isClient && n.a.s.phase.Established? && ok.synAck
    requires q.seg.flags == SYN_ACK && q.seg.payload == [] && Add(q.seg.seqNr, 1) == n.b.first
    ensures var r := NetStep(n, Deliver(true, q, ok));
            && r.a == n.a.(s := n.a.s.(peerSeq := Add(n.b.first, 1))) && r.b == n.b && WrongAck(n) in r.ab
  {
    assert q.seg.seqNr != Add(n.a.s.peerSeq, 1);
    hide Step, SenderInv, Add;
    SynAckAnswered(n.a, q, ok);
    assert WrongAck(n).seg in Step(n.a, Arrive(q.seg, ok)).out;
  }

  lemma ByteSkipped(n3: Net, n: Net, act: Action)
    requires Fresh(n.b) && n.b.first + 1 < MOD32 && 1 <= n3.b.s.inFlight <= 2
    requires n3.b == n.b.(s := n.b.s.(buf := [65, 66], inFlight := n3.b.s.inFlight), queued := [65, 66])
    requires act.Deliver? && !act.atA && act.p == WrongAck(n) && WrongAck(n) in n3.ab
    ensures Allowed(n3, act)
    ensures var r := NetStep(n3, act);
            && r.a == n3.a && r.b.live && r.b.forgotten == 1 && r.b.queued == [65, 66]
            && r.b.s.peerSeq == n.b.s.peerSeq && r.b.delivered == []
            && SameSender(n.b.s.(buf := [66], localSeq := Add(n.b.first, 1)), r.b.s)
  {
    hide Step, SenderInv;
    FirstByteForgotten(n3.b, n3.b.s.inFlight, n.a.first, act.env);
    Arrival(n3.b, WrongAck(n).seg, act.env);
  }

  lemma SecondByteTaken(n4: Net, n: Net, ok: Sends)
    requires Connected(n) && n4.a == n.a.(s := n.a.s.(peerSeq := Add(n.b.first, 1))) && ok.l7 && ok.ack
    requires n4.b.forgotten == 1 && n4.b.delivered == []
    requires Step(n4.b, Tick(true)).out == [SecondByte(n).seg]
    requires Step(n4.b, Tick(true)).e == n4.b.(s := Step(n4.b, Tick(true)).e.s)
    ensures var n5 := NetStep(n4, Send(false, true));
            var act := Deliver(true, SecondByte(n), ok);
            var r := NetStep(n5, act);
            Allowed(n5, act) && r.a.delivered == [66] && r.b.queued == n4.b.queued && r.b.forgotten == 1
  {
    hide Step, SenderInv, Add;
    var n5 := NetStep(n4, Send(false, true));
    assert SecondByte(n).seg in Step(n4.b, Tick(true)).out;
    assert SecondByte(n) in n5.ba;
    Arrival(n5.a, SecondByte(n).seg, ok);
    assert [] + [66] == [66];
  }

  lemma SixSteps(n: Net, acts: seq<Action>)
    requires |acts| == 6
    ensures var n1 := NetStep(n, acts[0]);
            var n2 := NetStep(n1, acts[1]);
            var n3 := NetStep(n2, acts[2]);
            var n4 := NetStep(n3, acts[3]);
            var n5 := NetStep(n4, acts[4]);
            && NetRun(n, acts[..1]) == n1 && NetRun(n, acts[..2]) == n2 && NetRun(n, acts[..3]) == n3
            && NetRun(n, acts[..4]) == n4 && NetRun(n, acts[..5]) == n5 && NetRun(n, acts) == NetStep(n5, acts[5])
  {
    hide NetStep;
    assert acts[..5][..4] == acts[..4];
    FourSteps(n, acts[..4]);
    assert forall i :: 0 <= i < 4 ==> acts[..4][..i] == acts[..i];
  }
}

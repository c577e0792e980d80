/**
 * The client command loop of the VNC server (src/vnc_server.cpp), and the client
 * messages of sections 7.5.1 to 7.5.6 of RFC 6143.
 *
 * The loop is a machine that, in each state, wants a known number of bytes. Fed
 * through recv_func it sees the byte stream, not the chunks.
 */
module VncCommands {
  import opened Bytes
  import opened ChunkQueue

  datatype Phase =
    | Command                // vs_running_waiting_cmd
    | Data(cmd: Byte)        // vs_running_waiting_data
    | Extra(n: nat)          // vs_running_waiting_data_extra
    | Ignore(n: nat)         // vs_running_waiting_data_ignore
    | Ended                  // the loop was left

  datatype Rect = Rect(incremental: Byte, x: U16, y: U16, w: U16, h: U16)

  /**
   * Encodings are kept as their 32-bit patterns; served lists the update requests
   * answered, and room says how many answers the connection will still take.
   */
  datatype State = State(phase: Phase, depth: Byte, encodings: seq<U32>, served: seq<Rect>, room: nat)

  /** An answer that cannot be sent ends the loop. */
  function Answer(s: State, r: Rect): State {
    if s.room == 0 then s.(phase := Ended) else s.(phase := Command, served := s.served + [r], room := s.room - 1)
  }

  // ----- the machine ---------------------------------------------------------

  function Known(cmd: Byte): bool {
    cmd == 0 || cmd == 2 || cmd == 3 || cmd == 4 || cmd == 5 || cmd == 6
  }

  /** The number of bytes the loop asks recv_alloc for next. */
  function Need(p: Phase): nat {
    match p
    case Command => 1
    case Data(cmd) =>
      if cmd == 0 then 19 else if cmd == 2 then 3 else if cmd == 3 then 9
      else if cmd == 4 then 7 else if cmd == 5 then 5 else if cmd == 6 then 7 else 0
    case Extra(n) => 4 * n
    case Ignore(n) => n
    case Ended => 0
  }

  function DecodeEncodings(b: seq<Byte>): seq<U32>
    requires |b| % 4 == 0
  {
    if b == [] then [] else [FromBe32(b[..4])] + DecodeEncodings(b[4..])
  }

  /** What the loop does with the bytes it asked for. */
  function Feed(s: State, b: seq<Byte>): State
    requires |b| == Need(s.phase)
  {
    match s.phase
    case Command => s.(phase := if Known(b[0]) then Data(b[0]) else Ended)
    case Data(cmd) =>
      if cmd == 0 then s.(phase := Command, depth := b[4])
      else if cmd == 2 then s.(phase := Extra(Word(b[1], b[2])))
      else if cmd == 3 then
        Answer(s, Rect(b[0], Word(b[1], b[2]), Word(b[3], b[4]), Word(b[5], b[6]), Word(b[7], b[8])))
      else if cmd == 4 || cmd == 5 then s.(phase := Command)
      else if cmd == 6 then
        var n := FromBe32(b[3..7]);
        // a length with its top bit set is negative in the code, whose assertion then ends the process
        s.(phase := if n == 0 then Command else if n < 0x8000_0000 then Ignore(n) else Ended)
      else s.(phase := Ended)
    case Extra(_) => s.(phase := Command, encodings := DecodeEncodings(b))
    case Ignore(_) => s.(phase := Command)
    case Ended => s
  }

  predicate Running(s: State) {
    !s.phase.Ended?
  }

  /** Of two steps in a row at least one takes a byte. */
  function Rank(p: Phase): nat {
    match p
    case Command => 0
    case Extra(_) => 1
    case Ignore(_) => 1
    case Data(_) => 2
    case Ended => 0
  }

  datatype Result = Result(s: State, left: seq<Byte>)

  /** The machine on a byte stream: it stops when it has to wait for more, or has ended. */
  function Consume(s: State, b: seq<Byte>): Result
    decreases |b|, Rank(s.phase)
  {
    if !Running(s) || |b| < Need(s.phase) then Result(s, b)
    else Consume(Feed(s, b[..Need(s.phase)]), b[Need(s.phase)..])
  }

  // ----- the loop on a chunk queue --------------------------------------------

  /** The encodings loop. */
  method ReadEncodings(bin: seq<Byte>, n: nat) returns (encodings: seq<U32>)
    requires |bin| == 4 * n
    ensures encodings == DecodeEncodings(bin)
  {
    encodings := [];
    assert bin[0..] == bin;
    for i := 0 to n
      invariant encodings + DecodeEncodings(bin[4 * i..]) == DecodeEncodings(bin)
    {
      var o := 4 * i;
      assert bin[o..][..4] == bin[o..o + 4] && bin[o..][4..] == bin[4 * (i + 1)..];
      encodings := encodings + [FromBe32(bin[o..o + 4])];
    }
    assert bin[4 * n..] == [];
  }

  class VncSession {
    const incoming: Deque
    var s: State

    constructor (incoming: Deque, depth: Byte, room: nat)
      ensures this.incoming == incoming && s == State(Command, depth, [], [], room)
    {
      this.incoming := incoming;
      s := State(Command, depth, [], [], room);
    }

    /** One state's worth of the loop, on bytes that recv_alloc returned. */
    method Handle(b: seq<Byte>)
      requires Running(s) && |b| == Need(s.phase)
      modifies this`s
      ensures s == Feed(old(s), b)
    {
      match s.phase {
        case Command =>
          s := s.(phase := if Known(b[0]) then Data(b[0]) else Ended);
        case Data(cmd) =>
          if cmd == 0 {
            var data := b[3..];
            s := s.(depth := data[1], phase := Command);
          } else if cmd == 2 {
            s := s.(phase := Extra(Word(b[1], b[2])));
          } else if cmd == 3 {
            var r := Rect(b[0], Word(b[1], b[2]), Word(b[3], b[4]), Word(b[5], b[6]), Word(b[7], b[8]));
            if s.room == 0 {
              s := s.(phase := Ended);
            } else {
              s := s.(served := s.served + [r], room := s.room - 1, phase := Command);
            }
          } else if cmd == 4 || cmd == 5 {
            s := s.(phase := Command);
          } else if cmd == 6 {
            var n := FromBe32(b[3..7]);
            if n == 0 {
              s := s.(phase := Command);
            } else {
              s := s.(phase := if n < 0x8000_0000 then Ignore(n) else Ended);
            }
          } else {
            s := s.(phase := Ended);
          }
        case Extra(n) =>
          var encodings := ReadEncodings(b, n);
          s := s.(encodings := encodings, phase := Command);
        case Ignore(n) =>
          s := s.(phase := Command);
      }
    }

    /**
     * The loop. However the stream is cut into chunks, the session ends up where
     * the machine on the plain stream does; partial is what a last, unfinished
     * read has already taken.
     */
    method Process(ticks: seq<Tick>) returns (partial: seq<Byte>, used: nat)
      requires Running(s)
      modifies this`s, incoming
      ensures used <= |ticks|
      ensures Consume(old(s), Flat(old(incoming.q)) + Arrived(ticks))
           == Consume(s, partial + Flat(incoming.q) + Arrived(ticks[used..]))
      ensures Running(s) ==> |partial| < Need(s.phase) && (used == |ticks| || ticks[used].stop)
    {
      hide Feed, Need, Flat, Arrived;
      used, partial := 0, [];
      ghost var goal := Consume(s, Flat(incoming.q) + Arrived(ticks));
      assert ticks[0..] == ticks;
      while Running(s)
        invariant used <= |ticks|
        invariant goal == Consume(s, Flat(incoming.q) + Arrived(ticks[used..]))
        decreases |Flat(incoming.q) + Arrived(ticks[used..])|, Rank(s.phase)
      {
        var n := Need(s.phase);
        ghost var before := Flat(incoming.q);
        ghost var stream := before + Arrived(ticks[used..]);
        var got, k := Recv(incoming, n, ticks[used..]);
        ghost var rest := Flat(incoming.q) + Arrived(ticks[used + k..]);
        Remaining(ticks, used, k);
        ghost var came := Arrived(ticks[used..][..k]);
        assert stream == before + (came + Arrived(ticks[used + k..])) == (before + came) + Arrived(ticks[used + k..]);
        assert stream == (got + Flat(incoming.q)) + Arrived(ticks[used + k..]) == got + rest;
        used := used + k;
        if |got| != n {
          partial := got;
          assert partial + Flat(incoming.q) + Arrived(ticks[used..]) == stream;
          return;
        }
        assert stream[..n] == got && stream[n..] == rest;
        RankFalls(s, got);
        Handle(got);
      }
      assert partial + Flat(incoming.q) + Arrived(ticks[used..]) == Flat(incoming.q) + Arrived(ticks[used..]);
    }
  }

  lemma Remaining(ticks: seq<Tick>, used: nat, k: nat)
    requires used + k <= |ticks|
    ensures Arrived(ticks[used..]) == Arrived(ticks[used..][..k]) + Arrived(ticks[used + k..])
    ensures used + k < |ticks| ==> k < |ticks[used..]| && ticks[used..][k] == ticks[used + k]
  {
    assert ticks[used..] == ticks[used..][..k] + ticks[used + k..];
    ArrivedConcat(ticks[used..][..k], ticks[used + k..]);
  }

  lemma RankFalls(s: State, b: seq<Byte>)
    requires Running(s) && |b| == Need(s.phase)
    ensures |b| > 0 || Rank(Feed(s, b).phase) < Rank(s.phase)
  {
  }

  /** When everything pushed has been read, the session's state depends on the bytes alone. */
  lemma SettledState(s: State, b: seq<Byte>, t: State, partial: seq<Byte>)
    requires Consume(s, b) == Consume(t, partial) && (Running(t) ==> |partial| < Need(t.phase))
    ensures Consume(s, b) == Result(t, partial)
  {
  }

  // ----- client messages -------------------------------------------------------

  datatype ClientMessage =
    | SetPixelFormat(padding: seq<Byte>, format: seq<Byte>)
    | SetEncodings(pad: Byte, encodings: seq<U32>)
    | UpdateRequest(r: Rect)
    | KeyEvent(key: seq<Byte>)
    | PointerEvent(pointer: seq<Byte>)
    | CutText(padding: seq<Byte>, text: seq<Byte>)

  predicate WellFormed(m: ClientMessage) {
    match m
    case SetPixelFormat(padding, format) => |padding| == 3 && |format| == 16
    case SetEncodings(_, encodings) => |encodings| < MOD16
    case UpdateRequest(_) => true
    case KeyEvent(key) => |key| == 7
    case PointerEvent(pointer) => |pointer| == 5
    case CutText(padding, text) => |padding| == 3 && |text| < 0x8000_0000
  }

  function EncodeEncodings(es: seq<U32>): (b: seq<Byte>)
    ensures |b| == 4 * |es|
  {
    if es == [] then [] else Be32(es[0]) + EncodeEncodings(es[1..])
  }

  function Encode(m: ClientMessage): seq<Byte>
    requires WellFormed(m)
  {
    match m
    case SetPixelFormat(padding, format) => [0] + (padding + format)
    case SetEncodings(pad, encodings) => [2] + ([pad] + Be16(|encodings|) + EncodeEncodings(encodings))
    case UpdateRequest(r) => [3] + ([r.incremental] + Be16(r.x) + Be16(r.y) + Be16(r.w) + Be16(r.h))
    case KeyEvent(key) => [4] + key
    case PointerEvent(pointer) => [5] + pointer
    case CutText(padding, text) => [6] + (padding + Be32(|text|) + text)
  }

  /** What each message means for a session that waits for a command. */
  function Apply(s: State, m: ClientMessage): State
    requires WellFormed(m)
  {
    match m
    case SetPixelFormat(_, format) => s.(depth := format[1])
    case SetEncodings(_, encodings) => s.(encodings := encodings)
    case UpdateRequest(r) => Answer(s, r)
    case KeyEvent(_) => s
    case PointerEvent(_) => s
    case CutText(_, _) => s
  }

  lemma {:induction false} EncodingsRoundTrip(es: seq<U32>)
    ensures DecodeEncodings(EncodeEncodings(es)) == es
  {
    if es != [] {
      EncodingsRoundTrip(es[1..]);
      var b := EncodeEncodings(es);
      assert b[..4] == Be32(es[0]) && b[4..] == EncodeEncodings(es[1..]);
    }
  }

  /** One step of the machine on bytes it has enough of. */
  lemma Eat(s: State, b: seq<Byte>, rest: seq<Byte>)
    requires Running(s) && |b| == Need(s.phase)
    ensures Consume(s, b + rest) == Consume(Feed(s, b), rest)
  {
  }

  /** The machine crosses one message and is waiting for a command again. */
  lemma OneMessage(s: State, m: ClientMessage, rest: seq<Byte>)
    requires s.phase.Command? && WellFormed(m)
    ensures Consume(s, Encode(m) + rest) == Consume(Apply(s, m), rest)
  {
    hide Consume;
    var e := Encode(m);
    var body := e[1..] + rest;
    assert e + rest == [e[0]] + body;
    Eat(s, [e[0]], body);
    var t := s.(phase := Data(e[0]));
    match m
    case SetPixelFormat(padding, format) =>
      Eat(t, padding + format, rest);
    case SetEncodings(pad, encodings) =>
      var head, tail := [pad] + Be16(|encodings|), EncodeEncodings(encodings);
      assert body == head + (tail + rest);
      Eat(t, head, tail + rest);
      assert [head[1], head[2]] == Be16(|encodings|);
      EncodingsRoundTrip(encodings);
      Eat(t.(phase := Extra(|encodings|)), tail, rest);
    case UpdateRequest(r) =>
      var b := [r.incremental] + Be16(r.x) + Be16(r.y) + Be16(r.w) + Be16(r.h);
      assert [b[1], b[2]] == Be16(r.x) && [b[3], b[4]] == Be16(r.y);
      assert [b[5], b[6]] == Be16(r.w) && [b[7], b[8]] == Be16(r.h);
      Eat(t, b, rest);
    case KeyEvent(key) =>
      Eat(t, key, rest);
    case PointerEvent(pointer) =>
      Eat(t, pointer, rest);
    case CutText(padding, text) =>
      var head := padding + Be32(|text|);
      assert body == head + (text + rest);
      assert head[3..7] == Be32(|text|);
      Eat(t, head, text + rest);
      if text != [] {
        Eat(t.(phase := Ignore(|text|)), text, rest);
      } else {
        assert text + rest == rest;
      }
  }

  predicate AllWellFormed(ms: seq<ClientMessage>) {
    forall m :: m in ms ==> WellFormed(m)
  }

  function EncodeAll(ms: seq<ClientMessage>): seq<Byte>
    requires AllWellFormed(ms)
  {
    if ms == [] then [] else Encode(ms[0]) + EncodeAll(ms[1..])
  }

  /** The messages in turn, up to one whose answer cannot be sent. */
  function ApplyAll(s: State, ms: seq<ClientMessage>): State
    requires AllWellFormed(ms)
    decreases |ms|
  {
    if ms == [] || !s.phase.Command? then s else ApplyAll(Apply(s, ms[0]), ms[1..])
  }

  /** The messages behind that one. */
  function Unread(s: State, ms: seq<ClientMessage>): (r: seq<ClientMessage>)
    requires AllWellFormed(ms)
    ensures AllWellFormed(r)
    decreases |ms|
  {
    if ms == [] || !s.phase.Command? then ms else Unread(Apply(s, ms[0]), ms[1..])
  }

  function Requests(ms: seq<ClientMessage>): nat {
    if ms == [] then 0 else (if ms[0].UpdateRequest? then 1 else 0) + Requests(ms[1..])
  }

  /** All messages are read exactly if all answers can be sent. */
  lemma {:induction false} AllReadIff(s: State, ms: seq<ClientMessage>)
    requires s.phase.Command? && AllWellFormed(ms)
    ensures var r := ApplyAll(s, ms);
            if Requests(ms) <= s.room
            then r.phase.Command? && Unread(s, ms) == [] && r.room == s.room - Requests(ms)
            else r.phase.Ended? && r.room == 0
    decreases |ms|
  {
    if ms != [] {
      var t := Apply(s, ms[0]);
      if t.phase.Command? {
        AllReadIff(t, ms[1..]);
      }
    }
  }

  /**
   * Framing. After any messages the machine waits for a command, with exactly the
   * bytes behind them unread, and holds what the messages say, if and only if it
   * could answer all update requests; otherwise it has ended behind the first it
   * could not answer.
   */
  lemma {:induction false} Framing(s: State, ms: seq<ClientMessage>, rest: seq<Byte>)
    requires s.phase.Command? && AllWellFormed(ms)
    ensures ApplyAll(s, ms).phase == if Requests(ms) <= s.room then Command else Ended
    ensures Requests(ms) <= s.room ==> Unread(s, ms) == []
    ensures Consume(s, EncodeAll(ms) + rest) == Consume(ApplyAll(s, ms), EncodeAll(Unread(s, ms)) + rest)
    decreases |ms|
  {
    hide Consume, Encode;
    AllReadIff(s, ms);
    if ms != [] {
      var tail := EncodeAll(ms[1..]) + rest;
      assert EncodeAll(ms) + rest == Encode(ms[0]) + tail;
      OneMessage(s, ms[0], tail);
      if Apply(s, ms[0]).phase.Command? {
        Framing(Apply(s, ms[0]), ms[1..], rest);
      }
    }
  }

  /** A command that is not one of the six ends the loop, with everything behind it unread. */
  lemma OtherCommandEnds(s: State, cmd: Byte, rest: seq<Byte>)
    requires s.phase.Command?
    ensures var r := Consume(s, [cmd] + rest);
            cmd != 0 && cmd != 2 && cmd != 3 && cmd != 4 && cmd != 5 && cmd != 6 ==> r.s.phase.Ended? && r.left == rest
  {
    Eat(s, [cmd], rest);
  }

  /** A proper part of the body of a message, after its command byte. */
  lemma InsideEncodings(t: State, pad: Byte, encodings: seq<U32>, b: seq<Byte>)
    requires t.phase == Data(2) && |encodings| < MOD16
    requires var body := [pad] + Be16(|encodings|) + EncodeEncodings(encodings); b <= body && 3 <= |b| < |body|
    ensures var r := Consume(t, b).s; r.phase == Extra(|encodings|)
  {
    var head := b[..3];
    assert head == [pad] + Be16(|encodings|) && b == head + b[3..];
    assert [head[1], head[2]] == Be16(|encodings|);
    assert Feed(t, head) == t.(phase := Extra(|encodings|));
    Eat(t, head, b[3..]);
  }

  lemma InsideCutText(t: State, padding: seq<Byte>, text: seq<Byte>, b: seq<Byte>)
    requires t.phase == Data(6) && |padding| == 3 && |text| < 0x8000_0000
    requires var body := padding + Be32(|text|) + text; b <= body && 7 <= |b| < |body|
    ensures var r := Consume(t, b).s; r.phase == Ignore(|text|)
  {
    var head := b[..7];
    assert head == padding + Be32(|text|) && b == head + b[7..];
    assert head[3..7] == Be32(|text|);
    assert Feed(t, head) == t.(phase := Ignore(|text|));
    Eat(t, head, b[7..]);
  }

  /** Inside a message the machine is never waiting for a command. */
  lemma NotAtBoundary(s: State, m: ClientMessage, k: nat)
    requires s.phase.Command? && WellFormed(m) && 0 < k < |Encode(m)|
    ensures var r := Consume(s, Encode(m)[..k]).s; Running(r) && !r.phase.Command?
  {
    var e := Encode(m);
    var t := s.(phase := Data(e[0]));
    var b := e[..k][1..];
    assert e[..k] == [e[0]] + b && b <= e[1..];
    Eat(s, [e[0]], b);
    if |b| < Need(t.phase) {
      assert Consume(t, b).s == t;
    } else {
      hide Consume;
      match m
      case SetEncodings(pad, encodings) => InsideEncodings(t, pad, encodings, b);
      case CutText(padding, text) => InsideCutText(t, padding, text, b);
      case _ =>
    }
  }

  /** The last SetEncodings and the last SetPixelFormat decide. */
  function LastEncodings(ms: seq<ClientMessage>, was: seq<U32>): seq<U32> {
    if ms == [] then was
    else if ms[|ms| - 1].SetEncodings? then ms[|ms| - 1].encodings
    else LastEncodings(ms[..|ms| - 1], was)
  }

  function LastDepth(ms: seq<ClientMessage>, was: Byte): Byte
    requires AllWellFormed(ms)
  {
    if ms == [] then was
    else if ms[|ms| - 1].SetPixelFormat? then
      assert ms[|ms| - 1] in ms;
      ms[|ms| - 1].format[1]
    else LastDepth(ms[..|ms| - 1], was)
  }

  lemma {:induction false} ApplySnoc(s: State, ms: seq<ClientMessage>, m: ClientMessage)
    requires AllWellFormed(ms) && WellFormed(m) && ApplyAll(s, ms).phase.Command?
    ensures AllWellFormed(ms + [m]) && ApplyAll(s, ms + [m]) == Apply(ApplyAll(s, ms), m)
    decreases |ms|
  {
    if ms == [] {
      assert ms + [m] == [m] && [m][1..] == [];
    } else {
      assert (ms + [m])[1..] == ms[1..] + [m];
      ApplySnoc(Apply(s, ms[0]), ms[1..], m);
    }
  }

  lemma {:induction false} RequestsSnoc(ms: seq<ClientMessage>, m: ClientMessage)
    ensures Requests(ms + [m]) == Requests(ms) + if m.UpdateRequest? then 1 else 0
  {
    if ms == [] {
      assert ms + [m] == [m] && [m][1..] == [];
    } else {
      assert (ms + [m])[1..] == ms[1..] + [m];
      RequestsSnoc(ms[1..], m);
    }
  }

  lemma {:induction false} LastOnesHold(s: State, ms: seq<ClientMessage>)
    requires s.phase.Command? && AllWellFormed(ms) && Requests(ms) <= s.room
    ensures ApplyAll(s, ms).encodings == LastEncodings(ms, s.encodings)
    ensures ApplyAll(s, ms).depth == LastDepth(ms, s.depth)
    decreases |ms|
  {
    if ms != [] {
      var n := |ms| - 1;
      assert ms == ms[..n] + [ms[n]];
      RequestsSnoc(ms[..n], ms[n]);
      LastOnesHold(s, ms[..n]);
      AllReadIff(s, ms[..n]);
      ApplySnoc(s, ms[..n], ms[n]);
    }
  }

  lemma Waiting(s: State, b: seq<Byte>)
    requires s.phase.Ended? || (s.phase.Command? && b == [])
    ensures Consume(s, b) == Result(s, b)
  {
  }

  /** What the machine makes of the messages alone. */
  lemma ReadOrLeft(s: State, ms: seq<ClientMessage>)
    requires s.phase.Command? && AllWellFormed(ms)
    ensures Consume(s, EncodeAll(ms)) == Result(ApplyAll(s, ms), EncodeAll(Unread(s, ms)))
  {
    hide *;
    var left := EncodeAll(Unread(s, ms));
    Framing(s, ms, []);
    NothingEncoded();
    Waiting(ApplyAll(s, ms), left);
    assert EncodeAll(ms) + [] == EncodeAll(ms) && left + [] == left;
  }

  lemma NothingEncoded()
    ensures AllWellFormed([]) && EncodeAll([]) == []
  {
  }

  /**
   * Command theorem. A client sends ms; the network delivers the bytes in any
   * chunks. Once all have been read, and if all update requests could be answered,
   * the session waits for a command, nothing is half read, and its encodings and
   * depth are those last set; if not, the loop was left behind the request it
   * could not answer.
   */
  lemma ChunksDoNotMatter(s: State, ms: seq<ClientMessage>, t: State, partial: seq<Byte>)
    requires s.phase.Command? && AllWellFormed(ms)
    requires Consume(s, EncodeAll(ms)) == Consume(t, partial) && (Running(t) ==> |partial| < Need(t.phase))
    ensures t == ApplyAll(s, ms) && partial == EncodeAll(Unread(s, ms))
    ensures t.phase == if Requests(ms) <= s.room then Command else Ended
    ensures Requests(ms) <= s.room ==>
              partial == [] && t.encodings == LastEncodings(ms, s.encodings) && t.depth == LastDepth(ms, s.depth)
  {
    hide *;
    SettledState(s, EncodeAll(ms), t, partial);
    ReadOrLeft(s, ms);
    Framing(s, ms, []);
    NothingEncoded();
    if Requests(ms) <= s.room {
      LastOnesHold(s, ms);
    }
  }
}

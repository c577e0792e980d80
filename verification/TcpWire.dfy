/**
 * TCP segments as bytes: the header send_tcp_packet writes and the checks and
 * field reads at the start of run_in (src/tcp_server.cpp).
 */
module TcpWire {
  import opened Bytes
  import opened Checksum
  import opened TcpSession

  const TCP: Byte := 6

  datatype Header = Header(srcPort: U16, dstPort: U16, window: U16)

  function Bit(b: bool, weight: Byte): Byte {
    if b then weight else 0
  }

  function FlagsByte(f: Flags): Byte {
    Bit(f.fin, 1) + Bit(f.syn, 2) + Bit(f.rst, 4) + Bit(f.psh, 8) + Bit(f.ack, 16)
  }

  function FlagsOf(b: Byte): Flags {
    Flags(b % 2 == 1, b / 2 % 2 == 1, b / 4 % 2 == 1, b / 8 % 2 == 1, b / 16 % 2 == 1)
  }

  /** The packet before its checksum is filled in. */
  function Unsummed(h: Header, g: Segment): (p: seq<Byte>)
    ensures |p| == 20 + |g.payload|
  {
    Be16(h.srcPort) + Be16(h.dstPort) + Be32(g.seqNr) + Be32(g.ackNr)
    + [0x50, FlagsByte(g.flags)] + Be16(h.window) + [0, 0, 0, 0] + g.payload
  }

  function Encode(from: seq<Byte>, to: seq<Byte>, h: Header, g: Segment): (p: seq<Byte>)
    requires |from| == 4 && |to| == 4 && |g.payload| <= 0xffff - 20
    ensures |p| == 20 + |g.payload|
  {
    var p := Unsummed(h, g);
    StoreChecksum(p, 16, InternetChecksum(PseudoHeader(from, to, |p|, TCP) + Words(p)))
  }

  /** What run_in makes of a packet; None where it drops it. */
  function Decode(from: seq<Byte>, to: seq<Byte>, p: seq<Byte>): Option<(Header, Segment)>
    requires |from| == 4 && |to| == 4 && |p| <= 0xffff
  {
    if |p| < 20 then None
    else if InternetChecksum(PseudoHeader(from, to, |p|, TCP) + Words(p)) != 0 then None
    else
      var headerSize := p[12] / 16 * 4;
      if headerSize < 20 || headerSize > |p| then None
      else
        Some((
          Header(FromBe16(p[0..2]), FromBe16(p[2..4]), FromBe16(p[14..16])),
          Segment(FromBe32(p[4..8]), FromBe32(p[8..12]), FlagsOf(p[13]), p[headerSize..])))
  }

  /** A number stored most significant byte first. */
  predicate Stored16(p: seq<Byte>, at: nat, v: int) {
    at + 2 <= |p| && v / 256 == p[at] && v % 256 == p[at + 1]
  }

  predicate Stored32(p: seq<Byte>, at: nat, v: int) {
    at + 4 <= |p| && Stored16(p, at, v / 65536) && Stored16(p, at + 2, v % 65536)
  }

  /** The header of section 3.1 of RFC 793, for a header of n bytes. */
  predicate HeaderLayout(p: seq<Byte>, h: Header, g: Segment, n: nat) {
    && 20 <= n <= |p| && p[12] / 16 * 4 == n
    && Stored16(p, 0, h.srcPort) && Stored16(p, 2, h.dstPort) && Stored16(p, 14, h.window)
    && Stored32(p, 4, g.seqNr) && Stored32(p, 8, g.ackNr)
    && (g.flags.fin <==> p[13] % 2 == 1) && (g.flags.syn <==> p[13] / 2 % 2 == 1)
    && (g.flags.rst <==> p[13] / 4 % 2 == 1) && (g.flags.psh <==> p[13] / 8 % 2 == 1)
    && (g.flags.ack <==> p[13] / 16 % 2 == 1)
    && g.payload == p[n..]
  }

  lemma Stored16Read(p: seq<Byte>, at: nat)
    requires at + 2 <= |p|
    ensures Stored16(p, at, FromBe16(p[at..at + 2]))
  {
  }

  lemma Stored32Read(p: seq<Byte>, at: nat)
    requires at + 4 <= |p|
    ensures Stored32(p, at, FromBe32(p[at..at + 4]))
  {
    var b := p[at..at + 4];
    assert b[..2] == [p[at], p[at + 1]] && b[2..] == [p[at + 2], p[at + 3]];
  }

  /**
   * What run_in accepts, and what it reads: a packet is dropped exactly if it is
   * too short, does not verify, or claims a header of less than 20 bytes or more
   * than there are; otherwise every field is where the standard puts it and the
   * payload starts behind the header, options included.
   */
  lemma DecodeReads(from: seq<Byte>, to: seq<Byte>, p: seq<Byte>)
    requires |from| == 4 && |to| == 4 && |p| <= 0xffff
    ensures var d := Decode(from, to, p);
            && (d.Some? <==> && |p| >= 20 && InternetChecksum(PseudoHeader(from, to, |p|, TCP) + Words(p)) == 0
                             && 20 <= p[12] / 16 * 4 <= |p|)
            && (d.Some? ==> HeaderLayout(p, d.value.0, d.value.1, p[12] / 16 * 4))
  {
    hide InternetChecksum, PseudoHeader, Words, FromBe16, FromBe32, Stored16, Stored32;
    if |p| >= 20 {
      Stored16Read(p, 0);
      Stored16Read(p, 2);
      Stored16Read(p, 14);
      Stored32Read(p, 4);
      Stored32Read(p, 8);
    }
  }

  /** What send_tcp_packet writes is laid out by the standard. */
  lemma EncodeWrites(from: seq<Byte>, to: seq<Byte>, h: Header, g: Segment)
    requires |from| == 4 && |to| == 4 && |g.payload| <= 0xffff - 20
    ensures HeaderLayout(Encode(from, to, h, g), h, g, 20)
  {
    hide HeaderLayout, Decode, Encode, InternetChecksum;
    WireRoundTrip(from, to, h, g);
    DecodeReads(from, to, Encode(from, to, h, g));
    HeaderIsTwenty(from, to, h, g);
  }

  lemma HeaderIsTwenty(from: seq<Byte>, to: seq<Byte>, h: Header, g: Segment)
    requires |from| == 4 && |to| == 4 && |g.payload| <= 0xffff - 20
    ensures Encode(from, to, h, g)[12] == 0x50
  {
    hide InternetChecksum, Words;
  }

  lemma FlagsRoundTrip(f: Flags)
    ensures FlagsOf(FlagsByte(f)) == f
  {
    var b: int := FlagsByte(f);
    var fin: int, syn: int, rst: int, psh: int, ack: int
      := Bit(f.fin, 1), Bit(f.syn, 1), Bit(f.rst, 1), Bit(f.psh, 1), Bit(f.ack, 1);
    assert b == fin + 2 * (syn + 2 * (rst + 2 * (psh + 2 * ack)));
    assert b / 2 == syn + 2 * (rst + 2 * (psh + 2 * ack));
    assert b / 4 == rst + 2 * (psh + 2 * ack);
    assert b / 8 == psh + 2 * ack;
  }

  /** Whatever one endpoint sends, the other accepts and reads back unchanged. */
  lemma WireRoundTrip(from: seq<Byte>, to: seq<Byte>, h: Header, g: Segment)
    requires |from| == 4 && |to| == 4 && |g.payload| <= 0xffff - 20
    ensures Decode(from, to, Encode(from, to, h, g)) == Some((h, g))
  {
    var u := Unsummed(h, g);
    var p := Encode(from, to, h, g);
    assert u[16] == 0 && u[17] == 0;
    StoredChecksumVerifies(u, 16, PseudoHeader(from, to, |u|, TCP));
    FlagsRoundTrip(g.flags);
    assert forall i :: 0 <= i < |u| && i != 16 && i != 17 ==> p[i] == u[i];
    assert p[0..2] == Be16(h.srcPort);
    assert p[2..4] == Be16(h.dstPort);
    assert p[4..8] == Be32(g.seqNr);
    assert p[8..12] == Be32(g.ackNr);
    assert p[12] == 0x50 && p[13] == FlagsByte(g.flags);
    assert p[14..16] == Be16(h.window);
    assert p[20..] == g.payload;
  }
}

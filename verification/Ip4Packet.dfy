/**
 * IPv4 packets of the stack (src/ip4_server.cpp): the header the fragment loop
 * writes, and the fields and checks the receiver applies.
 */
module Ip4Packet {
  import opened Bytes
  import opened Checksum

  const TTL: Byte := 63

  /** What all fragments of one datagram share. */
  datatype Meta = Meta(from: seq<Byte>, to: seq<Byte>, protocol: Byte, id: U16)

  predicate ValidMeta(m: Meta) {
    |m.from| == 4 && |m.to| == 4
  }

  /** A slice of a datagram's payload, with its more-fragments flag. */
  datatype Piece = Piece(off: U16, bytes: seq<Byte>, more: bool)

  /** Section 3.1 of RFC 791: offsets count units of eight bytes, lengths have sixteen bits. */
  predicate Sendable(p: Piece) {
    p.off % 8 == 0 && |p.bytes| <= 0xffff - 20
  }

  function Unsummed(m: Meta, p: Piece): (h: seq<Byte>)
    requires ValidMeta(m) && Sendable(p)
    ensures |h| == 20
  {
    var size := |p.bytes| + 20;
    [0x45, 0, size / 256, size % 256,
     m.id / 256, m.id % 256, p.off / 2048 + (if p.more then 32 else 0), p.off / 8 % 256,
     TTL, m.protocol, 0, 0,
     m.from[0], m.from[1], m.from[2], m.from[3],
     m.to[0], m.to[1], m.to[2], m.to[3]]
  }

  /** One fragment on the wire. */
  function Wire(m: Meta, p: Piece): (pkt: seq<Byte>)
    requires ValidMeta(m) && Sendable(p)
    ensures |pkt| == 20 + |p.bytes|
  {
    var h := Unsummed(m, p);
    StoreChecksum(h, 10, InternetChecksum(Words(h))) + p.bytes
  }

  /** What the receiver does with a packet before it looks at fragments. */
  datatype Parsed =
    | Drop
    | Error(kind: Byte, code: Byte)
    | Good(meta: Meta, piece: Piece)

  function Parse(pl: seq<Byte>, listen: seq<Byte>, protocols: set<Byte>): Parsed {
    if |pl| < 20 then Drop
    else
      var headerSize := pl[0] % 16 * 4;
      var ipSize: int := Word(pl[2], pl[3]);
      if pl[0] / 16 != 4 then Drop
      else if pl[16..20] != listen then Drop
      else if headerSize > ipSize then Error(12, 2)
      else if ipSize > |pl| then Error(12, 2)
      else if pl[8] == 0 then Error(11, 0)
      else if pl[9] !in protocols then Error(3, 2)
      else if InternetChecksum(Words(pl[..headerSize])) != 0 then Drop
      else
        Good(
          Meta(pl[12..16], pl[16..20], pl[9], Word(pl[4], pl[5])),
          Piece(Word(pl[6] % 32, pl[7]) * 8 % MOD16, pl[headerSize..ipSize], pl[6] / 32 % 2 == 1))
  }

  /**
   * Which packets are dropped in silence, which are reported with what ICMP type
   * and code, and which go on, with headers of any length; size is the length the
   * header claims.
   */
  lemma ParseVerdicts(pl: seq<Byte>, listen: seq<Byte>, protocols: set<Byte>, size: nat)
    requires |pl| >= 20 ==> size / 256 == pl[2] && size % 256 == pl[3]
    ensures var r := Parse(pl, listen, protocols);
            if |pl| < 20 || pl[0] / 16 != 4 || pl[16..20] != listen then r.Drop?
            else
              var header := pl[0] % 16 * 4;
              if header > size || size > |pl| then r == Error(12, 2)
              else if pl[8] == 0 then r == Error(11, 0)
              else if pl[9] !in protocols then r == Error(3, 2)
              else if InternetChecksum(Words(pl[..header])) != 0 then r.Drop?
              else
                && r.Good? && r.meta.from == pl[12..16] && r.meta.to == pl[16..20] && r.meta.protocol == pl[9]
                && r.meta.id / 256 == pl[4] && r.meta.id % 256 == pl[5]
                && r.piece.bytes == pl[header..size]
                && r.piece.off % 8 == 0 && r.piece.off / 2048 == pl[6] % 32 && r.piece.off / 8 % 256 == pl[7]
                && (r.piece.more <==> pl[6] / 32 % 2 == 1)
  {
    hide InternetChecksum, Words;
    if |pl| >= 20 {
      assert size == Word(pl[2], pl[3]);
      var u: int := Word(pl[6] % 32, pl[7]);
      assert u < 8192 && u / 256 == pl[6] % 32 && u % 256 == pl[7];
      assert u * 8 % MOD16 == u * 8;
    }
  }

  /** Every fragment the stack emits passes all the receiver's checks and is read back unchanged. */
  lemma WireParses(m: Meta, p: Piece, listen: seq<Byte>, protocols: set<Byte>)
    requires ValidMeta(m) && Sendable(p) && m.to == listen && m.protocol in protocols
    ensures Parse(Wire(m, p), listen, protocols) == Good(m, p)
  {
    var pkt := Wire(m, p);
    HeaderVerifies(m, p);
    HeaderBytes(m, p);
    OffsetBits(p.off, if p.more then 32 else 0);
    hide Wire, InternetChecksum, Words;
  }

  lemma HeaderVerifies(m: Meta, p: Piece)
    requires ValidMeta(m) && Sendable(p)
    ensures InternetChecksum(Words(Wire(m, p)[..20])) == 0
  {
    var u := Unsummed(m, p);
    var h := StoreChecksum(u, 10, InternetChecksum(Words(u)));
    StoredChecksumVerifies(u, 10, []);
    assert [] + Words(u) == Words(u) && [] + Words(h) == Words(h);
    assert Wire(m, p)[..20] == h;
  }

  lemma HeaderBytes(m: Meta, p: Piece)
    requires ValidMeta(m) && Sendable(p)
    ensures var pkt := Wire(m, p);
            && pkt[0] == 0x45 && pkt[8] == TTL && pkt[9] == m.protocol
            && Word(pkt[2], pkt[3]) == |p.bytes| + 20 && Word(pkt[4], pkt[5]) == m.id
            && pkt[6] == p.off / 2048 + (if p.more then 32 else 0) && pkt[7] == p.off / 8 % 256
            && pkt[12..16] == m.from && pkt[16..20] == m.to && pkt[20..20 + |p.bytes|] == p.bytes
  {
    hide InternetChecksum, Words;
    var u := Unsummed(m, p);
    var pkt := Wire(m, p);
    assert forall i :: 0 <= i < 20 && i != 10 && i != 11 ==> pkt[i] == u[i];
    assert pkt[12..16] == [u[12], u[13], u[14], u[15]] == m.from;
    assert pkt[16..20] == [u[16], u[17], u[18], u[19]] == m.to;
    assert pkt[20..] == p.bytes && pkt[20..20 + |p.bytes|] == p.bytes;
  }

  /** The 13 offset bits and the flag share a byte without touching. */
  lemma OffsetBits(off: U16, flag: Byte)
    requires off % 8 == 0 && (flag == 0 || flag == 32)
    ensures var b: int := off / 2048 + flag;
            0 <= b < 256 && b / 32 % 2 == flag / 32 && Word(b % 32, off / 8 % 256) * 8 % MOD16 == off
  {
    var hi: int, lo: int := off / 2048, off / 8 % 256;
    assert 0 <= hi < 32 && off == 8 * (256 * hi + lo);
    assert (hi + flag) % 32 == hi;
  }
}

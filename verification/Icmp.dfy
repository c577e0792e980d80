/**
 * The ICMP server (src/icmp_server.cpp): error messages about packets another
 * process could not handle, and echo replies.
 */
module Icmp {
  import opened Bytes
  import opened Checksum
  import opened ShmMessage

  /** send_icmp_error: the payload of the notice is just type and code. */
  function Notice(packet: seq<Byte>, me: seq<Byte>, to: seq<Byte>, kind: Byte, code: Byte): seq<Byte> {
    WrapUp(packet, me, to, [kind, code])
  }

  /**
   * run_err. The third payload byte, from which the header length is taken, is
   * not part of the two-byte payload: it is whatever lies behind it.
   */
  method BuildError(notice: seq<Byte>) returns (r: Option<seq<Byte>>)
    requires |notice| >= 36
    requires var u := UnwrapUp(notice);
             u.full.at + u.full.len <= |notice| && (u.full.len >= 20 ==> u.pl.at + 3 <= |notice|)
    ensures var u := UnwrapUp(notice);
            if u.full.len < 20 then r.None?
            else
              var n := Min(u.full.len, notice[u.pl.at + 2] % 16 * 4 + 8);
              && r.Some? && |r.value| == 8 + n
              && r.value[0] == notice[u.pl.at] && r.value[1] == notice[u.pl.at + 1]
              && r.value[4..8] == [0, 0, 0, 0] && r.value[8..] == PartOf(notice, u.full)[..n]
              && InternetChecksum(Words(r.value)) == 0
  {
    var u := UnwrapUp(notice);
    if u.full.len < 20 {
      return None;
    }
    hide UnwrapUp, InternetChecksum, Words;
    var headerSize := notice[u.pl.at + 2] % 16 * 4;
    var copyN := Min(u.full.len, headerSize + 8);
    var m: seq<Byte> := [notice[u.pl.at], notice[u.pl.at + 1], 0, 0, 0, 0, 0, 0] + notice[u.full.at..u.full.at + copyN];
    var out := FillInChecksum(m, 2);
    assert out[..2] == m[..2] && out[0] == out[..2][0] && out[1] == out[..2][1];
    assert out[4..8] == out[4..][..4] == m[4..8];
    assert out[8..] == out[4..][4..] == m[8..] == notice[u.full.at..u.full.at + copyN];
    return Some(out);
  }

  /**
   * Across the two processes: because the envelope puts the packet right behind
   * the payload, the byte the ICMP server reads is the packet's own first byte,
   * so the error quotes its IP header and the eight bytes after it.
   */
  lemma ErrorQuotesPacket(packet: seq<Byte>, me: seq<Byte>, to: seq<Byte>, kind: Byte, code: Byte)
    requires |packet| >= 20 && Long(packet) && Long(me) && Long(to)
    ensures var notice := Notice(packet, me, to, kind, code);
            var u := UnwrapUp(notice);
            && u.full.at + u.full.len == |notice| && u.full.len == |packet| && u.pl.at + 3 <= |notice|
            && notice[u.pl.at] == kind && notice[u.pl.at + 1] == code
            && notice[u.pl.at + 2] == packet[0]
            && PartOf(notice, u.full) == packet && PartOf(notice, u.from) == me && PartOf(notice, u.to) == to
  {
    hide WrapUp, UnwrapUp;
    UpRoundTrip(packet, me, to, [kind, code]);
    var notice := Notice(packet, me, to, kind, code);
    var u := UnwrapUp(notice);
    assert PartOf(notice, u.pl)[0] == kind && PartOf(notice, u.pl)[1] == code;
    assert PartOf(notice, u.full)[0] == packet[0];
  }

  /** Both processes together: from the offending packet to the bytes of the error message. */
  method ErrorFor(packet: seq<Byte>, me: seq<Byte>, to: seq<Byte>, kind: Byte, code: Byte)
    returns (r: Option<seq<Byte>>)
    requires Long(packet) && Long(me) && Long(to)
    ensures r.Some? <==> |packet| >= 20
    ensures r.Some? ==>
              var n := Min(|packet|, packet[0] % 16 * 4 + 8);
              && |r.value| == 8 + n && r.value[0] == kind && r.value[1] == code
              && r.value[8..] == packet[..n] && InternetChecksum(Words(r.value)) == 0
  {
    UpRoundTrip(packet, me, to, [kind, code]);
    var notice := Notice(packet, me, to, kind, code);
    if |packet| >= 20 {
      ErrorQuotesPacket(packet, me, to, kind, code);
    }
    hide WrapUp, UnwrapUp;
    r := BuildError(notice);
  }

  /** run_in: anything but a valid echo request goes unanswered. */
  method EchoReply(pl: seq<Byte>) returns (r: Option<seq<Byte>>)
    ensures r.Some? ==>
              && |r.value| == |pl| >= 8 && r.value[..2] == [0, 0] && r.value[4..] == pl[4..]
    ensures |pl| <= MAX_BYTES ==>
              && (r.Some? <==> |pl| >= 8 && InternetChecksum(Words(pl)) == 0 && pl[0] == 8 && pl[1] == 0)
              && (r.Some? ==> InternetChecksum(Words(r.value)) == 0)
  {
    hide InternetChecksum, Words;
    if |pl| < 8 {
      return None;
    }
    var checksum := IpChecksum(pl);
    if checksum != 0 || pl[0] != 8 || pl[1] != 0 {
      return None;
    }
    var reply: seq<Byte> := pl[0 := 0][1 := 0][2 := 0][3 := 0];
    var out := FillInChecksum(reply, 2);
    assert out[..2] == [0, 0] && out[4..] == pl[4..];
    return Some(out);
  }
}

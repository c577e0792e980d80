/**
 * The envelopes between the processes of the stack (src/utils/shm_message.cpp).
 *
 * Unwrapping copies nothing: it returns positions inside the message, so a
 * reader can look past the end of one part into the next.
 */
module ShmMessage {
  import opened Bytes

  const UP := 0xdeadbeef
  const DOWN := 0xbeefdead

  /** Parts of a message: where each starts and how long it claims to be. */
  datatype Part = Part(at: nat, len: nat)

  function PartOf(data: seq<Byte>, p: Part): seq<Byte>
    requires p.at + p.len <= |data|
  {
    data[p.at..p.at + p.len]
  }

  predicate Long(s: seq<Byte>) {
    |s| < MOD64
  }

  /** Two parts laid end to end in the middle of a longer run of bytes. */
  lemma Middle(a: seq<Byte>, b: seq<Byte>, c: seq<Byte>)
    ensures (a + b + c)[|a|..|a| + |b|] == b
  {
  }

  lemma ThreeParts(h: seq<Byte>, a: seq<Byte>, b: seq<Byte>, c: seq<Byte>)
    ensures var d := h + a + b + c;
            && d == h + (a + b + c)
            && d[|h|..|h| + |a|] == a && d[|h| + |a|..|h| + |a| + |b|] == b && d[|h| + |a| + |b|..] == c
  {
  }

  // ----- upwards -----------------------------------------------------------

  function UpHeader(full: nat, from: nat, to: nat, pl: nat): (h: seq<Byte>)
    ensures |h| == 36
  {
    Le(UP, 4) + Le(full, 8) + Le(from, 8) + Le(to, 8) + Le(pl, 8)
  }

  /** wrap_message_up: addresses, payload, then the whole packet it came in. */
  function WrapUp(full: seq<Byte>, from: seq<Byte>, to: seq<Byte>, pl: seq<Byte>): (d: seq<Byte>)
    ensures |d| == 36 + |from| + |to| + |pl| + |full|
  {
    UpHeader(|full|, |from|, |to|, |pl|) + from + to + pl + full
  }

  datatype Up = Up(from: Part, to: Part, pl: Part, full: Part)

  function UnwrapUp(data: seq<Byte>): Up
    requires |data| >= 36
  {
    var fromLen, toLen, plLen := FromLe(data[12..20]), FromLe(data[20..28]), FromLe(data[28..36]);
    Up(Part(36, fromLen),
       Part(36 + fromLen, toLen),
       Part(36 + fromLen + toLen, plLen),
       Part(36 + fromLen + toLen + plLen, FromLe(data[4..12])))
  }

  lemma UpHeaderFields(full: nat, from: nat, to: nat, pl: nat, rest: seq<Byte>)
    requires full < MOD64 && from < MOD64 && to < MOD64 && pl < MOD64
    ensures var d := UpHeader(full, from, to, pl) + rest;
            FromLe(d[4..12]) == full && FromLe(d[12..20]) == from && FromLe(d[20..28]) == to && FromLe(d[28..36]) == pl
  {
    hide Le, FromLe, Pow256;
    Pow256Values();
    LeRoundTrip(full, 8);
    LeRoundTrip(from, 8);
    LeRoundTrip(to, 8);
    LeRoundTrip(pl, 8);
    var d := UpHeader(full, from, to, pl) + rest;
    assert d[4..12] == Le(full, 8) && d[12..20] == Le(from, 8) && d[20..28] == Le(to, 8) && d[28..36] == Le(pl, 8);
  }

  /** Every part comes back as it went in, and the whole packet lies right behind the payload. */
  lemma UpRoundTrip(full: seq<Byte>, from: seq<Byte>, to: seq<Byte>, pl: seq<Byte>)
    requires Long(full) && Long(from) && Long(to) && Long(pl)
    ensures var d := WrapUp(full, from, to, pl);
            var u := UnwrapUp(d);
            && u.full.at + u.full.len == |d|
            && PartOf(d, u.from) == from && PartOf(d, u.to) == to && PartOf(d, u.pl) == pl && PartOf(d, u.full) == full
            && u.pl.len == |pl| && u.full.len == |full| && u.full.at == u.pl.at + |pl|
            && u.from.at == 36 && u.to.at == 36 + |from| && u.pl.at == 36 + |from| + |to|
  {
    hide UpHeader, FromLe;
    var h := UpHeader(|full|, |from|, |to|, |pl|);
    var d := WrapUp(full, from, to, pl);
    UpHeaderFields(|full|, |from|, |to|, |pl|, from + to + pl + full);
    assert d == h + (from + to + pl + full);
    Middle(h, from, to + pl + full);
    assert d == h + from + (to + pl + full);
    Middle(h + from, to, pl + full);
    assert d == h + from + to + (pl + full);
    Middle(h + from + to, pl, full);
  }

  // ----- upwards, for TCP --------------------------------------------------

  datatype TcpEnvelope = TcpEnvelope(session: U64, from: seq<Byte>, fromPort: U16,
    to: seq<Byte>, toPort: U16, flags: U32, pl: seq<Byte>)

  function TcpHeader(e: TcpEnvelope): (h: seq<Byte>)
    ensures |h| == 44
  {
    Le(UP, 4) + Le(e.session, 8) + Le(|e.from|, 8) + Le(e.fromPort, 2)
    + Le(|e.to|, 8) + Le(e.toPort, 2) + Le(e.flags, 4) + Le(|e.pl|, 8)
  }

  function WrapUpTcp(e: TcpEnvelope): seq<Byte> {
    TcpHeader(e) + e.from + e.to + e.pl
  }

  datatype UpTcp = UpTcp(session: nat, from: Part, fromPort: nat, to: Part, toPort: nat, flags: nat, pl: Part)

  function UnwrapUpTcp(data: seq<Byte>): UpTcp
    requires |data| >= 44
  {
    var fromLen, toLen := FromLe(data[12..20]), FromLe(data[22..30]);
    UpTcp(FromLe(data[4..12]), Part(44, fromLen), FromLe(data[20..22]),
          Part(44 + fromLen, toLen), FromLe(data[30..32]), FromLe(data[32..36]),
          Part(44 + fromLen + toLen, FromLe(data[36..44])))
  }

  lemma TcpHeaderFields(e: TcpEnvelope, rest: seq<Byte>)
    requires Long(e.from) && Long(e.to) && Long(e.pl)
    ensures var d := TcpHeader(e) + rest;
            && FromLe(d[4..12]) == e.session && FromLe(d[12..20]) == |e.from| && FromLe(d[20..22]) == e.fromPort
            && FromLe(d[22..30]) == |e.to| && FromLe(d[30..32]) == e.toPort && FromLe(d[32..36]) == e.flags
            && FromLe(d[36..44]) == |e.pl|
  {
    hide Le, FromLe, Pow256;
    Pow256Values();
    LeRoundTrip(e.session, 8);
    LeRoundTrip(|e.from|, 8);
    LeRoundTrip(e.fromPort, 2);
    LeRoundTrip(|e.to|, 8);
    LeRoundTrip(e.toPort, 2);
    LeRoundTrip(e.flags, 4);
    LeRoundTrip(|e.pl|, 8);
    var d := TcpHeader(e) + rest;
    assert d[4..12] == Le(e.session, 8) && d[12..20] == Le(|e.from|, 8) && d[20..22] == Le(e.fromPort, 2);
    assert d[22..30] == Le(|e.to|, 8) && d[30..32] == Le(e.toPort, 2) && d[32..36] == Le(e.flags, 4);
    assert d[36..44] == Le(|e.pl|, 8);
  }

  lemma UpTcpRoundTrip(e: TcpEnvelope)
    requires Long(e.from) && Long(e.to) && Long(e.pl)
    ensures var d := WrapUpTcp(e);
            var u := UnwrapUpTcp(d);
            && u.pl.at + u.pl.len == |d| && u.from.at + u.from.len == u.to.at && u.to.at + u.to.len == u.pl.at
            && e == TcpEnvelope(e.session, PartOf(d, u.from), e.fromPort,
                                PartOf(d, u.to), e.toPort, e.flags, PartOf(d, u.pl))
            && u.session == e.session && u.fromPort == e.fromPort && u.toPort == e.toPort && u.flags == e.flags
  {
    hide TcpHeader, FromLe;
    var h := TcpHeader(e);
    var d := WrapUpTcp(e);
    TcpHeaderFields(e, e.from + e.to + e.pl);
    ThreeParts(h, e.from, e.to, e.pl);
  }

  // ----- downwards ---------------------------------------------------------

  function DownHeader(from: nat, to: nat, pl: nat): (h: seq<Byte>)
    ensures |h| == 28
  {
    Le(DOWN, 4) + Le(from, 8) + Le(to, 8) + Le(pl, 8)
  }

  function WrapDown(from: seq<Byte>, to: seq<Byte>, pl: seq<Byte>): seq<Byte> {
    DownHeader(|from|, |to|, |pl|) + from + to + pl
  }

  datatype Down = Down(from: Part, to: Part, pl: Part)

  function UnwrapDown(data: seq<Byte>): Down
    requires |data| >= 28
  {
    var fromLen, toLen := FromLe(data[4..12]), FromLe(data[12..20]);
    Down(Part(28, fromLen), Part(28 + fromLen, toLen), Part(28 + fromLen + toLen, FromLe(data[20..28])))
  }

  lemma DownHeaderFields(from: nat, to: nat, pl: nat, rest: seq<Byte>)
    requires from < MOD64 && to < MOD64 && pl < MOD64
    ensures var d := DownHeader(from, to, pl) + rest;
            FromLe(d[4..12]) == from && FromLe(d[12..20]) == to && FromLe(d[20..28]) == pl
  {
    hide Le, FromLe, Pow256;
    Pow256Values();
    LeRoundTrip(from, 8);
    LeRoundTrip(to, 8);
    LeRoundTrip(pl, 8);
    var d := DownHeader(from, to, pl) + rest;
    assert d[4..12] == Le(from, 8) && d[12..20] == Le(to, 8) && d[20..28] == Le(pl, 8);
  }

  lemma DownRoundTrip(from: seq<Byte>, to: seq<Byte>, pl: seq<Byte>)
    requires Long(from) && Long(to) && Long(pl)
    ensures var d := WrapDown(from, to, pl);
            var u := UnwrapDown(d);
            && u.pl.at + u.pl.len == |d| && u.from.at + u.from.len == u.to.at && u.to.at + u.to.len == u.pl.at
            && PartOf(d, u.from) == from && PartOf(d, u.to) == to && PartOf(d, u.pl) == pl
  {
    hide DownHeader, FromLe;
    var h := DownHeader(|from|, |to|, |pl|);
    var d := WrapDown(from, to, pl);
    DownHeaderFields(|from|, |to|, |pl|, from + to + pl);
    ThreeParts(h, from, to, pl);
  }

  /** Every envelope starts with its mark, in the byte order of the host. */
  lemma StartsWithMark(full: seq<Byte>, from: seq<Byte>, to: seq<Byte>, pl: seq<Byte>, e: TcpEnvelope)
    ensures WrapUp(full, from, to, pl)[..4] == WrapUpTcp(e)[..4] == [0xef, 0xbe, 0xad, 0xde]
    ensures WrapDown(from, to, pl)[..4] == [0xad, 0xde, 0xef, 0xbe]
  {
    var up, down := Le(UP, 4), Le(DOWN, 4);
    Marks();
    hide Le;
    assert WrapUp(full, from, to, pl)[..4] == up;
    assert WrapUpTcp(e)[..4] == up;
    assert WrapDown(from, to, pl)[..4] == down;
  }

  lemma Marks()
    ensures Le(0xdeadbeef, 4) == [0xef, 0xbe, 0xad, 0xde] && Le(0xbeefdead, 4) == [0xad, 0xde, 0xef, 0xbe]
  {
    assert Le(0xde, 1) == [0xde] && Le(0xdead, 2) == [0xad, 0xde] && Le(0xdeadbe, 3) == [0xbe, 0xad, 0xde];
    assert Le(0xbe, 1) == [0xbe] && Le(0xbeef, 2) == [0xef, 0xbe] && Le(0xbeefde, 3) == [0xde, 0xef, 0xbe];
  }
}

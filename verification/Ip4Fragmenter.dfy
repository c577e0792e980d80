/**
 * The outbound fragment loop (src/ip4_server.cpp), and the law that ties it to
 * the receiver: fragmenting and reassembling is the identity.
 */
module Ip4Fragmenter {
  import opened Bytes
  import opened Ip4Packet
  import opened Ip4Reassembly
  import opened Permutations

  /** The link sizes for which the loop makes progress and lengths fit their header field. */
  predicate UsableMtu(mtu: int) {
    28 <= mtu <= 0xffff
  }

  /** Payload bytes per fragment: what fits behind a 20-byte header, rounded down to a multiple of eight. */
  function UseMtu(mtu: int): (u: nat)
    requires UsableMtu(mtu)
    ensures u % 8 == 0 && 8 <= u <= 65512
  {
    (mtu - 20) / 8 * 8
  }

  /** The loop's position is always a multiple of eight, except at the very end. */
  predicate At(d: seq<Byte>, off: nat) {
    off <= |d| <= 0xffff && (off % 8 == 0 || off == |d|)
  }

  function Pieces(d: seq<Byte>, mtu: int, off: nat): seq<Piece>
    requires UsableMtu(mtu) && At(d, off)
    decreases |d| - off
  {
    if off >= |d| then []
    else
      var n := Min(UseMtu(mtu), |d| - off);
      [Piece(off, d[off..off + n], off + n < |d|)] + Pieces(d, mtu, off + n)
  }

  function WireAll(m: Meta, ps: seq<Piece>): seq<seq<Byte>>
    requires ValidMeta(m) && forall p :: p in ps ==> Sendable(p)
  {
    seq(|ps|, i requires 0 <= i < |ps| => Wire(m, ps[i]))
  }

  lemma {:induction false} PiecesSendable(d: seq<Byte>, mtu: int, off: nat)
    requires UsableMtu(mtu) && At(d, off)
    ensures forall p :: p in Pieces(d, mtu, off) ==> SliceOf(p, d) && Sendable(p) && off <= p.off
    ensures forall p :: p in Pieces(d, mtu, off) && off < p.off ==> |Pieces(d, mtu, off)| > 1
    decreases |d| - off
  {
    if off < |d| {
      PiecesSendable(d, mtu, off + Min(UseMtu(mtu), |d| - off));
    }
  }

  /** No fragment is larger than the link takes, and none but the last could hold eight bytes more. */
  lemma {:induction false} PiecesFit(d: seq<Byte>, mtu: int, off: nat)
    requires UsableMtu(mtu) && At(d, off)
    ensures forall p :: p in Pieces(d, mtu, off) ==>
              20 + |p.bytes| <= mtu && (p.more ==> mtu < 20 + |p.bytes| + 8)
    decreases |d| - off
  {
    if off < |d| {
      PiecesFit(d, mtu, off + Min(UseMtu(mtu), |d| - off));
    }
  }

  lemma WiresFit(m: Meta, d: seq<Byte>, mtu: int, k: nat)
    requires ValidMeta(m) && UsableMtu(mtu) && |d| <= 0xffff && k <= |Pieces(d, mtu, 0)|
    requires forall p :: p in Pieces(d, mtu, 0) ==> Sendable(p)
    ensures forall pkt :: pkt in WireAll(m, Pieces(d, mtu, 0)[..k]) ==> |pkt| <= mtu
  {
    hide Pieces, Wire, Sendable;
    PiecesFit(d, mtu, 0);
    var ps := Pieces(d, mtu, 0)[..k];
    assert forall p :: p in ps ==> p in Pieces(d, mtu, 0);
    assert forall i :: 0 <= i < |ps| ==> ps[i] in ps;
  }

  /** One turn of the loop. */
  lemma Turn(d: seq<Byte>, mtu: int, off: nat)
    requires UsableMtu(mtu) && At(d, off) && off < |d|
    ensures var n := Min(UseMtu(mtu), |d| - off);
            var piece := Piece(off, d[off..off + n], off + n < |d|);
            0 < n && At(d, off + n) && Sendable(piece) && Pieces(d, mtu, off) == [piece] + Pieces(d, mtu, off + n)
  {
  }

  lemma NothingLeft(d: seq<Byte>, mtu: int)
    requires UsableMtu(mtu) && |d| <= 0xffff
    ensures Pieces(d, mtu, |d|) == []
  {
  }

  lemma WireAllSnoc(m: Meta, ps: seq<Piece>, p: Piece)
    requires ValidMeta(m) && Sendable(p) && forall q :: q in ps ==> Sendable(q)
    ensures WireAll(m, ps + [p]) == WireAll(m, ps) + [Wire(m, p)]
  {
  }

  /** The loop, with a queue that takes the first `room` packets. */
  method FragmentLoop(m: Meta, d: seq<Byte>, mtu: int, room: nat) returns (out: seq<seq<Byte>>)
    requires ValidMeta(m) && UsableMtu(mtu) && |d| <= 0xffff
    ensures var ps := Pieces(d, mtu, 0);
            && (forall p :: p in ps ==> Sendable(p))
            && out == WireAll(m, ps[..Min(room, |ps|)])
    ensures forall pkt :: pkt in out ==> |pkt| <= mtu
  {
    hide Pieces, Wire, Sendable, UseMtu, SliceOf;
    var useMtu := UseMtu(mtu);
    var off := 0;
    ghost var sent: seq<Piece> := [];
    ghost var ps := Pieces(d, mtu, 0);
    PiecesSendable(d, mtu, 0);
    out := [];
    assert WireAll(m, sent) == [];
    hide WireAll;
    while off < |d|
      invariant At(d, off) && |sent| <= room && |out| == |sent|
      invariant ps == sent + Pieces(d, mtu, off)
      invariant forall p :: p in sent ==> Sendable(p)
      invariant out == WireAll(m, sent)
      decreases |d| - off
    {
      var size := Min(useMtu, |d| - off);
      Turn(d, mtu, off);
      var piece := Piece(off, d[off..off + size], off + size < |d|);
      if |out| == room {
        assert ps[..room] == sent;
        WiresFit(m, d, mtu, room);
        return;
      }
      WireAllSnoc(m, sent, piece);
      assert ps == (sent + [piece]) + Pieces(d, mtu, off + size);
      out := out + [Wire(m, piece)];
      sent := sent + [piece];
      off := off + size;
    }
    NothingLeft(d, mtu);
    assert sent == ps == ps[..|ps|];
    WiresFit(m, d, mtu, |ps|);
  }

  /** The pieces cover the payload, each byte once. */
  lemma {:induction false} PiecesCover(d: seq<Byte>, mtu: int, off: nat, k: nat)
    requires UsableMtu(mtu) && At(d, off) && k < |d|
    ensures Cover(Frags(Pieces(d, mtu, off)), k) == if off <= k then 1 else 0
    decreases |d| - off
  {
    if off == |d| {
      NothingLeft(d, mtu);
    } else {
      var n := Min(UseMtu(mtu), |d| - off);
      Turn(d, mtu, off);
      PiecesCover(d, mtu, off + n, k);
      hide Pieces, UseMtu;
      var rest := Pieces(d, mtu, off + n);
      assert Frags(Pieces(d, mtu, off)) == [Frag(off, n)] + Frags(rest);
      CoverConcat([Frag(off, n)], Frags(rest), k);
      assert [Frag(off, n)][1..] == [];
    }
  }

  lemma {:induction false} FragsPermutation(a: seq<Piece>, b: seq<Piece>)
    requires multiset(a) == multiset(b)
    ensures multiset(Frags(a)) == multiset(Frags(b))
    decreases |a|
  {
    if a == [] {
      assert b == [] by { assert |b| == |multiset(b)|; }
    } else {
      var i := Matched(a, b);
      FragsPermutation(a[1..], Without(b, i));
      WithoutMultiset(Frags(a), 0);
      WithoutMultiset(Frags(b), i);
      assert Without(Frags(a), 0) == Frags(a[1..]);
      assert Without(Frags(b), i) == Frags(Without(b, i));
    }
  }

  /** An order of arrival, without loss or repetition. */
  ghost predicate Arrivals(arr: seq<Piece>, d: seq<Byte>, mtu: int)
    requires UsableMtu(mtu) && |d| <= 0xffff
  {
    multiset(arr) == multiset(Pieces(d, mtu, 0))
  }

  lemma ArrivalsTrue(arr: seq<Piece>, d: seq<Byte>, mtu: int)
    requires UsableMtu(mtu) && 0 < |d| <= 0xffff && Arrivals(arr, d, mtu)
    ensures |arr| == |Pieces(d, mtu, 0)| > 0
    ensures forall p :: p in arr ==> SliceOf(p, d) && Sendable(p) && (|arr| > 1 ==> p.off > 0 || p.more)
    ensures ExactCover(Frags(arr), |d|)
  {
    var ps := Pieces(d, mtu, 0);
    PiecesSendable(d, mtu, 0);
    assert |arr| == |multiset(arr)| == |multiset(ps)| == |ps|;
    forall p | p in arr
      ensures p in ps
    {
      assert p in multiset(arr);
    }
    assert ps[0].off == 0;
    forall p | p in ps && |ps| > 1 && p.off == 0
      ensures p.more
    {
      FirstIsNotLast(d, mtu, p);
    }
    forall k | 0 <= k < |d|
      ensures Cover(Frags(arr), k) == 1
    {
      FragsPermutation(arr, ps);
      CoverPermutation(Frags(arr), Frags(ps), k);
      PiecesCover(d, mtu, 0, k);
    }
  }

  lemma FirstIsNotLast(d: seq<Byte>, mtu: int, p: Piece)
    requires UsableMtu(mtu) && 0 < |d| <= 0xffff && p in Pieces(d, mtu, 0) && p.off == 0 && |Pieces(d, mtu, 0)| > 1
    ensures p.more
  {
    var ps := Pieces(d, mtu, 0);
    var n := Min(UseMtu(mtu), |d|);
    assert ps[1..] == Pieces(d, mtu, n);
    PiecesSendable(d, mtu, n);
    assert p !in ps[1..];
  }

  /** Before the last arrival some byte is missing. */
  lemma PrefixIncomplete(arr: seq<Piece>, i: nat, d: seq<Byte>)
    requires i < |arr| && |d| <= 0xffff && ExactCover(Frags(arr), |d|) && SliceOf(arr[i], d)
    ensures !ExactCover(Frags(arr[..i]), |d|)
  {
    var k := arr[i].off;
    var front, rest := Frags(arr[..i]), Frags(arr[i..]);
    assert Frags(arr) == front + rest;
    CoverConcat(front, rest, k);
    assert rest[0] == Frag(k, |arr[i].bytes|);
    assert Cover(Frags(arr), k) == 1;
  }

  /** The receiver's store after packets have come in. */
  function StoreAfter(store: Store, pkts: seq<seq<Byte>>, listen: seq<Byte>, protocols: set<Byte>,
                      junk: nat -> Byte): Store {
    if pkts == [] then store
    else
      var n := |pkts| - 1;
      Receive(StoreAfter(store, pkts[..n], listen, protocols, junk), pkts[n], listen, protocols, junk).store
  }

  lemma {:induction false} WireArrives(store: Store, m: Meta, ps: seq<Piece>,
                                       listen: seq<Byte>, protocols: set<Byte>, junk: nat -> Byte)
    requires ValidMeta(m) && m.to == listen && m.protocol in protocols && forall p :: p in ps ==> Sendable(p)
    ensures StoreAfter(store, WireAll(m, ps), listen, protocols, junk) == Arrive(store, m, ps, junk)
  {
    hide Accept, Wire, Parse;
    if ps != [] {
      var n := |ps| - 1;
      WireArrives(store, m, ps[..n], listen, protocols, junk);
      assert WireAll(m, ps)[..n] == WireAll(m, ps[..n]);
      WireParses(m, ps[n], listen, protocols);
    }
  }

  /**
   * Fragment, then reassemble. The fragments of d, in any order of arrival, all
   * pass the receiver's checks; each but the last is stored without an answer,
   * and the last one is answered with exactly d, leaving the store as it was.
   */
  lemma FragmentReassemble(store: Store, m: Meta, d: seq<Byte>, mtu: int, arr: seq<Piece>, j: nat,
                           listen: seq<Byte>, protocols: set<Byte>, junk: nat -> Byte)
    requires ValidMeta(m) && m.to == listen && m.protocol in protocols && m !in store
    requires UsableMtu(mtu) && 0 < |d| <= 0xffff && Arrivals(arr, d, mtu) && j < |arr|
    ensures forall p :: p in arr ==> Sendable(p)
    ensures var r := Receive(StoreAfter(store, WireAll(m, arr[..j]), listen, protocols, junk),
                            Wire(m, arr[j]), listen, protocols, junk);
            if j < |arr| - 1 then r.verdict == Stored else r == Received(store, Delivered(m, d))
  {
    hide Accept, Wire, Parse, ExactCover, Arrivals;
    ArrivalsTrue(arr, d, mtu);
    assert forall p :: p in arr[..j] ==> p in arr;
    WireArrives(store, m, arr[..j], listen, protocols, junk);
    WireParses(m, arr[j], listen, protocols);
    ReassembledAt(store, m, d, arr, j, junk);
  }

  lemma ReassembledAt(store: Store, m: Meta, d: seq<Byte>, arr: seq<Piece>, j: nat, junk: nat -> Byte)
    requires m !in store && 0 < |d| <= 0xffff && j < |arr| && ExactCover(Frags(arr), |d|)
    requires forall p :: p in arr ==> SliceOf(p, d) && (|arr| > 1 ==> p.off > 0 || p.more)
    ensures var r := Accept(Arrive(store, m, arr[..j], junk), m, arr[j], junk);
            if j < |arr| - 1 then r.verdict == Stored else r == Received(store, Delivered(m, d))
  {
    hide ExactCover;
    if |arr| == 1 {
      assert arr == [arr[0]];
      WholeInOne(arr[0], d);
      hide Complete, AddPiece, Examined;
    } else {
      hide Accept;
      forall i | 0 <= i <= j
        ensures !ExactCover(Frags(arr[..j][..i]), |d|)
      {
        assert arr[..j][..i] == arr[..i];
        PrefixIncomplete(arr, i, d);
      }
      assert arr[..j] + [arr[j]] == arr[..j + 1];
      assert forall p :: p in arr[..j + 1] ==> p in arr;
      ReassemblyExact(store, m, arr[..j], arr[j], d, junk);
      if j + 1 < |arr| {
        PrefixIncomplete(arr, j + 1, d);
      } else {
        assert arr[..j + 1] == arr;
      }
    }
  }

  lemma WholeInOne(p: Piece, d: seq<Byte>)
    requires 0 < |d| <= 0xffff && SliceOf(p, d) && ExactCover(Frags([p]), |d|)
    ensures p.off == 0 && !p.more && p.bytes == d
  {
    var s := Frags([p]);
    assert s[1..] == [];
    assert Cover(s, 0) == 1 && Cover(s, |d| - 1) == 1;
  }

  /** The packets that pass the receiver's checks, as it reads them. */
  function PassedChecks(pkts: seq<seq<Byte>>, listen: seq<Byte>, protocols: set<Byte>): seq<Arrival> {
    if pkts == [] then []
    else
      var n := |pkts| - 1;
      var r := Parse(pkts[n], listen, protocols);
      PassedChecks(pkts[..n], listen, protocols) + if r.Good? then [Arrival(r.meta, r.piece)] else []
  }

  lemma {:induction false} StoreSeesPassed(store: Store, pkts: seq<seq<Byte>>, listen: seq<Byte>,
                                           protocols: set<Byte>, junk: nat -> Byte)
    ensures StoreAfter(store, pkts, listen, protocols, junk)
            == ArriveAny(store, PassedChecks(pkts, listen, protocols), junk)
  {
    hide Accept, Parse;
    if pkts != [] {
      var n := |pkts| - 1;
      StoreSeesPassed(store, pkts[..n], listen, protocols, junk);
      var before, all := PassedChecks(pkts[..n], listen, protocols), PassedChecks(pkts, listen, protocols);
      var r := Parse(pkts[n], listen, protocols);
      if r.Good? {
        assert all == before + [Arrival(r.meta, r.piece)];
        ArriveAnySnoc(store, before, Arrival(r.meta, r.piece), junk);
      } else {
        assert all == before;
      }
    }
  }

  lemma ArriveAnySnoc(store: Store, evs: seq<Arrival>, ev: Arrival, junk: nat -> Byte)
    ensures ArriveAny(store, evs + [ev], junk) == Accept(ArriveAny(store, evs, junk), ev.m, ev.p, junk).store
  {
    hide Accept;
    assert (evs + [ev])[..|evs|] == evs;
  }

  /**
   * The same among any traffic. Any packets arrive, garbage and fragments of other
   * datagrams included; of m's there are, in between, the first j of the arrival
   * order. Then fragment j is stored, or answered with exactly d if it is the
   * last, and touches no other datagram's entry.
   */
  lemma ReassembleAmongTraffic(store: Store, m: Meta, d: seq<Byte>, mtu: int, arr: seq<Piece>, j: nat,
                               pkts: seq<seq<Byte>>, listen: seq<Byte>, protocols: set<Byte>, junk: nat -> Byte)
    requires ValidMeta(m) && m.to == listen && m.protocol in protocols && m !in store
    requires UsableMtu(mtu) && 0 < |d| <= 0xffff && Arrivals(arr, d, mtu) && j < |arr|
    requires Only(PassedChecks(pkts, listen, protocols), m) == arr[..j]
    ensures Sendable(arr[j])
    ensures var before := StoreAfter(store, pkts, listen, protocols, junk);
            var r := Receive(before, Wire(m, arr[j]), listen, protocols, junk);
            && r.verdict == (if j < |arr| - 1 then Stored else Delivered(m, d))
            && r.store - {m} == before - {m} && (j == |arr| - 1 ==> m !in r.store)
  {
    hide Accept, Wire, Parse, ExactCover, Arrivals;
    ArrivalsTrue(arr, d, mtu);
    var evs := PassedChecks(pkts, listen, protocols);
    StoreSeesPassed(store, pkts, listen, protocols, junk);
    WireParses(m, arr[j], listen, protocols);
    VerdictAmongTraffic(store, evs, m, arr[j], junk);
    OnlyItsOwn(ArriveAny(store, evs, junk), m, arr[j], junk);
    ReassembledAt(store, m, d, arr, j, junk);
  }
}

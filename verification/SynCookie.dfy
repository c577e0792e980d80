/**
 * The stateless handshake (src/tcp_server.cpp): the peer's MSS option is mapped
 * to a table index, the index travels in the low bits of the SYN cookie, and the
 * acknowledgement of the cookie brings it back.
 *
 * SipHash is any function of the session id and the time slot.
 */
module SynCookie {
  import opened Bytes
  import opened TcpSession
  import opened TcpStream

  const MSS_RANGES: seq<U16> := [216, 536, 984, 1400, 1436, 1452, 1460, 1500]

  /** 1: index 0 is not used unless the peer asks for it. */
  const DEFAULT_INDEX: nat := 1

  // ----- choosing a table entry --------------------------------------------

  /** i is the largest entry that does not exceed mss. */
  predicate LargestBelow(mss: U16, i: nat) {
    && i < 8 && MSS_RANGES[i] <= mss
    && forall j :: 0 <= j < 8 && MSS_RANGES[j] <= mss ==> j <= i
  }

  /** The table loop; entries above mss leave the index alone, and so does an mss below them all. */
  function SelectIndex(mss: U16, current: nat): (i: nat)
    ensures MSS_RANGES[0] <= mss ==> LargestBelow(mss, i)
    ensures mss < MSS_RANGES[0] ==> i == current
  {
    if mss >= 1500 then 7 else if mss >= 1460 then 6 else if mss >= 1452 then 5 else if mss >= 1436 then 4
    else if mss >= 1400 then 3 else if mss >= 984 then 2 else if mss >= 536 then 1 else if mss >= 216 then 0
    else current
  }

  /** The option bytes from position cur on, as the scan reads them. */
  function Scan(opts: seq<Byte>, cur: nat, index: nat): nat
    decreases |opts| - cur
  {
    if cur + 2 > |opts| then index
    else
      var next :=
        if opts[cur] == 2 && opts[cur + 1] == 4 && cur + 4 <= |opts|
        then SelectIndex(Word(opts[cur + 2], opts[cur + 3]), index)
        else index;
      if opts[cur] <= 1 then Scan(opts, cur + 1, next)
      else if opts[cur + 1] == 0 then next
      else Scan(opts, cur + opts[cur + 1], next)
  }

  /** The option loop of run_in, with its inner table loop. */
  method ScanOptions(opts: seq<Byte>) returns (index: nat)
    ensures index == Scan(opts, 0, DEFAULT_INDEX)
  {
    index := DEFAULT_INDEX;
    var cur := 0;
    while cur + 2 <= |opts|
      invariant Scan(opts, cur, index) == Scan(opts, 0, DEFAULT_INDEX)
      decreases |opts| - cur
    {
      if opts[cur] == 2 && opts[cur + 1] == 4 && cur + 4 <= |opts| {
        var mss := Word(opts[cur + 2], opts[cur + 3]);
        ghost var before := index;
        for i := 0 to 8
          invariant index == if i == 0 || mss < MSS_RANGES[0] then before else Min(i - 1, SelectIndex(mss, before))
        {
          if mss >= MSS_RANGES[i] {
            index := i;
          }
        }
      }
      if opts[cur] == 0 || opts[cur] == 1 {
        cur := cur + 1;
      } else {
        if opts[cur + 1] == 0 {
          break;
        }
        cur := cur + opts[cur + 1];
      }
    }
  }

  // ----- well-formed option lists ------------------------------------------

  datatype TcpOption = Nop | Mss(mss: U16) | Other(kind: Byte, body: seq<Byte>)

  /** Any option the standard allows besides the two spelled out: a kind, a length, a body. */
  predicate WellFormed(o: TcpOption) {
    o.Other? ==> 2 < o.kind && |o.body| <= 253
  }

  function EncodeOption(o: TcpOption): seq<Byte>
    requires WellFormed(o)
  {
    match o
    case Nop => [1]
    case Mss(m) => [2, 4] + Be16(m)
    case Other(kind, body) => [kind, |body| + 2] + body
  }

  /** The options, then end-of-list bytes up to the header's end. */
  function EncodeOptions(os: seq<TcpOption>, padding: nat): seq<Byte>
    requires forall o :: o in os ==> WellFormed(o)
  {
    if os == [] then seq(padding, _ => 0) else EncodeOption(os[0]) + EncodeOptions(os[1..], padding)
  }

  /** What the list asks for: every MSS option in turn. */
  function Requested(os: seq<TcpOption>, index: nat): nat {
    if os == [] then index
    else Requested(os[1..], if os[0].Mss? then SelectIndex(os[0].mss, index) else index)
  }

  lemma {:induction false} PaddingIgnored(opts: seq<Byte>, cur: nat, index: nat)
    requires cur <= |opts| && forall i :: cur <= i < |opts| ==> opts[i] == 0
    ensures Scan(opts, cur, index) == index
    decreases |opts| - cur
  {
    if cur + 2 <= |opts| {
      PaddingIgnored(opts, cur + 1, index);
    }
  }

  /** One option between any bytes before and after it: the scan steps over it, and heeds an MSS. */
  lemma ScanOption(head: seq<Byte>, o: TcpOption, rest: seq<Byte>, index: nat)
    requires WellFormed(o) && (o.Nop? ==> rest != [])
    ensures var e := EncodeOption(o);
            Scan(head + e + rest, |head|, index)
            == Scan(head + e + rest, |head + e|, if o.Mss? then SelectIndex(o.mss, index) else index)
  {
  }

  /** The byte scan sees exactly the options, never the inside of one. */
  lemma {:induction false} ScanSeesOptions(head: seq<Byte>, os: seq<TcpOption>, padding: nat, index: nat)
    requires forall o :: o in os ==> WellFormed(o)
    ensures Scan(head + EncodeOptions(os, padding), |head|, index) == Requested(os, index)
    decreases |os|
  {
    hide Scan, SelectIndex, EncodeOption;
    var opts := head + EncodeOptions(os, padding);
    if os == [] {
      PaddingIgnored(opts, |head|, index);
    } else {
      var e := EncodeOption(os[0]);
      var rest := EncodeOptions(os[1..], padding);
      assert opts == head + e + rest;
      ScanSeesOptions(head + e, os[1..], padding, if os[0].Mss? then SelectIndex(os[0].mss, index) else index);
      if os[0].Nop? && rest == [] {
        EmptyRestAsksNothing(os[1..], padding, index);
        NopIsOneByte();
        ScanEnd(opts, |head|, index);
      } else {
        ScanOption(head, os[0], rest, index);
      }
    }
  }

  lemma NopIsOneByte()
    ensures |EncodeOption(Nop)| == 1
  {
  }

  lemma ScanEnd(opts: seq<Byte>, cur: nat, index: nat)
    requires cur + 2 > |opts|
    ensures Scan(opts, cur, index) == index
  {
  }

  lemma EmptyRestAsksNothing(os: seq<TcpOption>, padding: nat, index: nat)
    requires (forall o :: o in os ==> WellFormed(o)) && EncodeOptions(os, padding) == []
    ensures Requested(os, index) == index
  {
  }

  /**
   * Malformed lists: an option that claims no length ends the scan, a lone last
   * byte is not looked at, and an MSS option of the wrong or a cut-off length is
   * skipped like any other.
   */
  lemma OddOptions(opts: seq<Byte>, cur: nat, index: nat)
    ensures cur + 2 > |opts| ==> Scan(opts, cur, index) == index
    ensures cur + 2 <= |opts| && opts[cur] > 1 && opts[cur + 1] == 0 ==> Scan(opts, cur, index) == index
    ensures cur + 2 <= |opts| && opts[cur] > 1 && opts[cur + 1] > 0
              && (opts[cur] != 2 || opts[cur + 1] != 4 || cur + 4 > |opts|) ==>
              Scan(opts, cur, index) == Scan(opts, cur + opts[cur + 1], index)
    ensures cur + 2 <= |opts| && opts[cur] <= 1 ==> Scan(opts, cur, index) == Scan(opts, cur + 1, index)
  {
  }

  // ----- the cookie --------------------------------------------------------

  /** 64-second slots, 32 of them. */
  function Slot(now: bv32): bv32 {
    (now >> 6) & 31
  }

  function Cookie(hash: bv32, slot: bv32, index: bv32): bv32 {
    (hash & 0xFFFFFF00) | (slot << 3) | index
  }

  /** my_syn_cookie; hash stands for the folded SipHash of the session id and the slot. */
  function MySynCookie<Id>(hash: (Id, bv32) -> bv32, id: Id, now: bv32, index: bv32): bv32 {
    Cookie(hash(id, Slot(now)), Slot(now), index)
  }

  /** The test run_in makes on the acknowledgement that should open a session. */
  predicate Accepts<Id>(hash: (Id, bv32) -> bv32, id: Id, now: bv32, ackNr: bv32) {
    MySynCookie(hash, id, now, (ackNr - 1) & 7) == ackNr - 1
  }

  function Bits(index: nat): bv32
    requires index < 8
  {
    if index == 0 then 0 else if index == 1 then 1 else if index == 2 then 2 else if index == 3 then 3
    else if index == 4 then 4 else if index == 5 then 5 else if index == 6 then 6 else 7
  }

  /** The segment size a new session gets from the acknowledgement alone. */
  function SessionMss(ackNr: bv32): nat {
    var i := (ackNr - 1) & 7;
    if i == 0 then 216 else if i == 1 then 536 else if i == 2 then 984 else if i == 3 then 1400
    else if i == 4 then 1436 else if i == 5 then 1452 else if i == 6 then 1460 else 1500
  }

  /** The three fields of a cookie do not overlap. */
  lemma FieldsApart(hash: bv32, slot: bv32, index: bv32)
    requires slot <= 31 && index <= 7
    ensures var c := Cookie(hash, slot, index);
            c & 7 == index && (c >> 3) & 31 == slot && c & 0xFFFFFF00 == hash & 0xFFFFFF00
  {
  }

  /**
   * A cookie is accepted exactly in a slot with the number it was made in, and
   * then brings its index back.
   */
  lemma AcceptedIffSameSlot<Id>(hash: (Id, bv32) -> bv32, id: Id, issued: bv32, checked: bv32, index: nat)
    requires index < 8
    ensures var ackNr := MySynCookie(hash, id, issued, Bits(index)) + 1;
            && (Accepts(hash, id, checked, ackNr) <==> Slot(issued) == Slot(checked))
            && SessionMss(ackNr) == MSS_RANGES[index]
  {
  }

  /** Two moments share a slot number exactly if their 64-second slots agree modulo 32. */
  lemma SameSlotIff(a: bv32, b: bv32)
    ensures Slot(a) == Slot(b) <==> (a / 64) % 32 == (b / 64) % 32
  {
    assert a / 64 == a >> 6 && b / 64 == b >> 6;
    assert (a >> 6) % 32 == (a >> 6) & 31 && (b >> 6) % 32 == (b >> 6) & 31;
  }

  lemma SlotsApart(a: bv32, b: bv32)
    requires a <= b && b - a < 1984
    ensures Slot(a) == Slot(b) <==> a >> 6 == b >> 6
    ensures b - a >= 64 ==> a >> 6 != b >> 6
  {
  }

  /**
   * How long a cookie lasts. In the 31 minutes and more after it was made it is
   * accepted exactly until its 64-second slot ends; 2048 seconds later it is
   * accepted again.
   */
  lemma CookieLifetime<Id>(hash: (Id, bv32) -> bv32, id: Id, issued: bv32, checked: bv32, index: nat)
    requires index < 8 && issued <= checked
    ensures var ackNr := MySynCookie(hash, id, issued, Bits(index)) + 1;
            && (Accepts(hash, id, checked, ackNr) <==> (issued / 64) % 32 == (checked / 64) % 32)
            && (checked - issued < 1984 ==> (Accepts(hash, id, checked, ackNr) <==> issued >> 6 == checked >> 6))
            && (64 <= checked - issued < 1984 ==> !Accepts(hash, id, checked, ackNr))
            && (checked - issued == 2048 ==> Accepts(hash, id, checked, ackNr))
  {
    if checked - issued == 2048 {
      ComesBack(issued, checked);
    }
    hide *;
    AcceptedIffSameSlot(hash, id, issued, checked, index);
    SameSlotIff(issued, checked);
    if checked - issued < 1984 {
      SlotsApart(issued, checked);
    }
  }

  lemma ComesBack(a: bv32, b: bv32)
    requires a <= b && b - a == 2048
    ensures Slot(a) == Slot(b)
  {
  }

  /** One MSS option, anywhere among other options. */
  predicate AsksFor(os: seq<TcpOption>, k: nat, m: U16) {
    && (forall o :: o in os ==> WellFormed(o))
    && k < |os| && os[k] == Mss(m)
    && forall i :: 0 <= i < |os| && i != k ==> !os[i].Mss?
  }

  lemma {:induction false} NothingRequested(os: seq<TcpOption>, index: nat)
    requires forall i :: 0 <= i < |os| ==> !os[i].Mss?
    ensures Requested(os, index) == index
  {
    if os != [] {
      NothingRequested(os[1..], index);
    }
  }

  lemma {:induction false} OneRequest(os: seq<TcpOption>, k: nat, m: U16, index: nat)
    requires AsksFor(os, k, m)
    ensures Requested(os, index) == SelectIndex(m, index)
    decreases k
  {
    if k == 0 {
      NothingRequested(os[1..], SelectIndex(m, index));
    } else {
      OneRequest(os[1..], k - 1, m, index);
    }
  }

  lemma ScanFindsMss(os: seq<TcpOption>, k: nat, m: U16, padding: nat)
    requires AsksFor(os, k, m)
    ensures Scan(EncodeOptions(os, padding), 0, DEFAULT_INDEX) == SelectIndex(m, DEFAULT_INDEX)
  {
    hide Scan, EncodeOptions, Requested, SelectIndex;
    ScanSeesOptions([], os, padding, DEFAULT_INDEX);
    assert [] + EncodeOptions(os, padding) == EncodeOptions(os, padding);
    OneRequest(os, k, m, DEFAULT_INDEX);
  }

  /** The entry chosen is at most m exactly when some entry is. */
  lemma TableEntryFits(m: U16)
    ensures var i := SelectIndex(m, DEFAULT_INDEX);
            i < 8 && (MSS_RANGES[i] <= m <==> m >= 216) && (m >= 216 ==> LargestBelow(m, i))
  {
  }

  /**
   * MSS theorem. For a SYN whose option list asks for m, and an acknowledgement
   * that comes back in the same slot, the session's segment size is the largest
   * table entry up to m when m is at least 216, and otherwise the default entry,
   * which is more than m.
   */
  lemma MssSurvivesHandshake<Id>(hash: (Id, bv32) -> bv32, id: Id, issued: bv32, checked: bv32,
                                 os: seq<TcpOption>, k: nat, m: U16, padding: nat)
    requires AsksFor(os, k, m) && Slot(issued) == Slot(checked)
    ensures var index := Scan(EncodeOptions(os, padding), 0, DEFAULT_INDEX);
            index < 8
            && var ackNr := MySynCookie(hash, id, issued, Bits(index)) + 1;
            && Accepts(hash, id, checked, ackNr)
            && SessionMss(ackNr) == MSS_RANGES[index]
            && (SessionMss(ackNr) <= m <==> m >= 216)
            && (m >= 216 ==> LargestBelow(m, index))
  {
    hide *;
    ScanFindsMss(os, k, m, padding);
    TableEntryFits(m);
    AcceptedIffSameSlot(hash, id, issued, checked, SelectIndex(m, DEFAULT_INDEX));
  }

  /**
   * For a SYN whose options ask for m, at least the smallest table entry, no
   * segment of the session its cookie opens is larger than m, at any point of
   * any run.
   */
  lemma SegmentsFitPeer<Id>(hash: (Id, bv32) -> bv32, id: Id, issued: bv32, os: seq<TcpOption>,
                            k: nat, m: U16, padding: nat, e: Endpoint, evs: seq<Event>, i: nat, g: Segment)
    requires AsksFor(os, k, m) && m >= 216
    requires var index := Scan(EncodeOptions(os, padding), 0, DEFAULT_INDEX);
             index < 8 && e.s.mss == SessionMss(MySynCookie(hash, id, issued, Bits(index)) + 1)
    requires i < |evs| && g in Emitted(e, evs, i)
    ensures |g.payload| <= m
  {
    hide *;
    MssSurvivesHandshake(hash, id, issued, issued, os, k, m, padding);
    NoSegmentAboveMss(e, evs, i, g);
  }
}

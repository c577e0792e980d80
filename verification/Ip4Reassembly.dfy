/**
 * The fragment store of the IPv4 receiver and its completeness test
 * (src/ip4_server.cpp).
 *
 * The reference for completeness does not sort or scan: a datagram is complete
 * when every byte position is covered by exactly one stored fragment.
 */
module Ip4Reassembly {
  import opened Bytes
  import opened Ip4Packet
  import opened Permutations

  datatype Frag = Frag(off: U16, len: U16)

  /** struct packet. */
  datatype Entry = Entry(data: seq<Byte>, fullSizeKnown: bool, fragments: seq<Frag>)

  const EMPTY := Entry([], false, [])

  // ----- is_complete -------------------------------------------------------

  predicate Sorted(t: seq<Frag>) {
    forall i, j :: 0 <= i < j < |t| ==> t[i].off <= t[j].off
  }

  function Insert(f: Frag, t: seq<Frag>): seq<Frag> {
    if t == [] || f.off <= t[0].off then [f] + t else [t[0]] + Insert(f, t[1..])
  }

  /** std::sort by offset. */
  function SortByOffset(s: seq<Frag>): seq<Frag> {
    if s == [] then [] else Insert(s[0], SortByOffset(s[1..]))
  }

  lemma {:induction false} InsertSorted(f: Frag, t: seq<Frag>)
    requires Sorted(t)
    ensures Sorted(Insert(f, t)) && multiset(Insert(f, t)) == multiset(t) + multiset{f}
  {
    if t != [] && f.off > t[0].off {
      var r := Insert(f, t[1..]);
      InsertSorted(f, t[1..]);
      assert t == [t[0]] + t[1..];
      SortedCons(t[0], t[1..], f, r);
    }
  }

  lemma SortedCons(h: Frag, t: seq<Frag>, f: Frag, r: seq<Frag>)
    requires Sorted([h] + t) && Sorted(r) && h.off <= f.off && multiset(r) == multiset(t) + multiset{f}
    ensures Sorted([h] + r)
  {
    forall x | x in r
      ensures h.off <= x.off
    {
      assert x in multiset(r);
      if x != f {
        assert x in t;
        var i :| 0 <= i < |t| && t[i] == x;
        assert ([h] + t)[0] == h && ([h] + t)[i + 1] == x;
      }
    }
  }

  lemma {:induction false} SortSorts(s: seq<Frag>)
    ensures Sorted(SortByOffset(s)) && multiset(SortByOffset(s)) == multiset(s)
  {
    if s != [] {
      SortSorts(s[1..]);
      InsertSorted(s[0], SortByOffset(s[1..]));
      assert s == [s[0]] + s[1..];
    }
  }

  /** Each fragment starts where the one before it ended, in 16-bit arithmetic. */
  predicate Contiguous(t: seq<Frag>, start: U16) {
    t == [] || (t[0].off == start && Contiguous(t[1..], (t[0].off + t[0].len) % MOD16))
  }

  predicate Complete(e: Entry) {
    e.fullSizeKnown && Contiguous(SortByOffset(e.fragments), 0)
  }

  /** An empty fragment stands at the offset of one that is not. */
  ghost predicate SharedOffset(s: seq<Frag>) {
    exists f, g :: f in s && g in s && f.off == g.off && f.len == 0 && g.len > 0
  }

  lemma SameHead(s: seq<Frag>, t: seq<Frag>, start: U16)
    requires Sorted(s) && Sorted(t) && multiset(s) == multiset(t) && s != [] && t != []
    requires !SharedOffset(s) && Contiguous(s, start)
    ensures s[0] == t[0]
  {
    assert s[0] in multiset(t) && t[0] in multiset(s);
    var i :| 0 <= i < |s| && s[i] == t[0];
    var j :| 0 <= j < |t| && t[j] == s[0];
    assert t[0].off == s[0].off;
    if s[0].len > 0 {
      RestIsLater(s, start);
    }
  }

  lemma RestIsLater(s: seq<Frag>, start: U16)
    requires Sorted(s) && s != [] && s[0].len > 0 && Contiguous(s, start)
    ensures forall i :: 0 < i < |s| ==> s[0].off < s[i].off
  {
    if |s| > 1 {
      assert s[1..][0] == s[1];
      assert s[0].off < s[1].off;
    }
  }

  lemma RestOf(s: seq<Frag>)
    requires s != [] && Sorted(s)
    ensures Sorted(s[1..]) && multiset(s[1..]) == multiset(s) - multiset{s[0]} && s == [s[0]] + s[1..]
    ensures forall f :: f in s[1..] ==> f in s
  {
    assert s == [s[0]] + s[1..];
  }

  /** A sorted list without gaps or shared offsets has only one order. */
  lemma {:induction false} OneSortedOrder(s: seq<Frag>, t: seq<Frag>, start: U16)
    requires Sorted(s) && Sorted(t) && multiset(s) == multiset(t)
    requires !SharedOffset(s) && Contiguous(s, start)
    ensures s == t
  {
    hide Sorted;
    assert |s| == |multiset(s)| == |multiset(t)| == |t|;
    if s != [] {
      SameHead(s, t, start);
      RestOf(s);
      RestOf(t);
      OneSortedOrder(s[1..], t[1..], (s[0].off + s[0].len) % MOD16);
    }
  }

  /** t is one of the orders std::sort may leave s in. */
  ghost predicate SortOf(t: seq<Frag>, s: seq<Frag>) {
    Sorted(t) && multiset(t) == multiset(s)
  }

  lemma SharedOffsetPermutes(s: seq<Frag>, t: seq<Frag>)
    requires multiset(s) == multiset(t) && SharedOffset(s)
    ensures SharedOffset(t)
  {
    var f, g :| f in s && g in s && f.off == g.off && f.len == 0 && g.len > 0;
    assert f in multiset(t) && g in multiset(t);
  }

  /** Behind a fragment that is not empty a contiguous list has only higher offsets. */
  lemma {:induction false} LaterIsHigher(s: seq<Frag>, start: U16, i: nat, j: nat)
    requires Sorted(s) && Contiguous(s, start) && i < j < |s| && s[i].len > 0
    ensures s[i].off < s[j].off
  {
    if i == 0 {
      RestIsLater(s, start);
    } else {
      LaterIsHigher(s[1..], (s[0].off + s[0].len) % MOD16, i - 1, j - 1);
    }
  }

  lemma SwapEqualOffsets(s: seq<Frag>, i: nat, j: nat)
    requires Sorted(s) && i < j < |s| && s[i].off == s[j].off
    ensures SortOf(s[i := s[j]][j := s[i]], s)
  {
    var t := s[i := s[j]][j := s[i]];
    assert forall k :: 0 <= k < |s| ==> t[k].off == s[k].off;
  }

  /** Of the orders of a list that shares an offset, not all are contiguous. */
  lemma SharedOffsetBreaks(s: seq<Frag>) returns (t: seq<Frag>)
    requires Sorted(s) && SharedOffset(s)
    ensures SortOf(t, s) && !Contiguous(t, 0)
  {
    if !Contiguous(s, 0) {
      return s;
    }
    var f, g :| f in s && g in s && f.off == g.off && f.len == 0 && g.len > 0;
    var i :| 0 <= i < |s| && s[i] == f;
    var j :| 0 <= j < |s| && s[j] == g;
    if j < i {
      LaterIsHigher(s, 0, j, i);
    }
    t := s[i := g][j := f];
    SwapEqualOffsets(s, i, j);
    if Contiguous(t, 0) {
      LaterIsHigher(t, 0, i, j);
    }
  }

  /** Sorting by length as well, so that an empty fragment comes before one at its offset that is not. */
  predicate Before(f: Frag, g: Frag) {
    f.off < g.off || (f.off == g.off && f.len <= g.len)
  }

  predicate SortedFully(t: seq<Frag>) {
    forall i, j :: 0 <= i < j < |t| ==> Before(t[i], t[j])
  }

  function Place(f: Frag, t: seq<Frag>): seq<Frag> {
    if t == [] || Before(f, t[0]) then [f] + t else [t[0]] + Place(f, t[1..])
  }

  function SortFully(s: seq<Frag>): seq<Frag> {
    if s == [] then [] else Place(s[0], SortFully(s[1..]))
  }

  lemma FullyCons(h: Frag, t: seq<Frag>)
    requires SortedFully(t) && forall x :: x in t ==> Before(h, x)
    ensures SortedFully([h] + t)
  {
  }

  lemma FullyRest(t: seq<Frag>)
    requires t != [] && SortedFully(t)
    ensures SortedFully(t[1..]) && multiset(t[1..]) == multiset(t) - multiset{t[0]} && t == [t[0]] + t[1..]
    ensures forall x :: x in t[1..] ==> Before(t[0], x)
  {
    assert t == [t[0]] + t[1..];
  }

  lemma {:induction false} PlaceSorts(f: Frag, t: seq<Frag>)
    requires SortedFully(t)
    ensures SortedFully(Place(f, t)) && multiset(Place(f, t)) == multiset(t) + multiset{f}
  {
    if t == [] || Before(f, t[0]) {
      FullyCons(f, t);
    } else {
      FullyRest(t);
      PlaceSorts(f, t[1..]);
      var r := Place(f, t[1..]);
      forall x | x in r
        ensures Before(t[0], x)
      {
        assert x in multiset(r);
      }
      FullyCons(t[0], r);
    }
  }

  lemma {:induction false} SortFullySorts(s: seq<Frag>)
    ensures SortedFully(SortFully(s)) && multiset(SortFully(s)) == multiset(s)
  {
    if s != [] {
      SortFullySorts(s[1..]);
      PlaceSorts(s[0], SortFully(s[1..]));
      assert s == [s[0]] + s[1..];
    }
  }

  lemma SameFirst(s: seq<Frag>, t: seq<Frag>)
    requires SortedFully(s) && SortedFully(t) && multiset(s) == multiset(t) && s != [] && t != []
    ensures s[0] == t[0]
  {
    assert s[0] in multiset(t) && t[0] in multiset(s);
    var i :| 0 <= i < |s| && s[i] == t[0];
    var j :| 0 <= j < |t| && t[j] == s[0];
  }

  lemma {:induction false} OneFullOrder(s: seq<Frag>, t: seq<Frag>)
    requires SortedFully(s) && SortedFully(t) && multiset(s) == multiset(t)
    ensures s == t
  {
    hide SortedFully, Before;
    assert |s| == |multiset(s)| == |multiset(t)| == |t|;
    if s != [] {
      SameFirst(s, t);
      FullyRest(s);
      FullyRest(t);
      OneFullOrder(s[1..], t[1..]);
    }
  }

  lemma ContiguousIsFull(t: seq<Frag>)
    requires Sorted(t) && Contiguous(t, 0)
    ensures SortedFully(t)
  {
    hide Contiguous;
    forall i, j | 0 <= i < j < |t|
      ensures Before(t[i], t[j])
    {
      if t[i].len > 0 {
        LaterIsHigher(t, 0, i, j);
      }
    }
  }

  /** Some order is contiguous exactly if the full sort is. */
  lemma SomeOrderIff(s: seq<Frag>)
    ensures (exists t :: SortOf(t, s) && Contiguous(t, 0)) <==> Contiguous(SortFully(s), 0)
  {
    hide Contiguous, SortFully;
    SortFullySorts(s);
    assert SortOf(SortFully(s), s);
    if t :| SortOf(t, s) && Contiguous(t, 0) {
      ContiguousIsFull(t);
      OneFullOrder(t, SortFully(s));
    }
  }

  /**
   * std::sort leaves the order of equal offsets open. If any order is contiguous,
   * all are if and only if no empty fragment stands at the offset of one that is
   * not; if none is, they agree anyway. The only candidate is the full sort.
   */
  lemma AnySortAgreesIff(s: seq<Frag>)
    ensures (forall t, u :: SortOf(t, s) && SortOf(u, s) ==> (Contiguous(t, 0) <==> Contiguous(u, 0)))
            <==> !(SharedOffset(s) && Contiguous(SortFully(s), 0))
  {
    hide Contiguous, SharedOffset, Sorted, SortFully;
    SomeOrderIff(s);
    if SharedOffset(s) && Contiguous(SortFully(s), 0) {
      var t :| SortOf(t, s) && Contiguous(t, 0);
      SharedOffsetPermutes(s, t);
      var u := SharedOffsetBreaks(t);
    } else {
      forall t, u | SortOf(t, s) && SortOf(u, s) && Contiguous(t, 0)
        ensures Contiguous(u, 0)
      {
        if SharedOffset(t) {
          SharedOffsetPermutes(t, s);
        }
        OneSortedOrder(t, u, 0);
      }
    }
  }

  /** So the model's order stands for all of them unless an offset is shared. */
  lemma AnySortAgrees(e: Entry, t: seq<Frag>)
    requires SortOf(t, e.fragments) && !SharedOffset(e.fragments)
    ensures Complete(e) <==> e.fullSizeKnown && Contiguous(t, 0)
  {
    hide Contiguous, SharedOffset, Sorted;
    SortSorts(e.fragments);
    AnySortAgreesIff(e.fragments);
    assert SortOf(SortByOffset(e.fragments), e.fragments);
  }

  /** And if one is, it may not: of these two sorted orders of one list only the first is contiguous. */
  lemma EmptyFragmentNeedsOrder()
    ensures var s, t := [Frag(0, 0), Frag(0, 8)], [Frag(0, 8), Frag(0, 0)];
            Sorted(s) && Sorted(t) && multiset(s) == multiset(t) && Contiguous(s, 0) && !Contiguous(t, 0)
  {
    assert multiset([Frag(0, 0), Frag(0, 8)]) == multiset{Frag(0, 0), Frag(0, 8)} == multiset([Frag(0, 8), Frag(0, 0)]);
  }

  // ----- coverage ----------------------------------------------------------

  function Covers(f: Frag, k: int): nat {
    if f.off <= k < f.off + f.len then 1 else 0
  }

  /** How many fragments cover byte k. */
  function Cover(s: seq<Frag>, k: int): nat {
    if s == [] then 0 else Covers(s[0], k) + Cover(s[1..], k)
  }

  predicate ExactCover(s: seq<Frag>, n: nat) {
    forall k :: 0 <= k < n ==> Cover(s, k) == 1
  }

  /** Non-empty slices of an n-byte datagram. */
  predicate Slices(s: seq<Frag>, n: nat) {
    forall f :: f in s ==> 0 < f.len && f.off + f.len <= n
  }

  lemma {:induction false} CoverConcat(a: seq<Frag>, b: seq<Frag>, k: int)
    ensures Cover(a + b, k) == Cover(a, k) + Cover(b, k)
  {
    if a == [] {
      assert a + b == b;
    } else {
      assert (a + b)[1..] == a[1..] + b;
      CoverConcat(a[1..], b, k);
    }
  }

  lemma CoverWithout(b: seq<Frag>, i: nat, k: int)
    requires i < |b|
    ensures Cover(b, k) == Covers(b[i], k) + Cover(Without(b, i), k)
  {
    var tail := [b[i]] + b[i + 1..];
    assert b == b[..i] + tail && tail[1..] == b[i + 1..];
    CoverConcat(b[..i], tail, k);
    CoverConcat(b[..i], b[i + 1..], k);
  }

  lemma {:induction false} CoverPermutation(a: seq<Frag>, b: seq<Frag>, k: int)
    requires multiset(a) == multiset(b)
    ensures Cover(a, k) == Cover(b, k)
  {
    if a == [] {
      assert b == [] by { assert |b| == |multiset(b)|; }
    } else {
      var i := Matched(a, b);
      CoverPermutation(a[1..], Without(b, i), k);
      CoverWithout(b, i, k);
    }
  }

  lemma {:induction false} CoveredBySome(s: seq<Frag>, k: int) returns (f: Frag)
    requires Cover(s, k) > 0
    ensures f in s && f.off <= k < f.off + f.len
  {
    if Covers(s[0], k) == 1 {
      f := s[0];
    } else {
      f := CoveredBySome(s[1..], k);
    }
  }

  lemma {:induction false} CoveredBy(s: seq<Frag>, f: Frag, k: int)
    requires f in s && f.off <= k < f.off + f.len
    ensures Cover(s, k) > 0
  {
    if s[0] != f {
      CoveredBy(s[1..], f, k);
    }
  }

  lemma {:induction false} NothingBelow(t: seq<Frag>, k: int)
    requires forall f :: f in t ==> k < f.off
    ensures Cover(t, k) == 0
  {
    if t != [] {
      NothingBelow(t[1..], k);
    }
  }

  /** Contiguous fragments cover one interval, each byte once. */
  lemma {:induction false} ContiguousCovers(t: seq<Frag>, start: U16, n: nat) returns (end: nat)
    requires Contiguous(t, start) && Slices(t, n) && start <= n <= 0xffff
    ensures start <= end <= n
    ensures forall k :: Cover(t, k) == if start <= k < end then 1 else 0
  {
    if t == [] {
      end := start;
    } else {
      var next := t[0].off + t[0].len;
      assert t[0] in t;
      assert forall f :: f in t[1..] ==> f in t;
      end := ContiguousCovers(t[1..], next % MOD16, n);
    }
  }

  /** Sorted fragments that cover each byte from start on once are contiguous. */
  lemma {:induction false} CoverIsContiguous(t: seq<Frag>, start: nat, n: nat)
    requires Sorted(t) && Slices(t, n) && start <= n <= 0xffff
    requires forall k :: 0 <= k < n ==> Cover(t, k) == if start <= k then 1 else 0
    ensures Contiguous(t, start)
  {
    if t != [] {
      var f := t[0];
      var next := f.off + f.len;
      assert f in t;
      CoveredBy(t, f, f.off);
      assert start <= f.off;
      if start < f.off {
        NothingBelow(t, start);
        assert false;
      }
      forall k | 0 <= k < n
        ensures Cover(t[1..], k) == if next <= k then 1 else 0
      {
        assert Cover(t, k) == Covers(f, k) + Cover(t[1..], k);
      }
      assert forall g :: g in t[1..] ==> g in t;
      CoverIsContiguous(t[1..], next, n);
    }
  }

  /**
   * Completeness theorem. Whatever slices of a datagram are stored, however many
   * times and in whatever order, the test succeeds exactly when each byte of the
   * datagram is covered once. Any gap, overlap or duplicate keeps it false.
   */
  lemma CompleteIffExactCover(e: Entry, n: nat)
    requires 0 < n <= 0xffff && Slices(e.fragments, n)
    requires e.fullSizeKnown <==> exists f :: f in e.fragments && f.off + f.len == n
    ensures Complete(e) <==> ExactCover(e.fragments, n)
  {
    var t := SortByOffset(e.fragments);
    SortSorts(e.fragments);
    forall f | f in t
      ensures f in e.fragments
    {
      assert f in multiset(t);
    }
    forall k
      ensures Cover(t, k) == Cover(e.fragments, k)
    {
      CoverPermutation(t, e.fragments, k);
    }
    if Complete(e) {
      var end := ContiguousCovers(t, 0, n);
      var f :| f in e.fragments && f.off + f.len == n;
      CoveredBy(e.fragments, f, n - 1);
    }
    if ExactCover(e.fragments, n) {
      var f := CoveredBySome(e.fragments, n - 1);
      CoverIsContiguous(t, 0, n);
    }
  }

  // ----- the store ---------------------------------------------------------

  type Store = map<Meta, Entry>

  datatype Verdict = Ignored | Reported(kind: Byte, code: Byte) | Stored | Delivered(meta: Meta, payload: seq<Byte>)

  /** memory from realloc holds whatever it holds: junk(i) at position i. */
  function Grow(data: seq<Byte>, n: nat, junk: nat -> Byte): (r: seq<Byte>)
    ensures |r| == if |data| < n then n else |data|
    ensures data <= r
  {
    if |data| < n then data + seq(n - |data|, i requires 0 <= i < n - |data| => junk(|data| + i)) else data
  }

  function Write(data: seq<Byte>, off: nat, bytes: seq<Byte>): seq<Byte>
    requires off + |bytes| <= |data|
  {
    data[..off] + bytes + data[off + |bytes|..]
  }

  lemma WriteAt(data: seq<Byte>, off: nat, bytes: seq<Byte>, k: nat)
    requires off + |bytes| <= |data|
    ensures var r := Write(data, off, bytes);
            && |r| == |data|
            && (k < |data| ==> r[k] == if off <= k < off + |bytes| then bytes[k - off] else data[k])
  {
  }

  function AddPiece(e: Entry, p: Piece, junk: nat -> Byte): Entry
  {
    Entry(
      Write(Grow(e.data, p.off + |p.bytes|, junk), p.off, p.bytes),
      e.fullSizeKnown || !p.more,
      e.fragments + [Frag(p.off, |p.bytes| % MOD16)])
  }

  /** The completeness test leaves the fragment list sorted once the full size is known. */
  function Examined(e: Entry): Entry {
    if e.fullSizeKnown then e.(fragments := SortByOffset(e.fragments)) else e
  }

  datatype Received = Received(store: Store, verdict: Verdict)

  /** A packet that passed the checks. The session id is taken to be distinct for distinct datagrams. */
  function Accept(store: Store, m: Meta, p: Piece, junk: nat -> Byte): Received {
    if p.off == 0 && !p.more then
      Received(store, Delivered(m, p.bytes))
    else
      var e := AddPiece(if m in store then store[m] else EMPTY, p, junk);
      if Complete(e) then Received(store - {m}, Delivered(m, e.data)) else Received(store[m := Examined(e)], Stored)
  }

  function Receive(store: Store, pl: seq<Byte>, listen: seq<Byte>, protocols: set<Byte>, junk: nat -> Byte): Received {
    match Parse(pl, listen, protocols)
    case Drop => Received(store, Ignored)
    case Error(kind, code) => Received(store, Reported(kind, code))
    case Good(m, p) => Accept(store, m, p, junk)
  }

  /** The receiver's loop over packets, on its mutable store. */
  class FragmentStore {
    var packets: Store

    constructor ()
      ensures packets == map[]
    {
      packets := map[];
    }

    /** is_complete: sorts the fragment list, then walks it. */
    static method IsComplete(e: Entry) returns (sorted: Entry, r: bool)
      ensures sorted == Examined(e)
      ensures r <==> Complete(e)
    {
      if !e.fullSizeKnown {
        return e, false;
      }
      sorted := e.(fragments := SortByOffset(e.fragments));
      var fs := sorted.fragments;
      var prevEnd: U16 := 0;
      var i := 0;
      assert fs[0..] == fs;
      while i < |fs|
        invariant 0 <= i <= |fs|
        invariant Contiguous(fs, 0) <==> Contiguous(fs[i..], prevEnd)
      {
        if fs[i].off != prevEnd {
          return sorted, false;
        }
        prevEnd := (fs[i].off + fs[i].len) % MOD16;
        assert fs[i..][1..] == fs[i + 1..];
        i := i + 1;
      }
      r := true;
    }

    method HandlePacket(pl: seq<Byte>, listen: seq<Byte>, protocols: set<Byte>, junk: nat -> Byte) returns (v: Verdict)
      modifies this
      ensures Received(packets, v) == Receive(old(packets), pl, listen, protocols, junk)
    {
      hide Complete, Examined, AddPiece, Parse;
      match Parse(pl, listen, protocols) {
        case Drop =>
          v := Ignored;
        case Error(kind, code) =>
          v := Reported(kind, code);
        case Good(m, p) =>
          if p.off > 0 || p.more {
            if m !in packets {
              packets := packets[m := EMPTY];
            }
            var e := AddPiece(packets[m], p, junk);
            var sorted, done := IsComplete(e);
            if done {
              v := Delivered(m, e.data);
              packets := packets - {m};
            } else {
              v := Stored;
              packets := packets[m := sorted];
            }
          } else {
            v := Delivered(m, p.bytes);
          }
      }
    }
  }

  // ----- what the store holds ----------------------------------------------

  /** p is a non-empty slice of d, flagged as the last one exactly if it is. */
  predicate SliceOf(p: Piece, d: seq<Byte>) {
    && p.bytes != [] && p.off + |p.bytes| <= |d|
    && p.bytes == d[p.off..p.off + |p.bytes|]
    && (p.more <==> p.off + |p.bytes| < |d|)
  }

  function Frags(ps: seq<Piece>): (s: seq<Frag>)
    ensures |s| == |ps|
  {
    seq(|ps|, i requires 0 <= i < |ps| => Frag(ps[i].off, |ps[i].bytes| % MOD16))
  }

  /** The entry after the slices ps of d have arrived. */
  predicate Holds(e: Entry, ps: seq<Piece>, d: seq<Byte>) {
    && (forall p :: p in ps ==> SliceOf(p, d))
    && multiset(e.fragments) == multiset(Frags(ps))
    && (e.fullSizeKnown <==> exists p :: p in ps && !p.more)
    && |e.data| <= |d|
    && forall k :: 0 <= k < |d| && Cover(Frags(ps), k) > 0 ==> k < |e.data| && e.data[k] == d[k]
  }

  lemma FragsSnoc(ps: seq<Piece>, p: Piece)
    ensures Frags(ps + [p]) == Frags(ps) + [Frag(p.off, |p.bytes| % MOD16)]
  {
  }

  lemma CoverSnoc(s: seq<Frag>, f: Frag, k: int)
    ensures Cover(s + [f], k) == Cover(s, k) + Covers(f, k)
  {
    CoverConcat(s, [f], k);
    assert [f][1..] == [];
  }

  /** Bytes that are covered are right after one more slice is written over the buffer. */
  lemma AddKeepsBytes(e: Entry, ps: seq<Piece>, p: Piece, d: seq<Byte>, junk: nat -> Byte, k: nat)
    requires Holds(e, ps, d) && SliceOf(p, d) && |d| <= 0xffff && k < |d| && Cover(Frags(ps + [p]), k) > 0
    ensures var r := AddPiece(e, p, junk); k < |r.data| <= |d| && r.data[k] == d[k]
  {
    var r := AddPiece(e, p, junk);
    var grown := Grow(e.data, p.off + |p.bytes|, junk);
    FragsSnoc(ps, p);
    CoverSnoc(Frags(ps), Frag(p.off, |p.bytes|), k);
    WriteAt(grown, p.off, p.bytes, k);
    hide Cover, Frags, Grow, Write;
    if !(p.off <= k < p.off + |p.bytes|) {
      assert k < |e.data| && e.data[k] == d[k];
    }
  }

  lemma AddKeepsFlag(e: Entry, ps: seq<Piece>, p: Piece, junk: nat -> Byte)
    requires e.fullSizeKnown <==> exists q :: q in ps && !q.more
    ensures AddPiece(e, p, junk).fullSizeKnown <==> exists q :: q in ps + [p] && !q.more
  {
  }

  lemma AddKeepsHolds(e: Entry, ps: seq<Piece>, p: Piece, d: seq<Byte>, junk: nat -> Byte)
    requires Holds(e, ps, d) && SliceOf(p, d) && |d| <= 0xffff
    ensures Holds(AddPiece(e, p, junk), ps + [p], d)
  {
    var r := AddPiece(e, p, junk);
    assert multiset(r.fragments) == multiset(Frags(ps + [p])) && |r.data| <= |d| by { FragsSnoc(ps, p); }
    AddKeepsFlag(e, ps, p, junk);
    forall k | 0 <= k < |d| && Cover(Frags(ps + [p]), k) > 0
      ensures k < |r.data| && r.data[k] == d[k]
    {
      AddKeepsBytes(e, ps, p, d, junk, k);
    }
  }

  lemma FragOf(ps: seq<Piece>, f: Frag) returns (p: Piece)
    requires f in multiset(Frags(ps))
    ensures p in ps && f == Frag(p.off, |p.bytes| % MOD16)
  {
    var i :| 0 <= i < |Frags(ps)| && Frags(ps)[i] == f;
    p := ps[i];
  }

  lemma PieceHasFrag(ps: seq<Piece>, p: Piece)
    requires p in ps
    ensures Frag(p.off, |p.bytes| % MOD16) in multiset(Frags(ps))
  {
    var i :| 0 <= i < |ps| && ps[i] == p;
    assert Frags(ps)[i] in Frags(ps);
  }

  lemma HeldSlices(e: Entry, ps: seq<Piece>, d: seq<Byte>)
    requires Holds(e, ps, d) && 0 < |d| <= 0xffff
    ensures Slices(e.fragments, |d|)
    ensures e.fullSizeKnown <==> exists f :: f in e.fragments && f.off + f.len == |d|
  {
    hide Frags, Cover;
    forall f | f in e.fragments
      ensures 0 < f.len && f.off + f.len <= |d|
      ensures f.off + f.len == |d| ==> e.fullSizeKnown
    {
      assert f in multiset(e.fragments);
      var p := FragOf(ps, f);
    }
    if e.fullSizeKnown {
      var p :| p in ps && !p.more;
      PieceHasFrag(ps, p);
      assert Frag(p.off, |p.bytes|) in e.fragments;
    }
  }

  lemma HeldIsComplete(e: Entry, ps: seq<Piece>, d: seq<Byte>)
    requires Holds(e, ps, d) && 0 < |d| <= 0xffff
    ensures Complete(e) <==> ExactCover(Frags(ps), |d|)
    ensures Complete(e) ==> e.data == d
  {
    hide Complete;
    var s := Frags(ps);
    HeldSlices(e, ps, d);
    CompleteIffExactCover(e, |d|);
    forall k
      ensures Cover(e.fragments, k) == Cover(s, k)
    {
      CoverPermutation(e.fragments, s, k);
    }
    if Complete(e) {
      assert Cover(s, |d| - 1) == 1;
      assert forall k :: 0 <= k < |d| ==> Cover(s, k) == 1 && e.data[k] == d[k];
    }
  }

  lemma ExaminedHolds(e: Entry, ps: seq<Piece>, d: seq<Byte>)
    requires Holds(e, ps, d)
    ensures Holds(Examined(e), ps, d)
  {
    SortSorts(e.fragments);
  }

  /** The entry for m, if the store has one. */
  function EntryOf(store: Store, m: Meta): Entry {
    if m in store then store[m] else EMPTY
  }

  /** One more fragment: delivered if it completes the cover, otherwise held. */
  lemma AcceptStep(store: Store, m: Meta, ps: seq<Piece>, p: Piece, d: seq<Byte>, junk: nat -> Byte)
    requires Holds(EntryOf(store, m), ps, d) && SliceOf(p, d) && (p.off > 0 || p.more) && 0 < |d| <= 0xffff
    ensures var r := Accept(store, m, p, junk);
            if ExactCover(Frags(ps + [p]), |d|)
            then r == Received(store - {m}, Delivered(m, d))
            else r.verdict == Stored && m in r.store && Holds(r.store[m], ps + [p], d) && r.store - {m} == store - {m}
  {
    var e := AddPiece(EntryOf(store, m), p, junk);
    AddKeepsHolds(EntryOf(store, m), ps, p, d, junk);
    HeldIsComplete(e, ps + [p], d);
    ExaminedHolds(e, ps + [p], d);
    hide Holds, AddPiece, Complete, Examined, ExactCover;
  }

  /** The buffer after bytes have been written at off: what is written last counts, new room holds junk. */
  predicate WrittenOver(was: seq<Byte>, off: nat, bytes: seq<Byte>, junk: nat -> Byte, r: seq<Byte>) {
    && |r| == (if |was| < off + |bytes| then off + |bytes| else |was|)
    && forall k :: 0 <= k < |r| ==>
         r[k] == if off <= k < off + |bytes| then bytes[k - off] else if k < |was| then was[k] else junk(k)
  }

  lemma AddWritesOver(e: Entry, p: Piece, junk: nat -> Byte)
    ensures WrittenOver(e.data, p.off, p.bytes, junk, AddPiece(e, p, junk).data)
  {
    var grown := Grow(e.data, p.off + |p.bytes|, junk);
    var r := AddPiece(e, p, junk).data;
    forall k | 0 <= k < |r|
      ensures r[k] == if p.off <= k < p.off + |p.bytes| then p.bytes[k - p.off] else grown[k]
    {
      WriteAt(grown, p.off, p.bytes, k);
    }
  }

  /**
   * What a packet that passed the checks does, whatever pieces came before: one
   * that is no fragment goes up and leaves the store alone; a fragment is written
   * over what is there and noted, and its datagram goes up or stays as it is then.
   */
  lemma AcceptEffect(store: Store, m: Meta, p: Piece, junk: nat -> Byte)
    ensures var e, r := EntryOf(store, m), Accept(store, m, p, junk);
            if p.off == 0 && !p.more then r == Received(store, Delivered(m, p.bytes))
            else if r.verdict.Stored? then
              && m in r.store && r.store - {m} == store - {m}
              && WrittenOver(e.data, p.off, p.bytes, junk, r.store[m].data)
              && r.store[m].fullSizeKnown == (e.fullSizeKnown || !p.more)
              && multiset(r.store[m].fragments) == multiset(e.fragments) + multiset{Frag(p.off, |p.bytes| % MOD16)}
            else
              && r.verdict.Delivered? && r.verdict.meta == m && r.store == store - {m}
              && WrittenOver(e.data, p.off, p.bytes, junk, r.verdict.payload) && (e.fullSizeKnown || !p.more)
  {
    var e := AddPiece(EntryOf(store, m), p, junk);
    AddWritesOver(EntryOf(store, m), p, junk);
    SortSorts(e.fragments);
    hide WrittenOver, SortByOffset, Write, Grow, Contiguous;
  }

  /** A packet is ignored, reported or accepted as its checks say; only an accepted one touches the store. */
  lemma ReceiveVerdicts(store: Store, pl: seq<Byte>, listen: seq<Byte>, protocols: set<Byte>, junk: nat -> Byte)
    ensures var q, r := Parse(pl, listen, protocols), Receive(store, pl, listen, protocols, junk);
            && (r.verdict.Ignored? <==> q.Drop?) && (r.verdict.Reported? <==> q.Error?)
            && (q.Error? ==> r.verdict == Reported(q.kind, q.code))
            && (!q.Good? ==> r.store == store)
            && (q.Good? ==> r == Accept(store, q.meta, q.piece, junk))
  {
    hide Parse, AddPiece, Complete, Examined;
  }

  // ----- runs --------------------------------------------------------------

  function Arrive(store: Store, m: Meta, ps: seq<Piece>, junk: nat -> Byte): Store {
    if ps == [] then store
    else Accept(Arrive(store, m, ps[..|ps| - 1], junk), m, ps[|ps| - 1], junk).store
  }

  predicate TrueFragments(ps: seq<Piece>, d: seq<Byte>) {
    forall p :: p in ps ==> SliceOf(p, d) && (p.off > 0 || p.more)
  }

  lemma {:induction false} IncompleteIsHeld(store: Store, m: Meta, ps: seq<Piece>, d: seq<Byte>, junk: nat -> Byte)
    requires m !in store && 0 < |d| <= 0xffff && TrueFragments(ps, d)
    requires forall i :: 0 <= i <= |ps| ==> !ExactCover(Frags(ps[..i]), |d|)
    ensures var r := Arrive(store, m, ps, junk); Holds(EntryOf(r, m), ps, d) && r - {m} == store
  {
    hide Accept, ExactCover;
    if ps == [] {
      assert forall k :: Cover(EMPTY.fragments, k) == 0;
      assert Frags(ps) == [];
      assert store - {m} == store;
    } else {
      hide Holds;
      var n := |ps| - 1;
      forall i | 0 <= i <= n
        ensures !ExactCover(Frags(ps[..n][..i]), |d|)
      {
        assert ps[..n][..i] == ps[..i];
      }
      assert forall p :: p in ps[..n] ==> p in ps;
      IncompleteIsHeld(store, m, ps[..n], d, junk);
      assert ps[..n] + [ps[n]] == ps && ps[..n + 1] == ps;
      assert !ExactCover(Frags(ps[..n + 1]), |d|);
      AcceptStep(Arrive(store, m, ps[..n], junk), m, ps[..n], ps[n], d, junk);
    }
  }

  /**
   * Reassembly theorem, for any fragmenter. Fragments of d arrive in any order,
   * any number of times, for a datagram the store does not know yet. While they
   * do not cover d exactly the store delivers nothing; the fragment that makes
   * them do so is answered with exactly d, and the store is as it was.
   */
  lemma ReassemblyExact(store: Store, m: Meta, ps: seq<Piece>, p: Piece, d: seq<Byte>, junk: nat -> Byte)
    requires m !in store && 0 < |d| <= 0xffff && TrueFragments(ps + [p], d)
    requires forall i :: 0 <= i <= |ps| ==> !ExactCover(Frags(ps[..i]), |d|)
    ensures var r := Accept(Arrive(store, m, ps, junk), m, p, junk);
            if ExactCover(Frags(ps + [p]), |d|)
            then r == Received(store, Delivered(m, d))
            else r.verdict == Stored && r.store - {m} == store
  {
    hide Accept, ExactCover, Holds;
    assert forall q :: q in ps ==> q in ps + [p];
    assert p in ps + [p];
    IncompleteIsHeld(store, m, ps, d, junk);
    AcceptStep(Arrive(store, m, ps, junk), m, ps, p, d, junk);
  }

  lemma TwiceIsNotOnce(ps: seq<Piece>, more: seq<Piece>, n: nat, k: nat)
    requires k < n && Cover(Frags(ps), k) >= 2
    ensures !ExactCover(Frags(ps + more), n)
  {
    assert Frags(ps + more) == Frags(ps) + Frags(more);
    CoverConcat(Frags(ps), Frags(more), k);
  }

  /**
   * Once a byte of a datagram has arrived twice before it was complete, it never
   * is: every later fragment of it is stored without an answer.
   */
  lemma DuplicateBlocks(store: Store, m: Meta, ps: seq<Piece>, more: seq<Piece>, p: Piece,
                        d: seq<Byte>, junk: nat -> Byte, k: nat)
    requires m !in store && 0 < |d| <= 0xffff && TrueFragments(ps + more + [p], d)
    requires forall i :: 0 <= i <= |ps| ==> !ExactCover(Frags(ps[..i]), |d|)
    requires k < |d| && Cover(Frags(ps), k) >= 2
    ensures Accept(Arrive(store, m, ps + more, junk), m, p, junk).verdict == Stored
  {
    hide Accept, ExactCover, Cover, Frags;
    var qs := ps + more;
    forall i | 0 <= i <= |qs|
      ensures !ExactCover(Frags(qs[..i]), |d|)
    {
      if i <= |ps| {
        assert qs[..i] == ps[..i];
      } else {
        assert qs[..i] == ps + more[..i - |ps|];
        TwiceIsNotOnce(ps, more[..i - |ps|], |d|, k);
      }
    }
    assert qs + [p] == ps + (more + [p]);
    TwiceIsNotOnce(ps, more + [p], |d|, k);
    ReassemblyExact(store, m, qs, p, d, junk);
  }

  // ----- other traffic -------------------------------------------------------

  datatype Arrival = Arrival(m: Meta, p: Piece)

  /** The store after packets of any datagrams. */
  function ArriveAny(store: Store, evs: seq<Arrival>, junk: nat -> Byte): Store {
    if evs == [] then store
    else
      var last := evs[|evs| - 1];
      Accept(ArriveAny(store, evs[..|evs| - 1], junk), last.m, last.p, junk).store
  }

  /** The fragments of one datagram among them. */
  function Only(evs: seq<Arrival>, m: Meta): seq<Piece> {
    if evs == [] then []
    else
      var last := evs[|evs| - 1];
      Only(evs[..|evs| - 1], m) + if last.m == m then [last.p] else []
  }

  /** A packet looks only at the entry of its own datagram. */
  lemma AcceptIsLocal(a: Store, b: Store, m: Meta, p: Piece, junk: nat -> Byte)
    requires EntryOf(a, m) == EntryOf(b, m)
    ensures Accept(a, m, p, junk).verdict == Accept(b, m, p, junk).verdict
    ensures EntryOf(Accept(a, m, p, junk).store, m) == EntryOf(Accept(b, m, p, junk).store, m)
    ensures (m in a <==> m in b) ==> (m in Accept(a, m, p, junk).store <==> m in Accept(b, m, p, junk).store)
  {
  }

  lemma OnlyItsOwn(a: Store, m: Meta, p: Piece, junk: nat -> Byte)
    ensures Accept(a, m, p, junk).store - {m} == a - {m}
  {
  }

  lemma OthersApart(a: Store, m: Meta, other: Meta, p: Piece, junk: nat -> Byte)
    requires other != m
    ensures var b := Accept(a, other, p, junk).store; EntryOf(b, m) == EntryOf(a, m) && (m in b <==> m in a)
  {
  }

  /** Whatever else arrives in between, a datagram's entry is what its own fragments make it. */
  lemma {:induction false} TrafficDoesNotMix(store: Store, evs: seq<Arrival>, m: Meta, junk: nat -> Byte)
    ensures var a, b := ArriveAny(store, evs, junk), Arrive(store, m, Only(evs, m), junk);
            EntryOf(a, m) == EntryOf(b, m) && (m in a <==> m in b)
    decreases |evs|
  {
    hide Accept;
    if evs != [] {
      var n := |evs| - 1;
      TrafficDoesNotMix(store, evs[..n], m, junk);
      var ps := Only(evs[..n], m);
      var s, t := ArriveAny(store, evs[..n], junk), Arrive(store, m, ps, junk);
      if evs[n].m == m {
        AcceptIsLocal(s, t, m, evs[n].p, junk);
        assert Only(evs, m)[..|ps|] == ps;
      } else {
        OthersApart(s, m, evs[n].m, evs[n].p, junk);
        assert Only(evs, m) == ps;
      }
    }
  }

  /** So every fragment gets the verdict it would get if its datagram were alone. */
  lemma VerdictAmongTraffic(store: Store, evs: seq<Arrival>, m: Meta, p: Piece, junk: nat -> Byte)
    ensures var a := Accept(ArriveAny(store, evs, junk), m, p, junk);
            var b := Accept(Arrive(store, m, Only(evs, m), junk), m, p, junk);
            a.verdict == b.verdict && (m in a.store <==> m in b.store)
  {
    hide Accept;
    TrafficDoesNotMix(store, evs, m, junk);
    AcceptIsLocal(ArriveAny(store, evs, junk), Arrive(store, m, Only(evs, m), junk), m, p, junk);
  }
}

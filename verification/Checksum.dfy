/**
 * The Internet checksum (src/utils/checksum.cpp): a 32-bit accumulator over
 * big-endian 16-bit words, folded twice, complemented.
 *
 * The reference is one's-complement addition as section 1 of RFC 1071 defines
 * it: every carry out of the top bit is added back at once.
 */
module Checksum {
  import opened Bytes
  import opened Permutations

  /** The most bytes for which the 32-bit accumulator cannot overflow. */
  const MAX_BYTES := 131074

  /** The i-th 16-bit word of a packet; an odd last byte is the high half of a word. */
  function WordAt(p: seq<Byte>, i: nat): U16
    requires 2 * i < |p|
  {
    Word(p[2 * i], if 2 * i + 1 < |p| then p[2 * i + 1] else 0)
  }

  function Words(p: seq<Byte>): (ws: seq<U16>)
    ensures |ws| == (|p| + 1) / 2
  {
    seq((|p| + 1) / 2, i requires 0 <= i < (|p| + 1) / 2 => WordAt(p, i))
  }

  /** Words are big-endian, and an odd packet is summed as if a zero byte followed. */
  lemma WordsAre(p: seq<Byte>)
    ensures |p| % 2 == 1 ==> Words(p + [0]) == Words(p)
    ensures |p| % 2 == 0 ==>
              forall i :: 0 <= i < |p| / 2 ==> Words(p)[i] / 256 == p[2 * i] && Words(p)[i] % 256 == p[2 * i + 1]
  {
    if |p| % 2 == 1 {
      var q := p + [0];
      assert |Words(q)| == |Words(p)|;
      assert forall i :: 0 <= i < |Words(p)| ==> WordAt(q, i) == WordAt(p, i);
    }
  }

  function Sum(ws: seq<U16>): nat {
    if ws == [] then 0 else Sum(ws[..|ws| - 1]) + ws[|ws| - 1]
  }

  /** One's-complement addition with end-around carry. */
  function OnesAdd(a: U16, b: U16): U16 {
    if a + b < MOD16 then a + b else a + b - 0xffff
  }

  function OnesSum(ws: seq<U16>): U16 {
    if ws == [] then 0 else OnesAdd(OnesSum(ws[..|ws| - 1]), ws[|ws| - 1])
  }

  /** The checksum section 1 of RFC 1071 asks for. */
  function InternetChecksum(ws: seq<U16>): U16 {
    0xffff - OnesSum(ws)
  }

  /** The example of section 3 of RFC 1071. */
  lemma Rfc1071Example()
    ensures InternetChecksum(Words([0x00, 0x01, 0xf2, 0x03, 0xf4, 0xf5, 0xf6, 0xf7])) == 0xffff - 0xddf2
  {
    var p: seq<Byte> := [0x00, 0x01, 0xf2, 0x03, 0xf4, 0xf5, 0xf6, 0xf7];
    var ws := Words(p);
    assert ws == [0x0001, 0xf203, 0xf4f5, 0xf6f7];
    assert ws[..3] == [0x0001, 0xf203, 0xf4f5] && ws[..3][..2] == [0x0001, 0xf203];
    assert ws[..3][..2][..1] == [0x0001] && [ws[0]][..0] == [];
    assert OnesSum([0x0001]) == 0x0001;
    assert OnesSum([0x0001, 0xf203]) == 0xf204;
    assert OnesSum([0x0001, 0xf203, 0xf4f5]) == 0xe6fa;
  }

  /** What checksum.cpp does with the finished accumulator: two folds, complement, truncate. */
  function FoldAndComplement(acc: U32): (r: U16)
    ensures r == 0xffff - Residue(acc)
  {
    var once := acc / MOD16 + acc % MOD16;
    var twice := once + once / MOD16;
    FoldIsResidue(acc);
    0xffff - twice % MOD16
  }

  /** The representative of s modulo 0xffff in 1..0xffff, or 0 for 0. */
  function Residue(s: nat): U16 {
    if s == 0 then 0 else (s - 1) % 0xffff + 1
  }

  lemma FoldIsResidue(acc: U32)
    ensures var once := acc / MOD16 + acc % MOD16;
            (once + once / MOD16) % MOD16 == Residue(acc)
  {
  }

  lemma ResidueAdd(s: nat, w: U16)
    ensures OnesAdd(Residue(s), w) == Residue(s + w)
  {
  }

  lemma {:induction false} OnesSumIsResidue(ws: seq<U16>)
    ensures OnesSum(ws) == Residue(Sum(ws))
  {
    if ws != [] {
      OnesSumIsResidue(ws[..|ws| - 1]);
      ResidueAdd(Sum(ws[..|ws| - 1]), ws[|ws| - 1]);
    }
  }

  lemma {:induction false} SumBound(ws: seq<U16>)
    ensures Sum(ws) <= |ws| * 0xffff
  {
    if ws != [] {
      SumBound(ws[..|ws| - 1]);
    }
  }

  lemma {:induction false} SumConcat(a: seq<U16>, b: seq<U16>)
    ensures Sum(a + b) == Sum(a) + Sum(b)
  {
    if b == [] {
      assert a + b == a;
    } else {
      SumConcat(a, b[..|b| - 1]);
      assert (a + b)[..|a + b| - 1] == a + b[..|b| - 1];
    }
  }

  lemma EmptyPrefix(p: seq<Byte>)
    ensures Sum(Words(p)[..0]) == 0
  {
  }

  lemma SumStep(p: seq<Byte>, i: nat)
    requires i < |Words(p)|
    ensures Sum(Words(p)[..i + 1]) == Sum(Words(p)[..i]) + WordAt(p, i)
  {
    assert Words(p)[..i + 1][..i] == Words(p)[..i];
  }

  /** Adding into a wrapping accumulator is adding and wrapping once. */
  lemma WrapOnce(a: nat, w: nat)
    ensures (a % MOD32 + w) % MOD32 == (a + w) % MOD32
  {
  }

  /** The word loop both checksum functions share, on a 32-bit accumulator that wraps. */
  method Accumulate(start: U32, p: seq<Byte>) returns (cksum: U32)
    ensures cksum == (start + Sum(Words(p))) % MOD32
  {
    hide Sum, Words;
    cksum := start;
    EmptyPrefix(p);
    var i := 0;
    while i < |p| / 2
      invariant 0 <= i <= |p| / 2
      invariant cksum == (start + Sum(Words(p)[..i])) % MOD32
    {
      SumStep(p, i);
      WrapOnce(start + Sum(Words(p)[..i]), WordAt(p, i));
      cksum := (cksum + Word(p[2 * i], p[2 * i + 1])) % MOD32;
      i := i + 1;
    }
    if |p| % 2 == 1 {
      SumStep(p, i);
      WrapOnce(start + Sum(Words(p)[..i]), WordAt(p, i));
      cksum := (cksum + Word(p[|p| - 1], 0)) % MOD32;
      i := i + 1;
    }
    assert Words(p)[..i] == Words(p);
  }

  lemma SumFits(ws: seq<U16>)
    requires |ws| <= MAX_BYTES / 2
    ensures Sum(ws) % MOD32 == Sum(ws)
  {
    hide Sum;
    SumBound(ws);
  }

  /**
   * ip_checksum. The accumulator is 32 bits wide and wraps; up to MAX_BYTES
   * bytes it never does, and the result is the RFC 1071 checksum.
   */
  method IpChecksum(p: seq<Byte>) returns (r: U16)
    ensures |p| <= MAX_BYTES ==> r == InternetChecksum(Words(p))
    ensures r == 0xffff - Residue(Sum(Words(p)) % MOD32)
  {
    hide Words, Sum, OnesSum, Residue, FoldAndComplement;
    var cksum := Accumulate(0, p);
    r := FoldAndComplement(cksum);
    if |p| <= MAX_BYTES {
      SumFits(Words(p));
      OnesSumIsResidue(Words(p));
    }
  }

  /** The words of the pseudo header that tcp_udp_checksum adds before the packet's own. */
  function PseudoHeader(from: seq<Byte>, to: seq<Byte>, n: U16, protocol: Byte): (ws: seq<U16>)
    requires |from| == 4 && |to| == 4
  {
    [WordAt(from, 0), WordAt(from, 1), WordAt(to, 0), WordAt(to, 1), protocol, n]
  }

  /** Section 3.1 of RFC 793: source, destination, a zero byte with the protocol, and the length. */
  lemma PseudoHeaderIs(from: seq<Byte>, to: seq<Byte>, n: U16, protocol: Byte)
    requires |from| == 4 && |to| == 4
    ensures PseudoHeader(from, to, n, protocol) == Words(from + to + [0, protocol] + Be16(n))
  {
    var p := from + to + [0, protocol] + Be16(n);
    var ws := Words(p);
    assert p[0..4] == from && p[4..8] == to && p[8] == 0 && p[9] == protocol && p[10..12] == Be16(n);
    assert ws[0] == WordAt(p, 0) && ws[1] == WordAt(p, 1) && ws[2] == WordAt(p, 2) && ws[3] == WordAt(p, 3);
    assert p[0] == from[0] && p[1] == from[1] && p[2] == from[2] && p[3] == from[3];
    assert p[4] == to[0] && p[5] == to[1] && p[6] == to[2] && p[7] == to[3];
    assert p[10] == Be16(n)[0] && p[11] == Be16(n)[1];
    assert ws[4] == protocol && ws[5] == n;
  }

  /** The accumulator after the address, protocol and length additions. */
  function PseudoStart(from: seq<Byte>, to: seq<Byte>, n: nat, protocol: Byte): U32
    requires |from| == 4 && |to| == 4
  {
    var fromSum: int := WordAt(from, 0) + WordAt(from, 1);
    var toSum: int := WordAt(to, 0) + WordAt(to, 1);
    (fromSum + toSum + protocol + n) % MOD32
  }

  /** tcp_udp_checksum; up to 0xffff bytes, what a 16-bit length can say, the accumulator does not wrap. */
  method TcpUdpChecksum(from: seq<Byte>, to: seq<Byte>, p: seq<Byte>, protocol: Byte) returns (r: U16)
    requires |from| == 4 && |to| == 4
    ensures |p| <= 0xffff ==> r == InternetChecksum(PseudoHeader(from, to, |p|, protocol) + Words(p))
    ensures r == 0xffff - Residue((PseudoStart(from, to, |p|, protocol) + Sum(Words(p))) % MOD32)
  {
    hide Words, Sum, InternetChecksum, Residue, FoldAndComplement, PseudoStart, PseudoHeader;
    var cksum := Accumulate(PseudoStart(from, to, |p|, protocol), p);
    r := FoldAndComplement(cksum);
    if |p| <= 0xffff {
      PseudoResidue(from, to, p, protocol);
    }
  }

  lemma PseudoResidue(from: seq<Byte>, to: seq<Byte>, p: seq<Byte>, protocol: Byte)
    requires |from| == 4 && |to| == 4 && |p| <= 0xffff
    ensures var total := PseudoStart(from, to, |p|, protocol) + Sum(Words(p));
            && total < MOD32
            && 0xffff - Residue(total) == InternetChecksum(PseudoHeader(from, to, |p|, protocol) + Words(p))
  {
    PseudoTotal(from, to, p, protocol);
    OnesSumIsResidue(PseudoHeader(from, to, |p|, protocol) + Words(p));
  }

  lemma PseudoTotal(from: seq<Byte>, to: seq<Byte>, p: seq<Byte>, protocol: Byte)
    requires |from| == 4 && |to| == 4 && |p| <= 0xffff
    ensures Sum(PseudoHeader(from, to, |p|, protocol) + Words(p))
         == PseudoStart(from, to, |p|, protocol) + Sum(Words(p)) < MOD32
  {
    PseudoHeaderSum(from, to, |p|, protocol);
    hide Sum, PseudoStart;
    SumConcat(PseudoHeader(from, to, |p|, protocol), Words(p));
    SumBound(PseudoHeader(from, to, |p|, protocol));
    SumBound(Words(p));
  }

  lemma PseudoHeaderSum(from: seq<Byte>, to: seq<Byte>, n: U16, protocol: Byte)
    requires |from| == 4 && |to| == 4
    ensures Sum(PseudoHeader(from, to, n, protocol)) == PseudoStart(from, to, n, protocol)
  {
    var ws := PseudoHeader(from, to, n, protocol);
    assert ws[..5][..4] == ws[..4] && ws[..4][..3] == ws[..3] && ws[..3][..2] == ws[..2] && ws[..2][..1] == ws[..1];
    assert Sum(ws) == Sum(ws[..5]) + n;
    assert Sum(ws[..5]) == Sum(ws[..4]) + protocol;
    assert Sum(ws[..4]) == Sum(ws[..3]) + ws[3];
    assert Sum(ws[..3]) == Sum(ws[..2]) + ws[2];
    assert Sum(ws[..2]) == Sum(ws[..1]) + ws[1];
    assert Sum(ws[..1]) == Sum([]) + ws[0];
  }

  /** Changing one word changes the sum by exactly the difference. */
  lemma {:induction false} SumReplace(ws: seq<U16>, k: nat, v: U16)
    requires k < |ws|
    ensures Sum(ws[k := v]) == Sum(ws) - ws[k] + v
  {
    var n := |ws| - 1;
    if k < n {
      SumReplace(ws[..n], k, v);
      assert ws[k := v][..n] == ws[..n][k := v];
    } else {
      assert ws[k := v][..n] == ws[..n];
    }
  }

  /** Insert, then verify: a word list that carries its own checksum sums to zero. */
  lemma InsertThenVerify(ws: seq<U16>, k: nat)
    requires k < |ws| && ws[k] == 0
    ensures InternetChecksum(ws[k := InternetChecksum(ws)]) == 0
  {
    var c := InternetChecksum(ws);
    SumReplace(ws, k, c);
    OnesSumIsResidue(ws);
    OnesSumIsResidue(ws[k := c]);
    hide Sum, OnesSum, Residue;
    ComplementCloses(Sum(ws));
  }

  /** A sum and the complement of its residue add up to a multiple of 0xffff, not 0. */
  lemma ComplementCloses(s: nat)
    ensures Residue(s + (0xffff - Residue(s))) == 0xffff
  {
  }

  /** The same for bytes: c is stored big-endian at an even offset, as every header builder does. */
  function StoreChecksum(p: seq<Byte>, at: nat, c: U16): (q: seq<Byte>)
    requires at % 2 == 0 && at + 1 < |p|
    ensures |q| == |p|
  {
    p[at := c / 256][at + 1 := c % 256]
  }

  lemma StoreChecksumWords(p: seq<Byte>, at: nat, c: U16)
    requires at % 2 == 0 && at + 1 < |p|
    ensures Words(StoreChecksum(p, at, c)) == Words(p)[at / 2 := c]
  {
  }

  lemma StoredChecksumVerifies(p: seq<Byte>, at: nat, head: seq<U16>)
    requires at % 2 == 0 && at + 1 < |p| && p[at] == 0 && p[at + 1] == 0
    ensures var c := InternetChecksum(head + Words(p));
            InternetChecksum(head + Words(StoreChecksum(p, at, c))) == 0
  {
    var c := InternetChecksum(head + Words(p));
    StoreChecksumWords(p, at, c);
    InsertThenVerify(head + Words(p), |head| + at / 2);
    assert (head + Words(p))[|head| + at / 2 := c] == head + Words(p)[at / 2 := c];
  }

  /** Compute over the zeroed field, then fill it in: what every builder of an IP or ICMP packet does. */
  method FillInChecksum(p: seq<Byte>, at: nat) returns (q: seq<Byte>)
    requires at % 2 == 0 && at + 1 < |p| && p[at] == 0 && p[at + 1] == 0
    ensures |q| == |p| && q[..at] == p[..at] && q[at + 2..] == p[at + 2..]
    ensures |p| <= MAX_BYTES ==> InternetChecksum(Words(q)) == 0
  {
    var checksum := IpChecksum(p);
    hide InternetChecksum, Words;
    q := p[at := checksum / 256][at + 1 := checksum % 256];
    ghost var none: seq<U16> := [];
    StoredChecksumVerifies(p, at, none);
    assert none + Words(p) == Words(p) && none + Words(q) == Words(q);
  }

  /**
   * Detection: in a packet that verifies, replacing one word is noticed exactly
   * unless the two values are the two zeroes of one's complement, and even then
   * a change to 0x0000 is noticed when every other word is zero.
   */
  lemma SingleWordDetection(ws: seq<U16>, k: nat, v: U16)
    requires k < |ws| && v != ws[k] && InternetChecksum(ws) == 0
    ensures InternetChecksum(ws[k := v]) == 0 <==>
            (ws[k] == 0 && v == 0xffff) || (ws[k] == 0xffff && v == 0 && Sum(ws[k := 0]) != 0)
  {
    SumReplace(ws, k, v);
    SumReplace(ws, k, 0);
    OnesSumIsResidue(ws);
    OnesSumIsResidue(ws[k := v]);
    hide Sum, OnesSum, Residue;
    FullResidue(Sum(ws));
    FullResidue(Sum(ws[k := v]));
    MultipleAgain(Sum(ws), v - ws[k]);
  }

  lemma FullResidue(s: nat)
    ensures Residue(s) == 0xffff <==> s != 0 && s % 0xffff == 0
  {
  }

  lemma MultipleAgain(s: nat, d: int)
    requires s % 0xffff == 0 && -0xffff <= d <= 0xffff && s + d >= 0
    ensures (s + d) % 0xffff == 0 <==> d == 0 || d == 0xffff || d == -0xffff
  {
  }

  lemma {:induction false} SumPermutation(a: seq<U16>, b: seq<U16>)
    requires multiset(a) == multiset(b)
    ensures Sum(a) == Sum(b)
    decreases |a|
  {
    if a == [] {
      assert b == [] by { assert |b| == |multiset(b)|; }
    } else {
      var i := Matched(a, b);
      SumPermutation(a[1..], Without(b, i));
      SumConcat([a[0]], a[1..]);
      SumConcat(b[..i], b[i + 1..]);
      SumConcat(b[..i], [b[i]] + b[i + 1..]);
      SumConcat([b[i]], b[i + 1..]);
      assert a == [a[0]] + a[1..] && b == b[..i] + ([b[i]] + b[i + 1..]);
    }
  }

  /** Any reordering of words has the same checksum, so none is detected. */
  lemma ReorderingUndetected(a: seq<U16>, b: seq<U16>)
    requires multiset(a) == multiset(b)
    ensures InternetChecksum(a) == InternetChecksum(b)
  {
    SumPermutation(a, b);
    OnesSumIsResidue(a);
    OnesSumIsResidue(b);
  }
}

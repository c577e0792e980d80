/**
 * Bytes, 16- and 32-bit words, and the two byte orders the stack uses:
 * network order in packet headers, host (little-endian) order in shared memory.
 */
module Bytes {
  const MOD16: int := 0x1_0000
  const MOD32: int := 0x1_0000_0000
  const MOD64: int := 0x1_0000_0000_0000_0000

  type Byte = n: int | 0 <= n < 256
  type U16 = n: int | 0 <= n < MOD16
  type U32 = n: int | 0 <= n < MOD32
  type U64 = n: int | 0 <= n < MOD64

  datatype Option<+T> = None | Some(value: T)

  function Min(a: int, b: int): int {
    if a <= b then a else b
  }

  /** Two bytes, high one first, as one number. */
  function Word(hi: Byte, lo: Byte): U16 {
    var h: int, l: int := hi, lo;
    h * 256 + l
  }

  /** put_uint16: network byte order. */
  function Be16(v: U16): (b: seq<Byte>)
    ensures |b| == 2 && FromBe16(b) == v
  {
    [v / 256, v % 256]
  }

  function FromBe16(b: seq<Byte>): (v: U16)
    requires |b| == 2
  {
    Word(b[0], b[1])
  }

  /** put_uint32: network byte order. */
  function Be32(v: U32): (b: seq<Byte>)
    ensures |b| == 4 && FromBe32(b) == v
  {
    var b := Be16(v / MOD16) + Be16(v % MOD16);
    assert b[..2] == Be16(v / MOD16) && b[2..] == Be16(v % MOD16);
    b
  }

  function FromBe32(b: seq<Byte>): (v: U32)
    requires |b| == 4
  {
    var hi: int, lo: int := FromBe16(b[..2]), FromBe16(b[2..]);
    hi * MOD16 + lo
  }

  /** The n low bytes of v as the host stores them: least significant first. */
  function Le(v: nat, n: nat): (b: seq<Byte>)
    ensures |b| == n
  {
    if n == 0 then [] else [v % 256] + Le(v / 256, n - 1)
  }

  function FromLe(b: seq<Byte>): nat {
    if b == [] then 0 else b[0] + 256 * FromLe(b[1..])
  }

  function Pow256(n: nat): nat {
    if n == 0 then 1 else 256 * Pow256(n - 1)
  }

  lemma {:induction false} LeRoundTrip(v: nat, n: nat)
    requires v < Pow256(n)
    ensures FromLe(Le(v, n)) == v
  {
    if n != 0 {
      LeRoundTrip(v / 256, n - 1);
      assert Le(v, n)[1..] == Le(v / 256, n - 1);
    }
  }

  lemma Pow256Values()
    ensures Pow256(2) == MOD16 && Pow256(4) == MOD32 && Pow256(8) == MOD64
  {
  }
}

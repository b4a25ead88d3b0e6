/** Bytes and the little-endian words that the packed C structures are made of. */
module Bytes {

  type byte = x: int | 0 <= x < 0x100
  type u16 = x: int | 0 <= x < 0x1_0000
  type u32 = x: int | 0 <= x < 0x1_0000_0000

  function Le16(x: u16): (b: seq<byte>)
    ensures |b| == 2 && FromLe16(b) == x
  {
    [x % 0x100, x / 0x100]
  }

  function FromLe16(b: seq<byte>): u16
    requires |b| == 2
  {
    b[0] as int + 0x100 * b[1] as int
  }

  function Le32(x: u32): (b: seq<byte>)
    ensures |b| == 4 && FromLe32(b) == x
  {
    var b := Le16(x % 0x1_0000) + Le16(x / 0x1_0000);
    assert b[..2] == Le16(x % 0x1_0000) && b[2..] == Le16(x / 0x1_0000);
    b
  }

  function FromLe32(b: seq<byte>): u32
    requires |b| == 4
  {
    FromLe16(b[..2]) as int + 0x1_0000 * FromLe16(b[2..]) as int
  }

  /** The number that four digits of a byte each stand for, the lowest one first. */
  function Number(b0: int, b1: int, b2: int, b3: int): int {
    b0 + 0x100 * b1 + 0x1_0000 * b2 + 0x100_0000 * b3
  }

  lemma Le16OfBytes(b: seq<byte>)
    requires |b| == 2
    ensures Le16(FromLe16(b)) == b
  {
  }

  lemma Le32OfBytes(b: seq<byte>)
    requires |b| == 4
    ensures Le32(FromLe32(b)) == b
  {
    var low, high := FromLe16(b[..2]), FromLe16(b[2..]);
    assert FromLe32(b) % 0x1_0000 == low && FromLe32(b) / 0x1_0000 == high;
    Le16OfBytes(b[..2]);
    Le16OfBytes(b[2..]);
  }

  function Repeat<T>(n: nat, x: T): (s: seq<T>)
    ensures |s| == n && forall i | 0 <= i < n :: s[i] == x
  {
    seq(n, _ => x)
  }
}

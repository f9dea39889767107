/** Unsigned machine integers and their little-endian bytes on the 32-bit target. */
module Bytes {

  type byte = x: int | 0 <= x < 0x100
  type uint16 = x: int | 0 <= x < 0x1_0000
  type uint32 = x: int | 0 <= x < 0x1_0000_0000

  /** Unsigned 32-bit addition and subtraction wrap around. */
  function Add32(a: uint32, b: uint32): uint32 {
    if a + b < 0x1_0000_0000 then a + b else a + b - 0x1_0000_0000
  }

  function Sub32(a: uint32, b: uint32): uint32 {
    if b <= a then a - b else a - b + 0x1_0000_0000
  }

  /** The four bytes of `n`, least significant first. */
  function ToBytes(n: uint32): (b: seq<byte>)
    ensures |b| == 4
  {
    [n % 256, n / 256 % 256, n / 256 / 256 % 256, n / 256 / 256 / 256]
  }

  function FromBytes(b: seq<byte>): uint32
    requires |b| == 4
  {
    b[0] as int + 256 * (b[1] as int + 256 * (b[2] as int + 256 * b[3] as int))
  }

  lemma ToFromBytes(n: uint32)
    ensures FromBytes(ToBytes(n)) == n
  {
    assert n == n % 256 + 256 * (n / 256);
    assert n / 256 == n / 256 % 256 + 256 * (n / 256 / 256);
  }

  /** The four bytes of b from position `at` on stand for n, least significant first. */
  predicate Word(b: seq<byte>, at: nat, n: int) {
    at + 4 <= |b| && b[at] as int + 256 * b[at + 1] as int + 65536 * b[at + 2] as int + 16777216 * b[at + 3] as int == n
  }

  lemma StoredWord(b: seq<byte>, at: nat, n: uint32)
    requires at + 4 <= |b| && b[at..at + 4] == ToBytes(n)
    ensures Word(b, at, n)
  {
    ToFromBytes(n);
    var w := b[at..at + 4];
    assert b[at] == w[0] && b[at + 1] == w[1] && b[at + 2] == w[2] && b[at + 3] == w[3];
  }

  lemma LoadedWord(b: seq<byte>, at: nat)
    requires at + 4 <= |b|
    ensures Word(b, at, FromBytes(b[at..at + 4]))
  {
    var w := b[at..at + 4];
    assert b[at] == w[0] && b[at + 1] == w[1] && b[at + 2] == w[2] && b[at + 3] == w[3];
  }
}

/** Bytes (`UInt8`) and the fixed-width integer layouts the transports use. */
module Bytes {

  newtype byte = x: int | 0 <= x < 256

  const Two16: int := 0x1_0000
  const Two32: int := 0x1_0000_0000

  function Pow2(k: nat): (r: nat)
    ensures r >= 1
  {
    if k == 0 then 1 else 2 * Pow2(k - 1)
  }

  /** Bitwise exclusive or of the low `k` bits of `a` and `b`. */
  function XorBits(a: nat, b: nat, k: nat): (r: nat)
    ensures r < Pow2(k)
  {
    if k == 0 then 0 else 2 * XorBits(a / 2, b / 2, k - 1) + (if a % 2 == b % 2 then 0 else 1)
  }

  /** XOR-ing twice with the same value restores every value of `k` bits. */
  lemma {:induction false} XorBitsTwice(a: nat, b: nat, k: nat)
    requires a < Pow2(k)
    ensures XorBits(XorBits(a, b, k), b, k) == a
  {
    if k > 0 {
      var c := XorBits(a, b, k);
      assert c / 2 == XorBits(a / 2, b / 2, k - 1);
      XorBitsTwice(a / 2, b / 2, k - 1);
    }
  }

  /** `a ^ b` on `UInt8`. */
  function Xor(a: byte, b: byte): byte {
    XorBits(a as nat, b as nat, 8) as byte
  }

  /** Unmasking a masked byte with the same key gives it back. */
  lemma XorTwice(a: byte, k: byte)
    ensures Xor(Xor(a, k), k) == a
  {
    XorBitsTwice(a as nat, k as nat, 8);
  }

  /** The 4-byte big-endian form of a `UInt32`. */
  function BE32(n: int): (r: seq<byte>)
    requires 0 <= n < Two32
    ensures |r| == 4
  {
    var m1 := n / 256;
    var m2 := m1 / 256;
    [(m2 / 256) as byte, (m2 % 256) as byte, (m1 % 256) as byte, (n % 256) as byte]
  }

  /** Reading four bytes as a big-endian `UInt32`. */
  function ReadBE32(b: seq<byte>): (r: int)
    requires |b| >= 4
    ensures 0 <= r < Two32
  {
    (((b[0] as int) * 256 + b[1] as int) * 256 + b[2] as int) * 256 + b[3] as int
  }

  lemma ReadBE32Inverse(n: int)
    requires 0 <= n < Two32
    ensures ReadBE32(BE32(n)) == n
  {
  }

  /** Reading two bytes as a big-endian `UInt16`. */
  function ReadBE16(b0: byte, b1: byte): (r: int)
    ensures 0 <= r < Two16
  {
    (b0 as int) * 256 + b1 as int
  }

  /** The 4-byte little-endian form of a `UInt32`. */
  function LE32(n: int): (r: seq<byte>)
    requires 0 <= n < Two32
    ensures |r| == 4
  {
    var m1 := n / 256;
    var m2 := m1 / 256;
    [(n % 256) as byte, (m1 % 256) as byte, (m2 % 256) as byte, (m2 / 256) as byte]
  }

  function ReadLE32(b: seq<byte>): (r: int)
    requires |b| >= 4
    ensures 0 <= r < Two32
  {
    (((b[3] as int) * 256 + b[2] as int) * 256 + b[1] as int) * 256 + b[0] as int
  }

  lemma ReadLE32Inverse(n: int)
    requires 0 <= n < Two32
    ensures ReadLE32(LE32(n)) == n
  {
  }
}

/** Bytes and 16-bit words as the C sources use them.  Shifts and masks of unsigned values are
    written as the divisions and remainders they compute. */
module Bytes {

  type Byte = x: int | 0 <= x < 256

  function Least(a: nat, b: nat): nat { if a <= b then a else b }

  /** The upper byte of a value stored in a `uint16_t`. */
  function Hi(n: nat): Byte { n / 256 % 256 }

  /** The lower byte of a value. */
  function Lo(n: nat): Byte { n % 256 }

  /** The big-endian word made of two bytes. */
  function Word(hi: Byte, lo: Byte): nat { 256 * hi + lo }

  lemma WordOfHalves(n: nat)
    ensures Word(Hi(n), Lo(n)) == n % 65536
  {
    var q := n / 256;
    assert n == 65536 * (q / 256) + (256 * (q % 256) + n % 256);
  }

  /** A zero-filled buffer: the byte at index `i`, zero past the data that was copied in. */
  function At(s: seq<Byte>, i: nat): Byte { if i < |s| then s[i] else 0 }

  function Zeros(n: nat): (z: seq<Byte>)
    ensures |z| == n && forall i :: 0 <= i < n ==> z[i] == 0
  {
    seq(n, i => 0)
  }
}

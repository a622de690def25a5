/** The machine's number types: bytes and 32-bit words in two's complement. */
module Machine {

  type byte = b: int | 0 <= b < 256

  const TWO_32 := 0x1_0000_0000

  type uint32 = u: int | 0 <= u < TWO_32

  type int32 = i: int | -0x8000_0000 <= i < 0x8000_0000

  /** A value kept modulo 2^32, read as unsigned. */
  function Unsigned(x: int): uint32 {
    x % TWO_32
  }

  /** A value kept modulo 2^32, read as signed. */
  function Signed(x: int): int32 {
    var u := x % TWO_32;
    if u < 0x8000_0000 then u else u - TWO_32
  }

  /** Both readings of a word differ from the number only by a multiple of 2^32. */
  lemma Words(x: int)
    ensures (x - Unsigned(x)) % 0x1_0000_0000 == 0 && (x - Signed(x)) % 0x1_0000_0000 == 0
    ensures 0 <= Unsigned(x) < 0x1_0000_0000 && -0x8000_0000 <= Signed(x) < 0x8000_0000
  {
    var q, r := x / TWO_32, x % TWO_32;
    assert x - r == q * TWO_32 && x - (r - TWO_32) == (q + 1) * TWO_32;
  }
}

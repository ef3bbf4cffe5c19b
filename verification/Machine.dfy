/** Bytes and 32-bit words. */
module Machine {

  newtype Byte = x: int | 0 <= x < 256

  /** tolower in the C locale. */
  function Lower(c: Byte): Byte {
    if 65 <= c <= 90 then c + 32 else c
  }

  const TWO_TO_32: nat := 0x1_0000_0000

  /** The values of a signed 32-bit variable. */
  predicate IsWord(n: int) {
    -0x8000_0000 <= n < 0x8000_0000
  }

  /** The value of x in a signed and in an unsigned 32-bit variable. */
  function Signed(x: int): (n: int)
    ensures IsWord(n)
  {
    (x + 0x8000_0000) % TWO_TO_32 - 0x8000_0000
  }

  function Unsigned(x: int): (n: nat)
    ensures n < TWO_TO_32
  {
    x % TWO_TO_32
  }

  lemma UnsignedSmall(x: nat)
    requires x < TWO_TO_32
    ensures Unsigned(x) == x
  {
  }

  lemma SignedWord(x: int)
    ensures Signed(x) == x <==> IsWord(x)
  {
  }
}

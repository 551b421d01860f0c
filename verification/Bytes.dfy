/** Machine bytes and 32-bit words, as bounded integers. */
module Bytes {
  type byte = b: int | 0 <= b < 256

  const WORD_LIMIT := 0x1_0000_0000
  const ALL_ONES: word := 0xffff_ffff

  type word = w: int | 0 <= w < 0x1_0000_0000

  function Wrap(x: int): word {
    x % WORD_LIMIT
  }

  /** The value of a byte as gcc's (signed) char. */
  function Signed8(b: byte): int {
    if b < 128 then b else b - 256
  }

  predicate Negative(w: word) {
    w >= 0x8000_0000
  }

  /** The value of a 32-bit pattern as a C int. */
  function Int32(w: word): int {
    if Negative(w) then w - WORD_LIMIT else w
  }

  /** A length returned as a C int is itself exactly below 2^31. */
  lemma Int32IsIdentityIff(w: word)
    ensures Int32(w) == w <==> w < 0x8000_0000
  {
  }

  /** The patterns from 2^31 on are the negative numbers. */
  lemma Int32OfNegative(k: nat)
    requires 1 <= k <= 0x8000_0000
    ensures Int32(WORD_LIMIT - k) == 0 - k && Negative(WORD_LIMIT - k)
  {
  }

  /** A byte from 128 on is a negative char. */
  lemma CharOfByte(b: byte)
    ensures Signed8(b) == b || Signed8(b) == b - 256
    ensures -128 <= Signed8(b) <= 127
  {
  }

  /** notl: every bit of the word flipped. */
  function Not(w: word): word {
    ALL_ONES - w
  }

  /** How many times `decl; js` lets a loop with this count go round. */
  function Rounds(count: word): nat {
    if count <= 0x8000_0000 then count else 0
  }

  /** As C ints: positive counts, and besides them only the least, which wraps to the greatest. */
  lemma RoundsByNumber(n: nat)
    ensures n < 0x8000_0000 ==> Rounds(n) == n
    ensures Rounds(0x8000_0000) == 0x8000_0000
    ensures 1 <= n < 0x8000_0000 ==> Rounds(0x1_0000_0000 - n) == 0
  {
  }

  /** A bit is set in exactly one of a word and its complement, so that they add up to all ones. */
  lemma NotAddsUp(w: word)
    ensures w + Not(w) == 0xffff_ffff
  {
  }
}

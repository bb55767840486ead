/** Bytes and 32-bit words, and exclusive or on words, by name and by its laws. */
module Words {

  type byte = x: int | 0 <= x < 0x100

  /** The number of values of a 32-bit word. */
  const UNINT4_RANGE: nat := 0x1_0000_0000

  function Half(x: bv32): bv32 {
    x >> 1
  }

  /** The bits of a word from the `n`-th on. */
  function ShiftDown(w: bv32, n: nat): bv32
    decreases n
  {
    if n == 0 then w else ShiftDown(Half(w), n - 1)
  }

  function Down8(w: bv32): bv32 {
    w >> 8
  }

  function Xor(a: bv32, b: bv32): bv32 {
    a ^ b
  }

  lemma XorAssoc(a: bv32, b: bv32, c: bv32)
    ensures Xor(Xor(a, b), c) == Xor(a, Xor(b, c))
  {
    AssocBits(a, b, c);
  }

  lemma AssocBits(a: bv32, b: bv32, c: bv32)
    ensures (a ^ b) ^ c == a ^ (b ^ c)
  {
  }

  lemma XorCommutes(a: bv32, b: bv32)
    ensures Xor(a, b) == Xor(b, a)
  {
  }

  lemma XorZero(c: bv32)
    ensures Xor(c, 0) == c
  {
  }

  lemma XorSelf(c: bv32)
    ensures Xor(c, c) == 0
  {
  }

  /** The middle two of four words may be exchanged. */
  lemma XorSwap(a: bv32, b: bv32, c: bv32, d: bv32)
    ensures Xor(Xor(a, b), Xor(c, d)) == Xor(Xor(a, c), Xor(b, d))
  {
    XorAssoc(a, b, Xor(c, d));
    XorAssoc(b, c, d);
    XorCommutes(b, c);
    XorAssoc(c, b, d);
    XorAssoc(a, c, Xor(b, d));
  }

  /** A word in the middle cancels. */
  lemma XorMiddle(a: bv32, b: bv32, c: bv32)
    ensures Xor(Xor(a, b), Xor(b, c)) == Xor(a, c)
  {
    XorAssoc(a, b, Xor(b, c));
    XorAssoc(b, b, c);
    XorSelf(b);
    XorCommutes(0, c);
    XorZero(c);
  }
}

/**
 32-bit words as their 32 bits, least significant first, with the bitwise operators of C.
 Kept as bits because every property proved over these words is a property of single bits.
 */
module Words {

  const WIDTH := 32

  type Word = w: seq<bool> | |w| == WIDTH witness seq(WIDTH, _ => false)

  const ZERO: Word := seq(WIDTH, _ => false)

  const ONES: Word := seq(WIDTH, _ => true)

  function Or(a: Word, b: Word): Word {
    seq(WIDTH, i requires 0 <= i < WIDTH => a[i] || b[i])
  }

  function And(a: Word, b: Word): Word {
    seq(WIDTH, i requires 0 <= i < WIDTH => a[i] && b[i])
  }

  function Xor(a: Word, b: Word): Word {
    seq(WIDTH, i requires 0 <= i < WIDTH => a[i] != b[i])
  }

  function Not(a: Word): Word {
    seq(WIDTH, i requires 0 <= i < WIDTH => !a[i])
  }

  /** What a word is as a condition. */
  predicate IsZero(w: Word) {
    forall i | 0 <= i < WIDTH :: !w[i]
  }

  /** The word `1 << k`. */
  function Mask(k: nat): Word
    requires k < WIDTH
  {
    seq(WIDTH, i => i == k)
  }

  /** A word is non-zero exactly when one of its bits is set. */
  lemma NonZeroBit(w: Word)
    ensures w != ZERO <==> exists i :: 0 <= i < WIDTH && w[i]
  {
    if forall i :: 0 <= i < WIDTH ==> !w[i] {
      assert w == ZERO;
    }
  }

  lemma TestMask(w: Word, k: nat)
    requires k < WIDTH
    ensures And(w, Mask(k)) != ZERO <==> w[k]
  {
    NonZeroBit(And(w, Mask(k)));
    if w[k] {
      assert And(w, Mask(k))[k];
    }
  }
}

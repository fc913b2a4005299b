/**
 Bit sets packed into 32-bit words (tools/daemon/bitmap.h).

 The functions on `seq<Word>` say what the words mean, bit by bit. The class works in place on
 the word array, as the C code does, and each of its methods is tied to one of the functions.
 */
module Bitmap {
  import opened Words

  /** Number of words needed to hold `bits` bits. */
  function ArraySize(bits: nat): (n: nat)
    ensures WIDTH * n >= bits
    ensures n > 0 ==> WIDTH * (n - 1) < bits
  {
    (bits + WIDTH - 1) / WIDTH
  }

  /** The value of bit `b` of the whole map. */
  predicate Bit(words: seq<Word>, b: nat)
    requires b < WIDTH * |words|
  {
    words[b / WIDTH][b % WIDTH]
  }

  function SetBit(words: seq<Word>, b: nat): (r: seq<Word>)
    requires b < WIDTH * |words|
    ensures |r| == |words|
    ensures forall c: nat | c < WIDTH * |words| :: Bit(r, c) <==> c == b || Bit(words, c)
  {
    SplitIndex(b);
    words[b / WIDTH := Or(words[b / WIDTH], Mask(b % WIDTH))]
  }

  function ClearBit(words: seq<Word>, b: nat): (r: seq<Word>)
    requires b < WIDTH * |words|
    ensures |r| == |words|
    ensures forall c: nat | c < WIDTH * |words| :: Bit(r, c) <==> c != b && Bit(words, c)
  {
    SplitIndex(b);
    words[b / WIDTH := And(words[b / WIDTH], Not(Mask(b % WIDTH)))]
  }

  lemma SplitIndex(b: nat)
    ensures forall c: nat :: b == c <==> b / WIDTH == c / WIDTH && b % WIDTH == c % WIDTH
  {
  }

  /** The first clear bit at or after `from`, looking at one bit at a time; -1 when there is none. */
  function FirstZeroFrom(words: seq<Word>, from: nat): (r: int)
    ensures r == -1 || from <= r < WIDTH * |words|
    ensures r != -1 ==> !Bit(words, r)
    ensures forall b: nat | from <= b < (if r == -1 then WIDTH * |words| else r) :: Bit(words, b)
    decreases WIDTH * |words| - from
  {
    if from >= WIDTH * |words| then -1
    else if !Bit(words, from) then from
    else FirstZeroFrom(words, from + 1)
  }

  /** The lowest clear bit, or -1. */
  function FirstZero(words: seq<Word>): (r: int)
    ensures r == -1 <==> forall b: nat | b < WIDTH * |words| :: Bit(words, b)
    ensures r != -1 ==> 0 <= r < WIDTH * |words| && !Bit(words, r)
    ensures r != -1 ==> forall b: nat | b < r :: Bit(words, b)
  {
    FirstZeroFrom(words, 0)
  }

  /** `ffs`: one plus the index of the lowest set bit at or after `i`, or 0. */
  function FfsFrom(w: Word, i: nat): (r: nat)
    requires i <= WIDTH
    ensures r <= WIDTH
    ensures r == 0 ==> forall j: nat | i <= j < WIDTH :: !w[j]
    ensures r > 0 ==> i < r && w[r - 1] && forall j: nat | i <= j < r - 1 :: !w[j]
    decreases WIDTH - i
  {
    if i == WIDTH then 0 else if w[i] then i + 1 else FfsFrom(w, i + 1)
  }

  class Map {
    var words: array<Word>
    const size: nat

    ghost predicate Valid()
      reads this
    {
      words.Length == ArraySize(size)
    }

    constructor (size: nat)
      ensures Valid() && fresh(words) && this.size == size
      ensures forall b: nat | b < WIDTH * words.Length :: !Bit(words[..], b)
      ensures forall i | 0 <= i < words.Length :: words[i] == ZERO
    {
      this.size := size;
      words := new Word[ArraySize(size)](_ => ZERO);
    }

    method Set(b: nat)
      requires Valid() && b < WIDTH * words.Length
      modifies words
      ensures Valid() && words[..] == SetBit(old(words[..]), b)
    {
      words[b / WIDTH] := Or(words[b / WIDTH], Mask(b % WIDTH));
    }

    method Clear(b: nat)
      requires Valid() && b < WIDTH * words.Length
      modifies words
      ensures Valid() && words[..] == ClearBit(old(words[..]), b)
    {
      words[b / WIDTH] := And(words[b / WIDTH], Not(Mask(b % WIDTH)));
    }

    method Test(b: nat) returns (r: bool)
      requires Valid() && b < WIDTH * words.Length
      ensures r == Bit(words[..], b)
    {
      TestMask(words[b / WIDTH], b % WIDTH);
      r := And(words[b / WIDTH], Mask(b % WIDTH)) != ZERO;
    }

    /** The word-at-a-time search finds the same bit as the bit-at-a-time one. The result may be
        at or beyond `size`, in the unused tail of the last word. */
    method FindFirstZero() returns (r: int)
      requires Valid()
      ensures r == FirstZero(words[..])
    {
      var i := 0;
      while i < words.Length
        invariant 0 <= i <= words.Length
        invariant forall b: nat | b < WIDTH * i :: Bit(words[..], b)
      {
        forall b: nat | i * WIDTH <= b < (i + 1) * WIDTH
          ensures b / WIDTH == i && b % WIDTH == b - i * WIDTH
        {
        }
        if words[i] != ONES {
          var clear := Not(words[i]);
          ghost var j :| 0 <= j < WIDTH && !words[i][j];
          assert clear[j];
          r := i * WIDTH + FfsFrom(clear, 0) - 1;
          forall b: nat | i * WIDTH <= b < r ensures Bit(words[..], b) {
            assert !clear[b - i * WIDTH];
          }
          assert !Bit(words[..], r);
          assert FirstZero(words[..]) <= r;
          return;
        }
        i := i + 1;
      }
      r := -1;
    }
  }
}

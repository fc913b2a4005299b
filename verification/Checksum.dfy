/**
 The Internet checksum of calc_csum in tools/daemon/notify.c, against section 1 of RFC 1071: the
 one's complement of the one's complement sum of the data taken as 16-bit words. The code adds the
 words up in a wide integer and folds the carries back in twice; two folds are enough only up to
 a certain length, determined here. Words are those of a little-endian host.
 */
module Checksum {

  type Byte = b: nat | b < 256
  type Half = n: nat | n < 65536

  const INT_MAX: nat := 0x7fff_ffff

  /** Longest data, in bytes, for which two folds are always enough. */
  const LIMIT: nat := 131076

  // ---------- the definition ----------

  /** The words of the data; an odd byte at the end is padded with a zero. */
  function WordsOf(data: seq<Byte>): seq<Half> {
    if data == [] then []
    else if |data| == 1 then [data[0]]
    else
      var lo: nat, hi: nat := data[0], data[1];
      [lo + 256 * hi] + WordsOf(data[2..])
  }

  /** One's complement addition: the carry goes back in at the low end. */
  function Plus(a: Half, b: Half): Half {
    var s: nat := a + b;
    if s > 65535 then s - 65535 else s
  }

  function OnesSum(ws: seq<Half>): Half {
    if ws == [] then 0 else Plus(ws[0], OnesSum(ws[1..]))
  }

  function Complement(n: Half): Half {
    65535 - n
  }

  // ---------- the computation ----------

  function Sum(ws: seq<Half>): nat {
    if ws == [] then 0 else ws[0] + Sum(ws[1..])
  }

  function Fold(sum: nat): nat {
    sum / 65536 + sum % 65536
  }

  /** Two folds, the second without bringing its own carry in, cut to 16 bits. */
  function Folded(sum: nat): Half {
    var once := Fold(sum);
    (once + once / 65536) % 65536
  }

  /** No carry is left after the second fold. */
  predicate TwoFoldsDo(sum: nat) {
    Fold(Fold(sum)) <= 65535
  }

  function Total(data: seq<Byte>): nat {
    Sum(WordsOf(data))
  }

  lemma TotalStep(data: seq<Byte>)
    requires |data| > 1
    ensures var lo: nat, hi: nat := data[0], data[1]; Total(data) == lo + 256 * hi + Total(data[2..])
  {
    var lo: nat, hi: nat := data[0], data[1];
    assert ([lo + 256 * hi] + WordsOf(data[2..]))[1..] == WordsOf(data[2..]);
  }

  lemma TotalShort(data: seq<Byte>)
    requires |data| <= 1
    ensures Total(data) == if data == [] then 0 else data[0]
  {
    if data != [] {
      var ws: seq<Half> := [data[0]];
      assert ws[1..] == [] && Sum(ws) == ws[0];
    }
  }

  function Checksum(data: seq<Byte>): Half {
    Complement(Folded(Total(data)))
  }

  /** calc_csum */
  method CalcCsum(data: seq<Byte>) returns (answer: Half)
    requires |data| <= INT_MAX
    ensures answer == Checksum(data)
  {
    var sum, i, nbytes: int := 0, 0, |data|;
    assert data[0..] == data;
    ghost var total := Total(data);
    while nbytes > 1
      invariant 0 <= i <= |data| && nbytes == |data| - i
      invariant sum >= 0 && sum + Total(data[i..]) == total
    {
      var lo: nat, hi: nat := data[i], data[i + 1];
      TotalStep(data[i..]);
      hide Total;
      assert data[i..][2..] == data[i + 2..];
      sum := sum + (lo + 256 * hi);
      i, nbytes := i + 2, nbytes - 2;
    }
    TotalShort(data[i..]);
    hide Total;
    if nbytes == 1 {
      sum := sum + data[i];
    }
    assert sum == total;
    sum := sum / 65536 + sum % 65536;
    sum := sum + sum / 65536;
    answer := 65535 - sum % 65536;
  }

  // ---------- when it is the definition ----------

  /** The plain sum and the one's complement sum differ by a multiple of 65535, and are zero together. */
  lemma {:induction false} Congruent(ws: seq<Half>) returns (k: nat)
    ensures Sum(ws) == OnesSum(ws) + 65535 * k && (Sum(ws) == 0 <==> OnesSum(ws) == 0)
  {
    k := 0;
    if ws != [] {
      k := Congruent(ws[1..]);
      if ws[0] + OnesSum(ws[1..]) > 65535 {
        k := k + 1;
      }
    }
  }

  lemma Split(n: nat) returns (hi: nat, lo: nat)
    ensures n == 65536 * hi + lo && lo < 65536 && hi == n / 65536 && lo == n % 65536
  {
    hi, lo := n / 65536, n % 65536;
  }

  lemma Cut(m: nat, u: nat)
    requires u < 65536
    ensures (65536 * m + u) % 65536 == u
  {
  }

  /** Folding twice gives the one's complement sum exactly when no carry is left. */
  lemma FoldedIs(sum: nat, r: Half, k: nat)
    requires sum == r + 65535 * k && (sum == 0 <==> r == 0) && sum <= 65536 * INT_MAX
    ensures Folded(sum) == r <==> TwoFoldsDo(sum)
  {
    var hi, lo := Split(sum);
    var once := hi + lo;
    var q, t := Split(once);
    assert Fold(sum) == once && Fold(once) == q + t;
    if q + t <= 65535 {
      Cut(q, q + t);
      assert Folded(sum) == q + t;
      assert q + t == r + 65535 * (k - hi - q);
    } else {
      assert q <= 65535;
      Cut(q + 1, q + t - 65536);
      assert Folded(sum) == q + t - 65536;
      assert q + t == r + 65535 * (k - hi - q);
    }
  }

  lemma {:induction false} SumBound(ws: seq<Half>)
    ensures Sum(ws) <= 65535 * |ws|
  {
    if ws != [] {
      SumBound(ws[1..]);
    }
  }

  lemma {:induction false} WordCount(data: seq<Byte>)
    ensures |data| <= 2 * |WordsOf(data)| <= |data| + 1
  {
    if |data| > 1 {
      WordCount(data[2..]);
    }
  }

  /** calc_csum is the checksum of RFC 1071 exactly when its two folds leave no carry. */
  lemma ChecksumIs(data: seq<Byte>)
    requires |data| <= INT_MAX
    ensures Checksum(data) == Complement(OnesSum(WordsOf(data))) <==> TwoFoldsDo(Total(data))
  {
    var ws := WordsOf(data);
    SumBound(ws);
    WordCount(data);
    var k := Congruent(ws);
    FoldedIs(Sum(ws), OnesSum(ws), k);
  }

  // ---------- how long the data may be ----------

  lemma {:induction false} ZeroTotal(n: nat)
    ensures Total(seq(n, _ => 0)) == 0
  {
    var z: seq<Byte> := seq(n, _ => 0);
    if n > 1 {
      TotalStep(z);
      ZeroTotal(n - 2);
      assert z[2..] == seq(n - 2, _ => 0);
    } else {
      TotalShort(z);
    }
  }

  /** All-ones words, then the rest. */
  function Ones(m: nat, rest: seq<Byte>): (data: seq<Byte>)
    ensures |data| == 2 * m + |rest|
  {
    if m == 0 then rest else [255, 255] + Ones(m - 1, rest)
  }

  lemma {:induction false} OnesTotal(m: nat, rest: seq<Byte>)
    ensures Total(Ones(m, rest)) == 65535 * m + Total(rest)
  {
    if m > 0 {
      OnesTotal(m - 1, rest);
      var data := Ones(m, rest);
      TotalStep(data);
      assert data[2..] == Ones(m - 1, rest);
    }
  }

  /** The first length that fails: all ones, then a one. */
  lemma TooLong(n: nat) returns (data: seq<Byte>)
    requires n > LIMIT
    ensures |data| == n && !TwoFoldsDo(Total(data))
  {
    var rest: seq<Byte> := [1] + seq(n - LIMIT - 1, _ => 0);
    data := Ones(65538, rest);
    assert Total(rest) == 1 by {
      if |rest| > 1 {
        TotalStep(rest);
        assert rest[2..] == seq(n - LIMIT - 2, _ => 0);
        ZeroTotal(n - LIMIT - 2);
      } else {
        TotalShort(rest);
      }
    }
    OnesTotal(65538, rest);
    assert Total(data) == 65536 * 65536 + 65535;
  }

  lemma ShortEnough(data: seq<Byte>)
    requires |data| <= LIMIT
    ensures TwoFoldsDo(Total(data))
  {
    SumBound(WordsOf(data));
    WordCount(data);
    var sum := Total(data);
    assert sum <= 65535 * 65538;
    hide Total;
    var hi, lo := Split(sum);
    var q, t := Split(hi + lo);
  }

  /** calc_csum is the checksum of RFC 1071 for every data of a length exactly up to 131076 bytes. */
  lemma LengthLimit(n: nat)
    requires n <= INT_MAX
    ensures n <= LIMIT <==> forall data: seq<Byte> | |data| == n :: Checksum(data) == Complement(OnesSum(WordsOf(data)))
  {
    hide Checksum, OnesSum, WordsOf, TwoFoldsDo, Total;
    if n <= LIMIT {
      forall data: seq<Byte> | |data| == n ensures Checksum(data) == Complement(OnesSum(WordsOf(data))) {
        ShortEnough(data);
        ChecksumIs(data);
      }
    } else {
      var data := TooLong(n);
      ChecksumIs(data);
    }
  }

  // ---------- storing it ----------

  /** The data with a half word stored at an even offset. */
  function Store(data: seq<Byte>, at: nat, n: Half): (r: seq<Byte>)
    requires at + 2 <= |data|
    ensures |r| == |data|
  {
    data[at := n % 256][at + 1 := n / 256]
  }

  lemma {:induction false} StoreTotal(data: seq<Byte>, at: nat, n: Half)
    requires at + 2 <= |data| && at % 2 == 0 && data[at] == data[at + 1] == 0
    ensures Total(Store(data, at, n)) == Total(data) + n
  {
    var r := Store(data, at, n);
    TotalStep(data);
    TotalStep(r);
    if at == 0 {
      assert r[2..] == data[2..];
    } else {
      StoreTotal(data[2..], at - 2, n);
      assert r[2..] == Store(data[2..], at - 2, n);
    }
  }

  /** The checksum stored in its zeroed field makes the one's complement sum all ones, which is how
      a receiver checks it, and makes calc_csum itself give zero. */
  lemma StoredChecks(data: seq<Byte>, at: nat)
    requires |data| <= LIMIT && at + 2 <= |data| && at % 2 == 0 && data[at] == data[at + 1] == 0
    ensures var stored := Store(data, at, Checksum(data));
            OnesSum(WordsOf(stored)) == 65535 && Checksum(stored) == 0
  {
    var c := Checksum(data);
    var stored := Store(data, at, c);
    StoreTotal(data, at, c);
    ShortEnough(data);
    ChecksumIs(data);
    ShortEnough(stored);
    ChecksumIs(stored);
    var k := Congruent(WordsOf(data));
    var l := Congruent(WordsOf(stored));
    hide WordsOf, OnesSum, Sum, Checksum, Store;
    AllOnes(OnesSum(WordsOf(data)), c, k, OnesSum(WordsOf(stored)), l);
  }

  lemma AllOnes(r: Half, c: Half, k: nat, s: Half, l: nat)
    requires c == Complement(r) && s + 65535 * l == r + 65535 * k + c && (s == 0 <==> s + 65535 * l == 0)
    ensures s == 65535
  {
  }
}

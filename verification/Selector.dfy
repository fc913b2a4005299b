/**
 Packing match keys into a u32 selector (pack_key, pack_key8, pack_key16, pack_key32 and the selector
 of tc_add_filter_dev2tap in tools/daemon/tc.c), and what the packed selector matches. The classifier
 loads the 32-bit word at a key's offset and compares it with the key's value under its mask.

 Words are those of a little-endian host: the byte at the lowest address holds the low bits.
 */
module Selector {
  import opened Words

  datatype Key = Key(val: Word, mask: Word, off: int, offmask: int)

  datatype Outcome = Outcome(rc: int, keys: seq<Key>)

  /** The words of a packet as a key addresses them: by offset and offset mask. */
  type Words32 = (int, int) -> Word

  /** The classifier's test of one word. */
  predicate Matches(k: Key, w: Word) {
    IsZero(And(Xor(w, k.val), k.mask))
  }

  ghost predicate Accepts(keys: seq<Key>, words: Words32) {
    forall i | 0 <= i < |keys| :: Matches(keys[i], words(keys[i].off, keys[i].offmask))
  }

  /** What every selector built by packing keeps: one key per place, aligned, no value bit outside
      the mask. */
  ghost predicate Proper(keys: seq<Key>) {
    && (forall i, j | 0 <= i < j < |keys| :: keys[i].off != keys[j].off || keys[i].offmask != keys[j].offmask)
    && (forall i | 0 <= i < |keys| :: keys[i].off % 4 == 0 && Within(keys[i].val, keys[i].mask))
  }

  ghost predicate Within(val: Word, mask: Word) {
    forall i | 0 <= i < WIDTH :: val[i] ==> mask[i]
  }

  lemma MatchesBits(k: Key, w: Word)
    ensures Matches(k, w) <==> forall i | 0 <= i < WIDTH :: k.mask[i] ==> w[i] == k.val[i]
  {
    var x := And(Xor(w, k.val), k.mask);
    assert forall i | 0 <= i < WIDTH :: x[i] == (w[i] != k.val[i] && k.mask[i]);
  }

  // ---------- packing one key ----------

  function Find(keys: seq<Key>, off: int, offmask: int): (i: nat)
    ensures i <= |keys|
    ensures i < |keys| ==> keys[i].off == off && keys[i].offmask == offmask
    ensures forall j | 0 <= j < i :: keys[j].off != off || keys[j].offmask != offmask
  {
    FindFrom(keys, off, offmask, 0)
  }

  function FindFrom(keys: seq<Key>, off: int, offmask: int, from: nat): (i: nat)
    requires from <= |keys|
    ensures from <= i <= |keys|
    ensures i < |keys| ==> keys[i].off == off && keys[i].offmask == offmask
    ensures forall j | from <= j < i :: keys[j].off != off || keys[j].offmask != offmask
    decreases |keys| - from
  {
    if from == |keys| || (keys[from].off == off && keys[from].offmask == offmask) then from
    else FindFrom(keys, off, offmask, from + 1)
  }

  predicate Conflict(k: Key, val: Word, mask: Word) {
    !IsZero(And(Xor(val, k.val), And(mask, k.mask)))
  }

  function Merged(k: Key, val: Word, mask: Word): Key {
    Key(Or(k.val, val), Or(k.mask, mask), k.off, k.offmask)
  }

  /** The key that packing (key, mask) at an offset amounts to. */
  function KeyOf(key: Word, mask: Word, off: int, offmask: int): (k: Key)
    ensures Within(k.val, k.mask)
  {
    Key(And(key, mask), mask, off, offmask)
  }

  function Pack(keys: seq<Key>, k: Key): Outcome {
    var i := Find(keys, k.off, k.offmask);
    if i < |keys| then
      if Conflict(keys[i], k.val, k.mask) then Outcome(-1, keys)
      else Outcome(0, keys[i := Merged(keys[i], k.val, k.mask)])
    else if k.off % 4 != 0 then Outcome(-1, keys)
    else Outcome(0, keys + [k])
  }

  lemma ConflictBits(k: Key, val: Word, mask: Word)
    ensures Conflict(k, val, mask) <==> exists i :: 0 <= i < WIDTH && mask[i] && k.mask[i] && val[i] != k.val[i]
  {
    var x := And(Xor(val, k.val), And(mask, k.mask));
    assert forall i | 0 <= i < WIDTH :: x[i] == (val[i] != k.val[i] && (mask[i] && k.mask[i]));
  }

  /** Without a conflict the merged key tests exactly both keys; with one, no word passes both. */
  lemma MergedMeaning(k: Key, val: Word, mask: Word, w: Word)
    requires Within(k.val, k.mask) && Within(val, mask)
    ensures Conflict(k, val, mask) ==> !(Matches(k, w) && Matches(Key(val, mask, k.off, k.offmask), w))
    ensures !Conflict(k, val, mask) ==>
              (Matches(Merged(k, val, mask), w) <==> Matches(k, w) && Matches(Key(val, mask, k.off, k.offmask), w))
    ensures Within(Or(k.val, val), Or(k.mask, mask))
  {
    var new_, both := Key(val, mask, k.off, k.offmask), Merged(k, val, mask);
    MatchesBits(k, w);
    MatchesBits(new_, w);
    MatchesBits(both, w);
    ConflictBits(k, val, mask);
    assert forall i | 0 <= i < WIDTH :: both.mask[i] == (k.mask[i] || mask[i]) && both.val[i] == (k.val[i] || val[i]);
    hide Matches, Conflict, And, Xor, Or;
  }

  /** Packing keeps the selector proper. When it succeeds, the selector accepts exactly what it
      accepted before and the new key matches; when it fails, nothing changes, and if the offset was
      aligned nothing can satisfy both. */
  lemma PackMeaning(keys: seq<Key>, k: Key, words: Words32)
    requires Proper(keys) && Within(k.val, k.mask)
    ensures var p, w := Pack(keys, k), words(k.off, k.offmask);
            && Proper(p.keys) && (p.rc == 0 || p.rc == -1)
            && (p.rc == 0 ==> (Accepts(p.keys, words) <==> Accepts(keys, words) && Matches(k, w)))
            && (p.rc != 0 ==> p.keys == keys)
            && (p.rc != 0 && k.off % 4 == 0 ==> !(Accepts(keys, words) && Matches(k, w)))
            && (k.off % 4 != 0 ==> p.rc != 0)
  {
    var i := Find(keys, k.off, k.offmask);
    hide And, Or, Matches, Conflict, Within;
    if i < |keys| {
      MergedMeaning(keys[i], k.val, k.mask, words(k.off, k.offmask));
      ReplaceKey(keys, i, Merged(keys[i], k.val, k.mask), words);
    } else {
      AddKey(keys, k, words);
    }
  }

  lemma ReplaceKey(keys: seq<Key>, i: nat, k: Key, words: Words32)
    requires i < |keys| && k.off == keys[i].off && k.offmask == keys[i].offmask
    ensures var w := words(k.off, k.offmask);
            Accepts(keys[i := k], words) <==>
              && (forall j | 0 <= j < |keys| && j != i :: Matches(keys[j], words(keys[j].off, keys[j].offmask)))
              && Matches(k, w)
    ensures Proper(keys) && Within(k.val, k.mask) ==> Proper(keys[i := k])
  {
    hide Matches, Within;
    var keys' := keys[i := k];
    if Accepts(keys', words) {
      forall j | 0 <= j < |keys| && j != i ensures Matches(keys[j], words(keys[j].off, keys[j].offmask)) {
        assert keys'[j] == keys[j];
      }
      assert keys'[i] == k;
    }
  }

  lemma AddKey(keys: seq<Key>, k: Key, words: Words32)
    ensures Accepts(keys + [k], words) <==> Accepts(keys, words) && Matches(k, words(k.off, k.offmask))
    ensures Proper(keys) && k.off % 4 == 0 && Within(k.val, k.mask) && Find(keys, k.off, k.offmask) == |keys| ==>
              Proper(keys + [k])
  {
    hide Matches, Within;
    var keys' := keys + [k];
    if Accepts(keys', words) {
      forall j | 0 <= j < |keys| ensures Matches(keys[j], words(keys[j].off, keys[j].offmask)) {
        assert keys'[j] == keys[j];
      }
      assert keys'[|keys|] == k;
    }
  }

  /** Every proper selector accepts something: its own values. */
  lemma Satisfiable(keys: seq<Key>) returns (words: Words32)
    requires Proper(keys)
    ensures Accepts(keys, words)
  {
    words := (o: int, m: int) => var i := Find(keys, o, m); if i < |keys| then keys[i].val else ZERO;
    forall i | 0 <= i < |keys| ensures Matches(keys[i], words(keys[i].off, keys[i].offmask)) {
      assert Find(keys, keys[i].off, keys[i].offmask) == i;
      MatchesBits(keys[i], keys[i].val);
    }
  }

  /** Packing at an aligned offset fails exactly when nothing can satisfy the selector and the key. */
  lemma PackFails(keys: seq<Key>, k: Key)
    requires Proper(keys) && Within(k.val, k.mask)
    ensures Pack(keys, k).rc == 0 <==>
              k.off % 4 == 0 && exists words: Words32 :: Accepts(keys, words) && Matches(k, words(k.off, k.offmask))
  {
    var p := Pack(keys, k);
    hide Accepts, Matches, Pack;
    forall words: Words32
      ensures p.rc != 0 && k.off % 4 == 0 ==> !(Accepts(keys, words) && Matches(k, words(k.off, k.offmask)))
    {
      PackMeaning(keys, k, words);
    }
    PackMeaning(keys, k, (_, _) => ZERO);
    var words := Satisfiable(p.keys);
    PackMeaning(keys, k, words);
  }

  // ---------- keys of one, two and four bytes ----------

  type Octet = b: seq<bool> | |b| == 8 witness seq(8, _ => false)

  const CLEAR: Octet := [false, false, false, false, false, false, false, false]
  const FULL: Octet := [true, true, true, true, true, true, true, true]

  /** The word whose bytes are a, b, c, d from the lowest address on. */
  function Bytes(a: Octet, b: Octet, c: Octet, d: Octet): Word {
    a + b + c + d
  }

  /** Swaps the byte order; ntohl is the same function. */
  function Htonl(w: Word): Word {
    Bytes(w[24..], w[16..24], w[8..16], w[..8])
  }

  function ShiftLeft(w: Word, n: nat): Word
    requires n <= WIDTH
  {
    seq(n, _ => false) + w[..WIDTH - n]
  }

  lemma SwapBytes(a: Octet, b: Octet, c: Octet, d: Octet)
    ensures Htonl(Bytes(a, b, c, d)) == Bytes(d, c, b, a)
    ensures Htonl(Htonl(Bytes(a, b, c, d))) == Bytes(a, b, c, d)
  {
    var w := Bytes(a, b, c, d);
    assert w[24..] == d && w[16..24] == c && w[8..16] == b && w[..8] == a;
    var v := Bytes(d, c, b, a);
    assert v[24..] == a && v[16..24] == b && v[8..16] == c && v[..8] == d;
  }

  lemma ShiftBytes(a: Octet, b: Octet, c: Octet, d: Octet)
    ensures ShiftLeft(Bytes(a, b, c, d), 8) == Bytes(CLEAR, a, b, c)
    ensures ShiftLeft(Bytes(a, b, c, d), 16) == Bytes(CLEAR, CLEAR, a, b)
    ensures ShiftLeft(Bytes(a, b, c, d), 24) == Bytes(CLEAR, CLEAR, CLEAR, a)
  {
  }

  function Key8(key: Word, mask: Word, off: int, offmask: int): (k: Key)
    ensures Within(k.val, k.mask)
  {
    var n := 24 - 8 * (off % 4);
    KeyOf(Htonl(ShiftLeft(key, n)), Htonl(ShiftLeft(mask, n)), off - off % 4, offmask)
  }

  function Key16(key: Word, mask: Word, off: int, offmask: int): (k: Key)
    ensures Within(k.val, k.mask)
  {
    var n := if off % 4 == 0 then 16 else 0;
    KeyOf(Htonl(ShiftLeft(key, n)), Htonl(ShiftLeft(mask, n)), off - off % 4, offmask)
  }

  function Key32(key: Word, mask: Word, off: int, offmask: int): (k: Key)
    ensures Within(k.val, k.mask)
  {
    KeyOf(Htonl(key), Htonl(mask), off, offmask)
  }

  /** An octet agrees with a value wherever the mask is set. */
  predicate Agrees(w: Octet, v: Octet, m: Octet) {
    forall i | 0 <= i < 8 :: m[i] ==> w[i] == v[i]
  }

  lemma NothingToAgree()
    ensures forall w, v: Octet :: Agrees(w, v, CLEAR)
  {
  }

  lemma BytesAt(a: Octet, b: Octet, c: Octet, d: Octet, i: nat)
    requires i < 8
    ensures var w := Bytes(a, b, c, d); w[i] == a[i] && w[8 + i] == b[i] && w[16 + i] == c[i] && w[24 + i] == d[i]
  {
  }

  lemma ByteByByte(
    k: Key, v0: Octet, v1: Octet, v2: Octet, v3: Octet, m0: Octet, m1: Octet, m2: Octet, m3: Octet,
    w0: Octet, w1: Octet, w2: Octet, w3: Octet)
    requires k.val == And(Bytes(v0, v1, v2, v3), k.mask) && k.mask == Bytes(m0, m1, m2, m3)
    ensures Matches(k, Bytes(w0, w1, w2, w3)) <==>
              Agrees(w0, v0, m0) && Agrees(w1, v1, m1) && Agrees(w2, v2, m2) && Agrees(w3, v3, m3)
  {
    var v, m, w := Bytes(v0, v1, v2, v3), Bytes(m0, m1, m2, m3), Bytes(w0, w1, w2, w3);
    MatchesBits(k, w);
    assert forall i | 0 <= i < WIDTH :: m[i] ==> k.val[i] == v[i];
    hide Matches, And;
    if forall i | 0 <= i < WIDTH :: m[i] ==> w[i] == v[i] {
      forall i | 0 <= i < 8
        ensures (m0[i] ==> w0[i] == v0[i]) && (m1[i] ==> w1[i] == v1[i]) && (m2[i] ==> w2[i] == v2[i]) &&
                (m3[i] ==> w3[i] == v3[i])
      {
        BytesAt(v0, v1, v2, v3, i);
        BytesAt(m0, m1, m2, m3, i);
        BytesAt(w0, w1, w2, w3, i);
      }
    }
  }

  /** A one-byte key tests the byte at its offset. */
  lemma Key8Tests(
    k: Octet, k1: Octet, k2: Octet, k3: Octet, m: Octet, off: int, offmask: int,
    w0: Octet, w1: Octet, w2: Octet, w3: Octet)
    ensures Matches(Key8(Bytes(k, k1, k2, k3), Bytes(m, CLEAR, CLEAR, CLEAR), off, offmask), Bytes(w0, w1, w2, w3)) <==>
              Agrees(if off % 4 == 0 then w0 else if off % 4 == 1 then w1 else if off % 4 == 2 then w2 else w3, k, m)
  {
    var key, mask := Bytes(k, k1, k2, k3), Bytes(m, CLEAR, CLEAR, CLEAR);
    ShiftBytes(k, k1, k2, k3);
    ShiftBytes(m, CLEAR, CLEAR, CLEAR);
    assert ShiftLeft(key, 0) == key && ShiftLeft(mask, 0) == mask;
    NothingToAgree();
    var it, o := Key8(key, mask, off, offmask), off % 4;
    var v, n := Htonl(ShiftLeft(key, 24 - 8 * o)), Htonl(ShiftLeft(mask, 24 - 8 * o));
    assert it.val == And(v, n) && it.mask == n;
    hide Matches, And, ShiftLeft, Htonl, Bytes, Agrees, Key8;
    if o == 0 {
      SwapBytes(CLEAR, CLEAR, CLEAR, k);
      SwapBytes(CLEAR, CLEAR, CLEAR, m);
      ByteByByte(it, k, CLEAR, CLEAR, CLEAR, m, CLEAR, CLEAR, CLEAR, w0, w1, w2, w3);
    } else if o == 1 {
      SwapBytes(CLEAR, CLEAR, k, k1);
      SwapBytes(CLEAR, CLEAR, m, CLEAR);
      ByteByByte(it, k1, k, CLEAR, CLEAR, CLEAR, m, CLEAR, CLEAR, w0, w1, w2, w3);
    } else if o == 2 {
      SwapBytes(CLEAR, k, k1, k2);
      SwapBytes(CLEAR, m, CLEAR, CLEAR);
      ByteByByte(it, k2, k1, k, CLEAR, CLEAR, CLEAR, m, CLEAR, w0, w1, w2, w3);
    } else {
      SwapBytes(k, k1, k2, k3);
      SwapBytes(m, CLEAR, CLEAR, CLEAR);
      ByteByByte(it, k3, k2, k1, k, CLEAR, CLEAR, CLEAR, m, w0, w1, w2, w3);
    }
  }

  /** A two-byte key tests the first or the second half of its word: the half at its offset exactly
      when the offset is even. */
  lemma Key16Tests(
    hi: Octet, lo: Octet, k2: Octet, k3: Octet, mhi: Octet, mlo: Octet, off: int, offmask: int,
    w0: Octet, w1: Octet, w2: Octet, w3: Octet)
    ensures var key := Key16(Bytes(lo, hi, k2, k3), Bytes(mlo, mhi, CLEAR, CLEAR), off, offmask);
            Matches(key, Bytes(w0, w1, w2, w3)) <==>
              if off % 4 == 0 then Agrees(w0, hi, mhi) && Agrees(w1, lo, mlo)
              else Agrees(w2, hi, mhi) && Agrees(w3, lo, mlo)
  {
    var key, mask := Bytes(lo, hi, k2, k3), Bytes(mlo, mhi, CLEAR, CLEAR);
    var it := Key16(key, mask, off, offmask);
    ShiftBytes(lo, hi, k2, k3);
    ShiftBytes(mlo, mhi, CLEAR, CLEAR);
    assert ShiftLeft(key, 0) == key && ShiftLeft(mask, 0) == mask;
    NothingToAgree();
    hide Matches, And, ShiftLeft, Htonl, Bytes, Agrees;
    if off % 4 == 0 {
      SwapBytes(CLEAR, CLEAR, lo, hi);
      SwapBytes(CLEAR, CLEAR, mlo, mhi);
      ByteByByte(it, hi, lo, CLEAR, CLEAR, mhi, mlo, CLEAR, CLEAR, w0, w1, w2, w3);
    } else {
      SwapBytes(lo, hi, k2, k3);
      SwapBytes(mlo, mhi, CLEAR, CLEAR);
      ByteByByte(it, k3, k2, hi, lo, CLEAR, CLEAR, mhi, mlo, w0, w1, w2, w3);
    }
  }

  lemma HalfTested(off: int)
    ensures off % 2 == 0 <==> off - off % 4 + (if off % 4 == 0 then 0 else 2) == off
  {
    var q, r := off / 4, off % 4;
    if r == 0 { Parity(2 * q, 0); }
    if r == 1 { Parity(2 * q, 1); }
    if r == 2 { Parity(2 * q + 1, 0); }
    if r == 3 { Parity(2 * q + 1, 1); }
  }

  lemma Parity(h: int, b: int)
    requires 0 <= b < 2
    ensures (2 * h + b) % 2 == b
  {
  }

  /** A whole-word key tests the word at its offset, bytes in network order. */
  lemma Key32Tests(a: Octet, b: Octet, c: Octet, d: Octet, off: int, offmask: int, w: Word)
    ensures Matches(Key32(Htonl(Bytes(a, b, c, d)), WHOLE_MASK, off, offmask), w) <==> w == Bytes(a, b, c, d)
  {
    var ip := Bytes(a, b, c, d);
    var k := Key32(Htonl(ip), WHOLE_MASK, off, offmask);
    SwapBytes(a, b, c, d);
    SwapBytes(FULL, FULL, FULL, FULL);
    assert k.mask == WHOLE_MASK && k.val == And(ip, WHOLE_MASK);
    WholeMask();
    hide Htonl, Bytes, Key32;
    assert And(ip, WHOLE_MASK) == ip;
    MatchesBits(k, w);
    hide And, Matches;
    assert w == ip <==> forall i | 0 <= i < WIDTH :: w[i] == ip[i];
  }

  lemma WholeMask()
    ensures forall i | 0 <= i < WIDTH :: WHOLE_MASK[i]
  {
    forall i | 0 <= i < WIDTH ensures WHOLE_MASK[i] {
      BytesAt(FULL, FULL, FULL, FULL, i % 8);
      assert i == 8 * (i / 8) + i % 8 && (i / 8 == 0 || i / 8 == 1 || i / 8 == 2 || i / 8 == 3);
    }
  }

  // ---------- the selector ----------

  /** Two bytes in the order of their addresses. */
  datatype Port = Port(first: Octet, second: Octet)

  const NO_PORT := Port(CLEAR, CLEAR)

  /** The host's value of a port in network order. */
  function Ntohs(p: Port): Word {
    Bytes(p.second, p.first, CLEAR, CLEAR)
  }

  const WHOLE_MASK: Word := Bytes(FULL, FULL, FULL, FULL)
  const BYTE_MASK: Word := Bytes(FULL, CLEAR, CLEAR, CLEAR)
  const HALF_MASK: Word := Bytes(FULL, FULL, CLEAR, CLEAR)

  /** 0x3fff: more fragments, and the fragment offset. */
  const LOW_SIX: Octet := [true, true, true, true, true, true, false, false]
  const FRAGMENT_MASK: Word := Bytes(FULL, LOW_SIX, CLEAR, CLEAR)

  function ProtoKey(proto: Word): (k: Key)
    ensures k.off == 8 && k.offmask == 0 && Within(k.val, k.mask)
  {
    Key8(proto, BYTE_MASK, 9, 0)
  }

  function FragmentKey(): (k: Key)
    ensures k.off == 4 && k.offmask == 0 && Within(k.val, k.mask)
  {
    Key16(Bytes(CLEAR, CLEAR, CLEAR, CLEAR), FRAGMENT_MASK, 6, 0)
  }

  function AddressKey(ip: Word, off: int): (k: Key)
    ensures k.off == off && k.offmask == 0 && Within(k.val, k.mask)
  {
    Key32(Htonl(ip), WHOLE_MASK, off, 0)
  }

  function PortKey(port: Port, off: int): (k: Key)
    ensures k.off == off - off % 4 && k.offmask == 0 && Within(k.val, k.mask)
  {
    Key16(Ntohs(port), HALF_MASK, off, 0)
  }

  /** The six keys of the selector; the source keys may be left out. */
  function PackSix(k1: Key, k2: Key, source: bool, k3: Key, k4: Key, k5: Key, k6: Key): seq<Key> {
    var basic := Pack(Pack([], k1).keys, k2).keys;
    var more := if source then Pack(Pack(basic, k3).keys, k4).keys else basic;
    Pack(Pack(more, k5).keys, k6).keys
  }

  /** The selector of tc_add_filter_dev2tap. */
  function Dev2TapKeys(proto: Word, dstIp: Word, dstPort: Port, srcIp: Word, srcPort: Port): seq<Key> {
    PackSix(ProtoKey(proto), FragmentKey(), srcPort != NO_PORT, AddressKey(srcIp, 12), PortKey(srcPort, 20),
            AddressKey(dstIp, 16), PortKey(dstPort, 22))
  }

  class Sel {
    var keys: seq<Key>

    constructor ()
      ensures keys == []
    {
      keys := [];
    }

    /** pack_key */
    method PackKey(key: Word, mask: Word, off: int, offmask: int) returns (rc: int)
      modifies this
      ensures Outcome(rc, keys) == Pack(old(keys), KeyOf(key, mask, off, offmask))
    {
      var val := And(key, mask);
      var i := 0;
      while i < |keys|
        invariant 0 <= i <= |keys| && keys == old(keys)
        invariant forall j | 0 <= j < i :: keys[j].off != off || keys[j].offmask != offmask
      {
        if keys[i].off == off && keys[i].offmask == offmask {
          var common := And(mask, keys[i].mask);
          if !IsZero(And(Xor(val, keys[i].val), common)) {
            return -1;
          }
          keys := keys[i := keys[i].(val := Or(keys[i].val, val), mask := Or(keys[i].mask, mask))];
          return 0;
        }
        i := i + 1;
      }
      if off % 4 != 0 {
        return -1;
      }
      keys := keys + [Key(val, mask, off, offmask)];
      rc := 0;
    }

    /** pack_key8 */
    method PackKey8(key: Word, mask: Word, off: int, offmask: int) returns (rc: int)
      modifies this
      ensures Outcome(rc, keys) == Pack(old(keys), Key8(key, mask, off, offmask))
    {
      var k, m := key, mask;
      if off % 4 == 0 {
        k, m := ShiftLeft(k, 24), ShiftLeft(m, 24);
      } else if off % 4 == 1 {
        k, m := ShiftLeft(k, 16), ShiftLeft(m, 16);
      } else if off % 4 == 2 {
        k, m := ShiftLeft(k, 8), ShiftLeft(m, 8);
      }
      assert ShiftLeft(key, 0) == key && ShiftLeft(mask, 0) == mask;
      rc := PackKey(Htonl(k), Htonl(m), off - off % 4, offmask);
    }

    /** pack_key16 */
    method PackKey16(key: Word, mask: Word, off: int, offmask: int) returns (rc: int)
      modifies this
      ensures Outcome(rc, keys) == Pack(old(keys), Key16(key, mask, off, offmask))
    {
      var k, m := key, mask;
      if off % 4 == 0 {
        k, m := ShiftLeft(k, 16), ShiftLeft(m, 16);
      }
      assert ShiftLeft(key, 0) == key && ShiftLeft(mask, 0) == mask;
      rc := PackKey(Htonl(k), Htonl(m), off - off % 4, offmask);
    }

    /** pack_key32 */
    method PackKey32(key: Word, mask: Word, off: int, offmask: int) returns (rc: int)
      modifies this
      ensures Outcome(rc, keys) == Pack(old(keys), Key32(key, mask, off, offmask))
    {
      rc := PackKey(Htonl(key), Htonl(mask), off, offmask);
    }

    /** The selector of tc_add_filter_dev2tap; results of packing are not looked at. */
    method Dev2Tap(proto: Word, dstIp: Word, dstPort: Port, srcIp: Word, srcPort: Port)
      requires keys == []
      modifies this
      ensures keys == Dev2TapKeys(proto, dstIp, dstPort, srcIp, srcPort)
    {
      hide Key8, Key16, Key32, Pack;
      var rc := PackKey8(proto, BYTE_MASK, 9, 0);
      rc := PackKey16(Bytes(CLEAR, CLEAR, CLEAR, CLEAR), FRAGMENT_MASK, 6, 0);
      if srcPort != NO_PORT {
        rc := PackKey32(Htonl(srcIp), WHOLE_MASK, 12, 0);
        rc := PackKey16(Ntohs(srcPort), HALF_MASK, 20, 0);
      }
      rc := PackKey32(Htonl(dstIp), WHOLE_MASK, 16, 0);
      rc := PackKey16(Ntohs(dstPort), HALF_MASK, 22, 0);
    }
  }

  // ---------- what the selector accepts ----------

  type Packet = p: seq<Octet> | |p| >= 24 witness seq(24, _ => CLEAR)

  /** The word at an offset from the start of the packet. */
  function WordAt(p: Packet, off: nat): Word
    requires off + 4 <= |p|
  {
    Bytes(p[off], p[off + 1], p[off + 2], p[off + 3])
  }

  function WordFrom(p: Packet, off: int): Word {
    if 0 <= off && off + 4 <= |p| then WordAt(p, off) else Bytes(CLEAR, CLEAR, CLEAR, CLEAR)
  }

  /** With offset mask 0 nothing is added to a key's offset. */
  function WordsOf(p: Packet): Words32 {
    (off: int, offmask: int) => WordFrom(p, off)
  }

  /** Section 3.1 of RFC 791: the flag for more fragments is clear and the fragment offset is zero. */
  predicate Unfragmented(p: Packet) {
    (forall i | 0 <= i < 6 :: !p[6][i]) && p[7] == CLEAR
  }

  predicate ToDestination(p: Packet, proto: Word, ip: Word, port: Port) {
    p[9] == proto[..8] && WordAt(p, 16) == ip && Port(p[22], p[23]) == port
  }

  predicate FromSource(p: Packet, ip: Word, port: Port) {
    WordAt(p, 12) == ip && Port(p[20], p[21]) == port
  }

  lemma InBytes(w: Word)
    ensures w == Bytes(w[..8], w[8..16], w[16..24], w[24..])
  {
  }

  lemma FullAgrees(w: Octet, v: Octet)
    ensures Agrees(w, v, FULL) <==> w == v
  {
  }

  lemma ProtoKeyTests(p: Packet, proto: Word)
    ensures Matches(ProtoKey(proto), WordAt(p, 8)) <==> p[9] == proto[..8]
  {
    var a, b, c, d: Octet := proto[..8], proto[8..16], proto[16..24], proto[24..];
    InBytes(proto);
    hide Matches, Bytes, Agrees;
    Key8Tests(a, b, c, d, FULL, 9, 0, p[8], p[9], p[10], p[11]);
    FullAgrees(p[9], a);
  }

  lemma FragmentKeyTests(p: Packet)
    ensures Matches(FragmentKey(), WordAt(p, 4)) <==> Unfragmented(p)
  {
    hide Matches, Bytes;
    Key16Tests(CLEAR, CLEAR, CLEAR, CLEAR, LOW_SIX, FULL, 6, 0, p[4], p[5], p[6], p[7]);
    FullAgrees(p[7], CLEAR);
    assert Agrees(p[6], CLEAR, LOW_SIX) <==> forall i | 0 <= i < 6 :: !p[6][i];
  }

  lemma AddressKeyTests(p: Packet, ip: Word, off: nat)
    requires off + 4 <= |p|
    ensures Matches(AddressKey(ip, off), WordAt(p, off)) <==> WordAt(p, off) == ip
  {
    var a, b, c, d: Octet := ip[..8], ip[8..16], ip[16..24], ip[24..];
    InBytes(ip);
    hide Matches, Bytes;
    Key32Tests(a, b, c, d, off, 0, WordAt(p, off));
  }

  lemma PortKeyTests(p: Packet, port: Port, off: nat)
    requires off == 20 || off == 22
    ensures Matches(PortKey(port, off), WordAt(p, 20)) <==> Port(p[off], p[off + 1]) == port
  {
    hide Matches, Bytes;
    Key16Tests(port.first, port.second, CLEAR, CLEAR, FULL, FULL, off, 0, p[20], p[21], p[22], p[23]);
    FullAgrees(p[off], port.first);
    FullAgrees(p[off + 1], port.second);
  }

  lemma NoShift(w: Word)
    ensures ShiftLeft(w, 0) == w
  {
  }

  lemma PortMask(port: Port)
    ensures PortKey(port, 20).mask == Bytes(FULL, FULL, CLEAR, CLEAR)
    ensures PortKey(port, 22).mask == Bytes(CLEAR, CLEAR, FULL, FULL)
  {
    ShiftBytes(FULL, FULL, CLEAR, CLEAR);
    NoShift(HALF_MASK);
    hide ShiftLeft, Htonl, Bytes, And, Within;
    SwapBytes(CLEAR, CLEAR, FULL, FULL);
    SwapBytes(FULL, FULL, CLEAR, CLEAR);
  }

  /** The two ports share a word, not a bit. */
  lemma PortsDoNotConflict(src: Port, dst: Port)
    ensures !Conflict(PortKey(src, 20), PortKey(dst, 22).val, PortKey(dst, 22).mask)
  {
    hide Conflict, PortKey, Bytes;
    PortMask(src);
    PortMask(dst);
    HalvesApart();
    ConflictBits(PortKey(src, 20), PortKey(dst, 22).val, PortKey(dst, 22).mask);
  }

  lemma HalvesApart()
    ensures forall i | 0 <= i < WIDTH :: !(Bytes(FULL, FULL, CLEAR, CLEAR)[i] && Bytes(CLEAR, CLEAR, FULL, FULL)[i])
  {
    forall i | 0 <= i < WIDTH ensures !(Bytes(FULL, FULL, CLEAR, CLEAR)[i] && Bytes(CLEAR, CLEAR, FULL, FULL)[i]) {
      BytesAt(FULL, FULL, CLEAR, CLEAR, i % 8);
      BytesAt(CLEAR, CLEAR, FULL, FULL, i % 8);
      assert i == 8 * (i / 8) + i % 8 && (i / 8 == 0 || i / 8 == 1 || i / 8 == 2 || i / 8 == 3);
    }
  }

  lemma NewPlace(keys: seq<Key>, k: Key)
    requires k.off % 4 == 0 && forall i | 0 <= i < |keys| :: keys[i].off != k.off
    ensures Pack(keys, k) == Outcome(0, keys + [k])
  {
  }

  lemma SamePlace(keys: seq<Key>, i: nat, k: Key)
    requires i < |keys| && keys[i].off == k.off && keys[i].offmask == k.offmask && !Conflict(keys[i], k.val, k.mask)
    requires forall j | 0 <= j < i :: keys[j].off != k.off
    ensures Pack(keys, k) == Outcome(0, keys[i := Merged(keys[i], k.val, k.mask)])
  {
    hide Conflict, Merged;
    assert Find(keys, k.off, k.offmask) == i;
  }

  /** Two more keys at new places. */
  lemma PackTwo(keys: seq<Key>, k: Key, l: Key, more: seq<Key>, words: Words32)
    requires Proper(keys) && Within(k.val, k.mask) && Within(l.val, l.mask) && more == keys + [k, l]
    requires k.off % 4 == 0 && l.off % 4 == 0 && k.off != l.off
    requires forall i | 0 <= i < |keys| :: keys[i].off != k.off && keys[i].off != l.off
    ensures Pack(Pack(keys, k).keys, l).keys == more && Proper(more)
    ensures Accepts(more, words) <==> Accepts(keys, words) && Passes(k, words) && Passes(l, words)
  {
    hide Pack, Accepts, Within, Passes, Proper;
    PackNew(keys, k, keys + [k], words);
    PackNew(keys + [k], l, more, words);
  }

  /** A new key, and one that goes to the fourth place without a conflict. */
  lemma PackLast(keys: seq<Key>, k: Key, l: Key, words: Words32)
    requires Proper(keys) && |keys| == 4 && Within(k.val, k.mask) && Within(l.val, l.mask)
    requires k.off % 4 == 0 && forall i | 0 <= i < 4 :: keys[i].off != k.off
    requires keys[3].off == l.off && keys[3].offmask == l.offmask && !Conflict(keys[3], l.val, l.mask)
    requires forall i | 0 <= i < 3 :: keys[i].off != l.off
    ensures var more := Pack(Pack(keys, k).keys, l).keys;
            |more| == 5 && (Accepts(more, words) <==> Accepts(keys, words) && Passes(k, words) && Passes(l, words))
  {
    var five := keys + [k];
    assert forall i | 0 <= i < 4 :: five[i] == keys[i];
    hide Pack, Accepts, Within, Proper, Conflict, Merged, Matches;
    PackNew(keys, k, five, words);
    SamePlace(five, 3, l);
    PackMeaning(five, l, words);
  }

  /** All are packed, in four or five places, and the selector tests each of them. */
  lemma SixPacked(k1: Key, k2: Key, source: bool, k3: Key, k4: Key, k5: Key, k6: Key, words: Words32)
    requires k1.off == 8 && k2.off == 4 && k3.off == 12 && k4.off == 20 && k5.off == 16 && k6.off == 20
    requires k4.offmask == k6.offmask && !Conflict(k4, k6.val, k6.mask)
    requires Within(k1.val, k1.mask) && Within(k2.val, k2.mask) && Within(k3.val, k3.mask)
    requires Within(k4.val, k4.mask) && Within(k5.val, k5.mask) && Within(k6.val, k6.mask)
    ensures |PackSix(k1, k2, source, k3, k4, k5, k6)| == if source then 5 else 4
    ensures Accepts(PackSix(k1, k2, source, k3, k4, k5, k6), words) <==>
              && Passes(k1, words) && Passes(k2, words) && (source ==> Passes(k3, words) && Passes(k4, words))
              && Passes(k5, words) && Passes(k6, words)
  {
    hide Conflict, Pack, Accepts, Within, Passes, Proper;
    NothingPacked(words);
    PackTwo([], k1, k2, [k1, k2], words);
    if source {
      FourPacked([k1, k2], k3, k4, k5, k6, words);
    } else {
      PackTwo([k1, k2], k5, k6, [k1, k2, k5, k6], words);
    }
  }

  lemma NothingPacked(words: Words32)
    ensures Accepts([], words) && Proper([])
  {
  }

  /** The keys of the source, the destination address, and the port whose place the source port has. */
  lemma FourPacked(basic: seq<Key>, k3: Key, k4: Key, k5: Key, k6: Key, words: Words32)
    requires Proper(basic) && |basic| == 2 && basic[0].off == 8 && basic[1].off == 4
    requires k3.off == 12 && k4.off == 20 && k5.off == 16 && k6.off == 20
    requires k4.offmask == k6.offmask && !Conflict(k4, k6.val, k6.mask)
    requires Within(k3.val, k3.mask) && Within(k4.val, k4.mask) && Within(k5.val, k5.mask) && Within(k6.val, k6.mask)
    ensures var keys := Pack(Pack(Pack(Pack(basic, k3).keys, k4).keys, k5).keys, k6).keys;
            && |keys| == 5
            && (Accepts(keys, words) <==>
                  && Accepts(basic, words) && Passes(k3, words) && Passes(k4, words)
                  && Passes(k5, words) && Passes(k6, words))
  {
    hide Conflict, Pack, Accepts, Within, Passes, Proper;
    var four := basic + [k3, k4];
    PackTwo(basic, k3, k4, four, words);
    PackLast(four, k5, k6, words);
  }

  ghost predicate Passes(k: Key, words: Words32) {
    Matches(k, words(k.off, k.offmask))
  }

  lemma PackNew(keys: seq<Key>, k: Key, more: seq<Key>, words: Words32)
    requires Proper(keys) && Within(k.val, k.mask) && more == keys + [k]
    requires k.off % 4 == 0 && forall i | 0 <= i < |keys| :: keys[i].off != k.off
    ensures Pack(keys, k) == Outcome(0, more) && Proper(more)
    ensures Accepts(more, words) <==> Accepts(keys, words) && Passes(k, words)
  {
    NewPlace(keys, k);
    hide Pack, Matches, Within, Accepts;
    PackMeaning(keys, k, words);
  }

  /** The selector accepts a packet with a 20-byte IPv4 header exactly when it is unfragmented, goes
      to the destination with the protocol asked for and, if a source port was given, comes from the
      source. Its keys fit in the ten places it has. */
  lemma Dev2TapAccepts(p: Packet, proto: Word, dstIp: Word, dstPort: Port, srcIp: Word, srcPort: Port)
    ensures var keys := Dev2TapKeys(proto, dstIp, dstPort, srcIp, srcPort);
            && |keys| <= 5
            && (Accepts(keys, WordsOf(p)) <==>
                  && Unfragmented(p) && ToDestination(p, proto, dstIp, dstPort)
                  && (srcPort == NO_PORT || FromSource(p, srcIp, srcPort)))
  {
    hide Matches, Pack, ProtoKey, FragmentKey, AddressKey, PortKey, WordAt, Unfragmented, Accepts, Conflict, Within;
    PortsDoNotConflict(srcPort, dstPort);
    SixPacked(ProtoKey(proto), FragmentKey(), srcPort != NO_PORT, AddressKey(srcIp, 12), PortKey(srcPort, 20),
              AddressKey(dstIp, 16), PortKey(dstPort, 22), WordsOf(p));
    ProtoKeyTests(p, proto);
    FragmentKeyTests(p);
    AddressKeyTests(p, srcIp, 12);
    AddressKeyTests(p, dstIp, 16);
    PortKeyTests(p, srcPort, 20);
    PortKeyTests(p, dstPort, 22);
  }

  /** A flow is told apart by its source exactly when its source port is not zero: with port zero a
      packet from elsewhere is accepted too. */
  lemma SourceTested(proto: Word, dstIp: Word, dstPort: Port, srcIp: Word, srcPort: Port)
    ensures srcPort != NO_PORT <==>
              forall p: Packet | Accepts(Dev2TapKeys(proto, dstIp, dstPort, srcIp, srcPort), WordsOf(p)) ::
                FromSource(p, srcIp, srcPort)
  {
    hide Accepts, Dev2TapKeys;
    forall p: Packet | srcPort != NO_PORT && Accepts(Dev2TapKeys(proto, dstIp, dstPort, srcIp, srcPort), WordsOf(p))
      ensures FromSource(p, srcIp, srcPort)
    {
      Dev2TapAccepts(p, proto, dstIp, dstPort, srcIp, srcPort);
    }
    var p := FromElsewhere(proto, dstIp, dstPort);
    Dev2TapAccepts(p, proto, dstIp, dstPort, srcIp, srcPort);
  }

  /** A packet to the destination with source port 0xffff. */
  lemma FromElsewhere(proto: Word, ip: Word, port: Port) returns (p: Packet)
    ensures Unfragmented(p) && ToDestination(p, proto, ip, port)
    ensures forall src :: !FromSource(p, src, NO_PORT)
  {
    p := [CLEAR, CLEAR, CLEAR, CLEAR, CLEAR, CLEAR, CLEAR, CLEAR]
         + [CLEAR, proto[..8], CLEAR, CLEAR, CLEAR, CLEAR, CLEAR, CLEAR]
         + [ip[..8], ip[8..16], ip[16..24], ip[24..], FULL, FULL, port.first, port.second];
    InBytes(ip);
    hide Bytes;
  }
}

/**
 The completion ring shared with the device (get_cqe64, check_error_completion and check_cqe in
 src/vma/dev/cq_mgr_mlx5.cpp and .inl). The device writes completion i to slot i mod N with owner
 bit (i div N) mod 2; the consumer keeps a 32-bit counter and decides by that bit alone whether the
 entry at its slot is new. Accesses are taken to be sequentially consistent.
 */
module CqeRing {

  const TWO_32: nat := 0x1_0000_0000

  // ---------- bit operations ----------

  /** Bitwise and of natural numbers. */
  function And(a: nat, b: nat): nat {
    if a == 0 || b == 0 then 0 else 2 * And(a / 2, b / 2) + (a % 2) * (b % 2)
  }

  function Pow2(k: nat): (n: nat)
    ensures n > 0
  {
    if k == 0 then 1 else 2 * Pow2(k - 1)
  }

  // ---------- slot and lap parity of an index ----------

  /** i mod n, one lap at a time. */
  function Slot(i: nat, n: nat): (s: nat)
    requires n > 0
    ensures s < n
  {
    if i < n then i else Slot(i - n, n)
  }

  /** (i div n) mod 2, one lap at a time. */
  function Phase(i: nat, n: nat): bool
    requires n > 0
  {
    if i < n then false else !Phase(i - n, n)
  }

  lemma AtLeast(g: int, n: nat)
    ensures g >= 1 ==> g * n >= n
    ensures g <= -1 ==> g * n + n <= 0
  {
    if g >= 1 {
      assert (g - 1) * n >= 0;
    } else if g <= -1 {
      assert (-1 - g) * n >= 0;
    }
  }

  lemma Distribute(a: int, b: int, n: int)
    ensures (a - b) * n == a * n - b * n
  {
  }

  lemma DivStep(i: nat, n: nat)
    requires 0 < n <= i
    ensures (i - n) / n == i / n - 1 && (i - n) % n == i % n
  {
    var q, r, a, b := (i - n) / n, (i - n) % n, i / n, i % n;
    assert i - n == q * n + r && i == a * n + b;
    var gap := a - (q + 1);
    Distribute(a, q + 1, n);
    Distribute(q + 1, 1, n);
    assert gap * n == r - b;
    AtLeast(gap, n);
  }

  lemma {:induction false} SlotIsMod(i: nat, n: nat)
    requires n > 0
    ensures Slot(i, n) == i % n && (Phase(i, n) <==> (i / n) % 2 == 1)
  {
    if i >= n {
      SlotIsMod(i - n, n);
      DivStep(i, n);
    }
  }

  /** Indices less than a lap apart use different slots. */
  lemma {:induction false} SlotsApart(i: nat, j: nat, n: nat)
    requires n > 0 && i < j < i + n
    ensures Slot(i, n) != Slot(j, n)
  {
    if i >= n {
      SlotsApart(i - n, j - n, n);
    }
  }

  lemma {:induction false} Halve(x: nat, n: nat)
    requires n > 0
    ensures Slot(x, 2 * n) == 2 * Slot(x / 2, n) + x % 2
    ensures Phase(x, 2 * n) == Phase(x / 2, n)
  {
    if x >= 2 * n {
      Halve(x - 2 * n, n);
      assert (x - 2 * n) / 2 == x / 2 - n;
    }
  }

  lemma {:induction false} Parity(x: nat)
    ensures Slot(x, 1) == 0 && (Phase(x, 1) <==> x % 2 == 1)
  {
    if x > 0 {
      Parity(x - 1);
    }
  }

  /** The two masks of the consumer, for a ring of any power of two. */
  lemma {:induction false} Masks(x: nat, k: nat)
    ensures And(x, Pow2(k) - 1) == Slot(x, Pow2(k))
    ensures And(x, Pow2(k)) != 0 <==> Phase(x, Pow2(k))
    decreases k
  {
    if k == 0 {
      Parity(x);
    } else {
      Masks(x / 2, k - 1);
      Halve(x, Pow2(k - 1));
      if x == 0 {
        assert Slot(0, Pow2(k)) == 0;
      } else {
        assert (Pow2(k) - 1) / 2 == Pow2(k - 1) - 1 && (Pow2(k) - 1) % 2 == 1;
        assert Pow2(k) / 2 == Pow2(k - 1) && Pow2(k) % 2 == 0;
      }
    }
  }

  lemma {:induction false} TwoLaps(x: nat, n: nat, t: nat)
    requires n > 0
    ensures Slot(x + t * (2 * n), n) == Slot(x, n) && Phase(x + t * (2 * n), n) == Phase(x, n)
  {
    if t > 0 {
      TwoLaps(x, n, t - 1);
      var before := x + (t - 1) * (2 * n);
      assert x + t * (2 * n) == before + 2 * n;
      assert Slot(before + 2 * n, n) == Slot(before + n, n) == Slot(before, n);
    }
  }

  /** The 32-bit counter, wrapped or not, selects the same slot and parity. */
  lemma {:induction false} CounterWraps(c: nat, k: nat)
    requires k <= 31
    ensures Slot(c % TWO_32, Pow2(k)) == Slot(c, Pow2(k)) && Phase(c % TWO_32, Pow2(k)) == Phase(c, Pow2(k))
  {
    hide Slot, Phase, Pow2;
    if c >= TWO_32 {
      CounterWraps(c - TWO_32, k);
      LessOneTurn(c);
      var n, t := Pow2(k), Pow2(31 - k);
      WholeLaps(k);
      TwoLaps(c - TWO_32, n, t);
      assert c - TWO_32 + t * (2 * n) == c;
    } else {
      BelowOneTurn(c);
    }
  }

  lemma LessOneTurn(c: nat)
    requires c >= TWO_32
    ensures (c - TWO_32) % TWO_32 == c % TWO_32
  {
  }

  lemma BelowOneTurn(c: nat)
    requires c < TWO_32
    ensures c % TWO_32 == c
  {
  }

  lemma WholeLaps(k: nat)
    requires k <= 31
    ensures Pow2(31 - k) * (2 * Pow2(k)) == TWO_32
  {
    PowerValue();
    hide Pow2;
    PowerSum(k, 31 - k);
    Doubled(Pow2(31 - k), Pow2(k));
  }

  lemma Doubled(a: nat, b: nat)
    ensures a * (2 * b) == 2 * (a * b)
  {
  }

  lemma Associate(a: nat, b: nat, c: nat)
    ensures a * (b * c) == (a * b) * c
  {
  }

  lemma {:induction false} PowerSum(a: nat, b: nat)
    ensures Pow2(b) * Pow2(a) == Pow2(a + b)
  {
    if b > 0 {
      PowerSum(a, b - 1);
      Associate(2, Pow2(b - 1), Pow2(a));
    }
  }

  lemma PowerValue()
    ensures Pow2(31) == 0x8000_0000
  {
    assert Pow2(8) == 0x100;
    PowerSum(8, 8);
    PowerSum(16, 8);
    PowerSum(24, 7);
    assert Pow2(7) == 0x80;
  }

  // ---------- entries ----------

  const REQ_ERR := 13
  const RESP_ERR := 14
  const INVALID := 15

  /** A completion as the device means it; its opcode is a real one. */
  datatype Completion = Completion(op: nat, payload: nat)

  datatype Cqe = Cqe(op: nat, owner: bool, payload: nat)

  function Entry(i: nat, c: Completion, n: nat): Cqe
    requires n > 0
  {
    Cqe(c.op, Phase(i, n), c.payload)
  }

  datatype Polled =
    | Nothing
    | Ready(cqe: Cqe)
    | Error(cqe: Cqe)

  class Ring {
    const log: nat
    const ring: array<Cqe>
    /** cq_ci, and the copy of it the device reads */
    var ci: nat
    var dbrec: nat

    /** Everything the device has written, and how many of those were handed to the caller. */
    ghost var produced: seq<Completion>
    /** The device's own index. */
    var pi: nat
    ghost var consumed: nat
    ghost var delivered: seq<Completion>

    ghost predicate Valid()
      reads this, ring
    {
      && log <= 31 && ring.Length == Pow2(log)
      && pi == |produced| && consumed <= pi <= consumed + ring.Length
      && ci == consumed % TWO_32
      && delivered == produced[..consumed]
      && (forall i | 0 <= i < |produced| :: produced[i].op < INVALID)
      && (forall i | 0 <= i < |produced| && |produced| <= i + ring.Length ::
            ring[Slot(i, ring.Length)] == Entry(i, produced[i], ring.Length))
      && (forall s | |produced| <= s < ring.Length :: ring[s].op == INVALID)
    }

    /** A fresh ring: invalid entries, with whatever owner bits the memory held. */
    constructor (log: nat, owners: nat -> bool)
      requires log <= 31
      ensures Valid() && this.log == log && produced == [] && fresh(ring)
    {
      this.log := log;
      ring := new Cqe[Pow2(log)](i => Cqe(INVALID, owners(i), 0));
      ci, dbrec, pi, produced, consumed, delivered := 0, 0, 0, [], 0, [];
    }

    /** The device adds a completion; it never gets more than a lap ahead of the consumer. */
    method DeviceWrite(c: Completion)
      requires Valid() && pi < consumed + ring.Length && c.op < INVALID
      modifies this`produced, this`pi, ring
      ensures Valid() && produced == old(produced) + [c]
    {
      var slot := Slot(pi, ring.Length);
      forall i | 0 <= i < pi && pi < i + ring.Length ensures Slot(i, ring.Length) != slot {
        SlotsApart(i, pi, ring.Length);
      }
      ring[slot] := Cqe(c.op, Phase(pi, ring.Length), c.payload);
      produced := produced + [c];
      pi := pi + 1;
    }

    /** What the consumer's two masks see at its position. */
    lemma AtConsumer()
      requires Valid()
      ensures And(ci, ring.Length - 1) == Slot(consumed, ring.Length) < ring.Length
      ensures And(ci, ring.Length) != 0 <==> Phase(consumed, ring.Length)
      ensures var e := ring[Slot(consumed, ring.Length)];
              if consumed < |produced| then e == Entry(consumed, produced[consumed], ring.Length)
              else e.op == INVALID || e.owner != Phase(consumed, ring.Length)
    {
      CounterWraps(consumed, log);
      Masks(ci, log);
      if consumed == |produced| && consumed >= ring.Length {
        var i := consumed - ring.Length;
        assert ring[Slot(i, ring.Length)] == Entry(i, produced[i], ring.Length);
      }
    }

    /** check_cqe: says exactly whether the device is ahead. */
    method CheckCqe() returns (ready: bool)
      requires Valid()
      ensures ready <==> consumed < |produced|
    {
      AtConsumer();
      var e := ring[And(ci, ring.Length - 1)];
      ready := e.op != INVALID && e.owner == (And(ci, ring.Length) != 0);
    }

    /** get_cqe64; `wantErr` says whether the caller passed a place for error completions. */
    method GetCqe64(wantErr: bool) returns (r: Polled)
      requires Valid()
      modifies this`ci, this`dbrec, this`consumed, this`delivered
      ensures Valid()
      ensures r.Nothing? <==> old(consumed) == |produced| || (wantErr && Unclaimed(produced[old(consumed)]))
      ensures r.Nothing? ==> ci == old(ci) && dbrec == old(dbrec) && consumed == old(consumed)
      ensures !r.Nothing? ==>
                && consumed == old(consumed) + 1 && delivered == old(delivered) + [produced[old(consumed)]]
                && r.cqe == Entry(old(consumed), produced[old(consumed)], ring.Length)
                && dbrec == ci
      ensures r.Error? ==> wantErr && IsError(produced[old(consumed)])
      ensures r.Ready? && wantErr ==> produced[old(consumed)].op < 8
    {
      AtConsumer();
      var e := ring[And(ci, ring.Length - 1)];
      if e.owner == (And(ci, ring.Length) == 0) {
        return Nothing;
      } else if e.op == INVALID {
        return Nothing;
      } else if wantErr && e.op >= 8 {
        if e.op == REQ_ERR || e.op == RESP_ERR {
          Advance();
          return Error(e);
        }
        return Nothing;
      }
      Advance();
      return Ready(e);
    }

    method Advance()
      requires Valid() && consumed < |produced|
      modifies this`ci, this`dbrec, this`consumed, this`delivered
      ensures Valid() && consumed == old(consumed) + 1 && dbrec == ci
      ensures delivered == old(delivered) + [produced[old(consumed)]]
    {
      hide Slot, Entry, Pow2;
      ci := (ci + 1) % TWO_32;
      dbrec := ci;
      delivered := delivered + [produced[consumed]];
      consumed := consumed + 1;
    }
  }

  predicate IsError(c: Completion) {
    c.op == REQ_ERR || c.op == RESP_ERR
  }

  /** Opcodes with the error bit that check_error_completion does not know. Such an entry stays at
      the head of the ring for every caller that asks for errors. */
  predicate Unclaimed(c: Completion) {
    8 <= c.op < INVALID && !IsError(c)
  }
}

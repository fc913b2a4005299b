/**
 The ring of on-device memory (src/vma/dev/dm_mgr.cpp): a cyclic allocator that keeps only the next
 offset to write and the number of bytes in use, and hands out contiguous runs.

 Positions are also counted without wrapping, as ghosts: offset x on lap k is byte
 k * allocation + x of an endless line. Live regions are consecutive stretches of that line.
 */
module DmRing {

  const TWO_32: nat := 0x1_0000_0000

  /** The counters are of type size_t. */
  const TWO_64: nat := 0x1_0000_0000_0000_0000

  /** DM_ALIGN_SIZE(length, 7) on a 32-bit length, wrap-around included. */
  function Aligned8(length: nat): (r: nat)
    requires length < TWO_32
    ensures r % 8 == 0
    ensures length <= TWO_32 - 8 ==> length <= r < length + 8
    ensures length > TWO_32 - 8 ==> r == 0
  {
    (length + 7) % TWO_32 / 8 * 8
  }

  /** First byte of lap k. */
  function Lap(k: nat, allocation: nat): nat {
    if k == 0 then 0 else Lap(k - 1, allocation) + allocation
  }

  lemma {:induction false} LapOrder(j: nat, k: nat, n: nat)
    requires j < k
    ensures Lap(j, n) + n <= Lap(k, n)
  {
    if j + 1 < k {
      LapOrder(j, k - 1, n);
    }
  }

  /** One live allocation: `len` bytes of data at offset `off` on lap `lap`, preceded by `pad` bytes
      skipped at the end of the memory. */
  datatype Region = Region(lap: nat, off: nat, pad: nat, len: nat)

  function Charge(r: Region): nat {
    r.pad + r.len
  }

  function TotalCharge(live: seq<Region>): nat {
    if live == [] then 0 else TotalCharge(live[..|live| - 1]) + Charge(live[|live| - 1])
  }

  function TotalLen(live: seq<Region>): nat {
    if live == [] then 0 else TotalLen(live[..|live| - 1]) + live[|live| - 1].len
  }

  function TotalPad(live: seq<Region>): nat {
    if live == [] then 0 else TotalPad(live[..|live| - 1]) + live[|live| - 1].pad
  }

  lemma {:induction false} ChargeIsLenPlusPad(live: seq<Region>)
    ensures TotalCharge(live) == TotalLen(live) + TotalPad(live)
  {
    if live != [] {
      ChargeIsLenPlusPad(live[..|live| - 1]);
    }
  }

  lemma {:induction false} DropFirst(live: seq<Region>)
    requires live != []
    ensures TotalCharge(live) == Charge(live[0]) + TotalCharge(live[1..])
  {
    if |live| > 1 {
      var front := live[..|live| - 1];
      DropFirst(front);
      assert live[1..][..|live| - 2] == front[1..];
    } else {
      assert live[1..] == [];
    }
  }

  /** Position of a region's data on the line. */
  function At(r: Region, n: nat): nat {
    Lap(r.lap, n) + r.off
  }

  /** The regions follow one another without gaps from `tail` to `head`. */
  ghost predicate Consecutive(live: seq<Region>, tail: nat, head: nat, n: nat) {
    && (forall i | 0 <= i < |live| :: At(live[i], n) == live[i].pad + EndBefore(live, tail, i, n))
    && head == EndBefore(live, tail, |live|, n)
  }

  ghost function EndBefore(live: seq<Region>, tail: nat, i: nat, n: nat): nat
    requires i <= |live|
  {
    if i == 0 then tail else At(live[i - 1], n) + live[i - 1].len
  }

  /** Inside the memory, 8-byte aligned, and at its start when bytes were skipped. */
  ghost predicate Placed(r: Region, n: nat) {
    && r.off + r.len <= n && r.off < n
    && r.off % 8 == 0 && r.len % 8 == 0
    && (r.pad > 0 ==> r.off == 0)
  }

  ghost predicate Disjoint(r: Region, s: Region) {
    r.off + r.len <= s.off || s.off + s.len <= r.off
  }

  lemma Ends(live: seq<Region>, tail: nat, head: nat, n: nat, i: nat)
    requires Consecutive(live, tail, head, n) && i < |live|
    ensures EndBefore(live, tail, i + 1, n) == At(live[i], n) + live[i].len
    ensures At(live[i], n) == live[i].pad + EndBefore(live, tail, i, n)
    ensures EndBefore(live, tail, 0, n) == tail && EndBefore(live, tail, |live|, n) == head
  {
  }

  lemma {:induction false} InOrder(live: seq<Region>, tail: nat, head: nat, n: nat, i: nat, j: nat)
    requires Consecutive(live, tail, head, n) && i <= j <= |live|
    ensures EndBefore(live, tail, i, n) <= EndBefore(live, tail, j, n)
  {
    hide EndBefore, Consecutive, At;
    if i < j {
      InOrder(live, tail, head, n, i, j - 1);
      Ends(live, tail, head, n, j - 1);
    }
  }

  /** Stretches of the line within one lap of each other, neither running over the end of the
      memory, lie apart in the memory. */
  lemma LapsApart(r: Region, s: Region, n: nat)
    requires At(r, n) + r.len <= At(s, n) && At(s, n) + s.len <= At(r, n) + n
    requires Placed(r, n) && Placed(s, n)
    ensures Disjoint(r, s)
  {
    if r.lap + 1 < s.lap {
      LapOrder(r.lap, r.lap + 1, n);
      LapOrder(r.lap + 1, s.lap, n);
    } else if s.lap < r.lap {
      LapOrder(s.lap, r.lap, n);
    }
  }

  /** In a consistent ring all live regions are pairwise disjoint. */
  lemma RegionsApart(live: seq<Region>, tail: nat, head: nat, n: nat, i: nat, j: nat)
    requires Consecutive(live, tail, head, n) && head <= tail + n
    requires forall r | r in live :: Placed(r, n)
    requires i < j < |live|
    ensures Disjoint(live[i], live[j])
  {
    hide Placed, Disjoint, At, EndBefore;
    var r, s := live[i], live[j];
    assert At(r, n) + r.len <= At(s, n) && At(s, n) + s.len <= At(r, n) + n by {
      InOrder(live, tail, head, n, 0, i);
      InOrder(live, tail, head, n, i + 1, j);
      InOrder(live, tail, head, n, j + 1, |live|);
      Ends(live, tail, head, n, i);
      Ends(live, tail, head, n, j);
    }
    assert r in live && s in live;
    LapsApart(r, s, n);
  }

  // ---------- which bytes are taken ----------

  /** Some byte of the line between tail and head lies at offset x. */
  ghost predicate Taken(tail: nat, head: nat, n: nat, x: nat) {
    exists k: nat :: tail <= Lap(k, n) + x < head
  }

  /** `len` free bytes from offset o on. */
  ghost predicate Room(tail: nat, head: nat, n: nat, o: nat, len: nat) {
    o + len <= n && forall x: nat | o <= x < o + len :: !Taken(tail, head, n, x)
  }

  /** The only laps on which an offset can be taken are the current one and, once wrapped, the one
      before. */
  lemma TakenLaps(lap: nat, h: nat, used: nat, n: nat, x: nat, k: nat)
    requires h < n && used <= n && x < n
    requires Lap(lap, n) + h - used <= Lap(k, n) + x < Lap(lap, n) + h
    ensures k == lap || (h < used && k + 1 == lap)
  {
    if k > lap {
      LapOrder(lap, k, n);
    } else if k + 1 < lap {
      LapOrder(k, k + 1, n);
      LapOrder(k + 1, lap, n);
    } else if k + 1 == lap {
      assert Lap(lap, n) == Lap(k, n) + n;
    }
  }

  /** Taken offsets in terms of the two counters the allocator keeps. */
  lemma TakenIs(lap: nat, h: nat, used: nat, n: nat, x: nat)
    requires h < n && used <= n && x < n && Lap(lap, n) + h >= used
    ensures var head := Lap(lap, n) + h;
            Taken(head - used, head, n, x) <==>
              if h >= used then h - used <= x < h else x < h || h + n - used <= x
  {
    assert lap > 0 ==> Lap(lap, n) == Lap(lap - 1, n) + n;
    assert lap == 0 ==> Lap(lap, n) == 0;
    hide Lap;
    var head := Lap(lap, n) + h;
    var tail := head - used;
    assert tail <= Lap(lap, n) + x < head <==> h - used <= x < h;
    assert h < used ==> (tail <= Lap(lap - 1, n) + x < head <==> h + n - used <= x);
    forall k: nat | tail <= Lap(k, n) + x < head ensures k == lap || (h < used && k + 1 == lap) {
      TakenLaps(lap, h, used, n, x, k);
    }
  }

  // ---------- the allocator's test for space ----------

  /** The test copy_data makes on its two counters, for an aligned length. */
  predicate Fits(head: nat, used: nat, n: nat, len: nat) {
    used < n && if head >= used then n - head >= len || head - used >= len else n - used >= len
  }

  /** The allocation starts over at offset 0. */
  predicate Rewinds(head: nat, used: nat, n: nat, len: nat) {
    Fits(head, used, n, len) && head >= used && n < head + len
  }

  /** With something in use, space is refused exactly when neither the run at the head nor the run
      at offset 0 is free, or when nothing at all is left. An empty ring is cut in two at its head
      and refuses what fits in neither part, even if it fits in the whole. */
  lemma FitsIsRoom(lap: nat, head: nat, used: nat, n: nat, len: nat)
    requires head < n && used <= n && Lap(lap, n) + head >= used
    ensures var h := Lap(lap, n) + head;
            used > 0 ==> (Fits(head, used, n, len) <==>
                            used < n && (Room(h - used, h, n, head, len) || Room(h - used, h, n, 0, len)))
    ensures used == 0 ==> (Fits(head, used, n, len) <==> head + len <= n || len <= head)
  {
    hide Lap, Taken;
    var h := Lap(lap, n) + head;
    forall x: nat {:trigger Taken(h - used, h, n, x)} | x < n
      ensures Taken(h - used, h, n, x) <==>
              if head >= used then head - used <= x < head else x < head || head + n - used <= x
    {
      TakenIs(lap, head, used, n, x);
    }
    if used > 0 && len > 0 {
      if head >= used {
        assert len > head - used ==> Taken(h - used, h, n, head - used);
      } else {
        assert head > 0 ==> Taken(h - used, h, n, 0);
        assert len > n - used && head + n - used < n ==> Taken(h - used, h, n, head + n - used);
      }
    }
  }

  /** The run of `len` bytes at the head is free. */
  ghost predicate FreeAtHead(lap: nat, head: nat, used: nat, n: nat, len: nat) {
    var h := Lap(lap, n) + head;
    h >= used && Room(h - used, h, n, head, len)
  }

  /** An accepted request starts over exactly when the run at the head is not free for it. */
  lemma RewindsIsNoRoom(lap: nat, head: nat, used: nat, n: nat, len: nat)
    requires head < n && Lap(lap, n) + head >= used && Fits(head, used, n, len)
    ensures Rewinds(head, used, n, len) <==> !FreeAtHead(lap, head, used, n, len)
  {
    hide Lap, Taken;
    var h := Lap(lap, n) + head;
    forall x: nat {:trigger Taken(h - used, h, n, x)} | x < n
      ensures Taken(h - used, h, n, x) <==>
              if head >= used then head - used <= x < head else x < head || head + n - used <= x
    {
      TakenIs(lap, head, used, n, x);
    }
  }

  lemma EmptyRingRefuses()
    ensures !Fits(32, 0, 64, 40) && Room(32, 32, 64, 0, 40)
  {
  }

  // ---------- the manager ----------

  /** What ties the two counters to the live regions. */
  ghost predicate Consistent(live: seq<Region>, lap: nat, head: nat, used: nat, n: nat) {
    && used <= n && used == TotalCharge(live)
    && (if n == 0 then head == 0 else head < n && head % 8 == 0)
    && Lap(lap, n) + head >= used
    && Consecutive(live, Lap(lap, n) + head - used, Lap(lap, n) + head, n)
    && (forall r | r in live :: Placed(r, n))
  }

  lemma Empty(n: nat)
    ensures Consistent([], 0, 0, 0, n)
  {
  }

  /** One more stretch at the head of the line. */
  lemma Extend(live: seq<Region>, tail: nat, head: nat, n: nat, r: Region)
    requires Consecutive(live, tail, head, n) && At(r, n) == r.pad + head
    ensures Consecutive(live + [r], tail, At(r, n) + r.len, n)
  {
    hide At;
    var more := live + [r];
    forall i | 0 <= i <= |live| ensures EndBefore(more, tail, i, n) == EndBefore(live, tail, i, n) {
      assert i > 0 ==> more[i - 1] == live[i - 1];
    }
    forall i | 0 <= i < |more| ensures At(more[i], n) == more[i].pad + EndBefore(more, tail, i, n) {
      if i < |live| {
        assert more[i] == live[i];
      }
    }
  }

  lemma ExtendCharge(live: seq<Region>, r: Region)
    ensures TotalCharge(live + [r]) == TotalCharge(live) + Charge(r)
  {
    assert (live + [r])[..|live|] == live;
  }

  /** Where the head goes: past the region, and to the next lap when that is the end. */
  function Wrapped(off: nat, len: nat, n: nat): nat
    requires n > 0
  {
    (off + len) % n
  }

  lemma WrapsOnce(off: nat, len: nat, n: nat)
    requires n > 0 && off < n && off + len <= n && off % 8 == 0 && len % 8 == 0
    ensures Wrapped(off, len, n) == if off + len == n then 0 else off + len
    ensures Wrapped(off, len, n) % 8 == 0
  {
    if off + len == n {
      ModSelf(n);
    } else {
      ModBelow(off + len, n);
    }
  }

  lemma ModSelf(n: nat)
    requires n > 0
    ensures n % n == 0
  {
  }

  lemma ModBelow(x: nat, n: nat)
    requires x < n
    ensures x % n == x
  {
  }

  /** The region an accepted request gets. */
  function NewRegion(lap: nat, head: nat, used: nat, n: nat, len: nat): Region
    requires Fits(head, used, n, len) && head < n
  {
    if Rewinds(head, used, n, len) then Region(lap + 1, 0, n - head, len) else Region(lap, head, 0, len)
  }

  lemma NewRegionFollows(lap: nat, head: nat, used: nat, n: nat, len: nat)
    requires Fits(head, used, n, len) && head < n && head % 8 == 0 && len % 8 == 0
    ensures var r := NewRegion(lap, head, used, n, len);
            && Placed(r, n) && At(r, n) == r.pad + Lap(lap, n) + head && used + Charge(r) <= n
            && Wrapped(r.off, len, n) < n && Wrapped(r.off, len, n) % 8 == 0
            && Lap(if r.off + len == n then r.lap + 1 else r.lap, n) + Wrapped(r.off, len, n) == At(r, n) + len
  {
    WrapsOnce(NewRegion(lap, head, used, n, len).off, len, n);
    hide Wrapped;
  }

  lemma Allocate(live: seq<Region>, lap: nat, head: nat, used: nat, n: nat, len: nat)
    requires Consistent(live, lap, head, used, n) && Fits(head, used, n, len) && len % 8 == 0
    ensures var r := NewRegion(lap, head, used, n, len);
            Consistent(live + [r], if r.off + len == n then r.lap + 1 else r.lap,
                       Wrapped(r.off, len, n), used + Charge(r), n)
  {
    NewRegionFollows(lap, head, used, n, len);
    var r := NewRegion(lap, head, used, n, len);
    assert r.len == len;
    hide Lap, Consecutive, Placed, At, Wrapped, NewRegion, Fits, TotalCharge;
    Extend(live, Lap(lap, n) + head - used, Lap(lap, n) + head, n, r);
    ExtendCharge(live, r);
    forall x | x in live + [r] ensures Placed(x, n) {
      assert x in live || x == r;
    }
  }

  /** The oldest stretch is taken off the line. */
  lemma Retire(live: seq<Region>, tail: nat, head: nat, n: nat)
    requires Consecutive(live, tail, head, n) && live != []
    ensures Consecutive(live[1..], tail + Charge(live[0]), head, n)
  {
    hide At;
    var rest := live[1..];
    var tail' := tail + Charge(live[0]);
    assert EndBefore(live, tail, 1, n) == tail' by {
      Ends(live, tail, head, n, 0);
    }
    forall i | 0 <= i <= |rest| ensures EndBefore(rest, tail', i, n) == EndBefore(live, tail, i + 1, n) {
      assert i > 0 ==> rest[i - 1] == live[i];
    }
    forall i | 0 <= i < |rest| ensures At(rest[i], n) == rest[i].pad + EndBefore(rest, tail', i, n) {
      assert rest[i] == live[i + 1];
    }
  }

  lemma Release(live: seq<Region>, lap: nat, head: nat, used: nat, n: nat)
    requires Consistent(live, lap, head, used, n) && live != []
    ensures Charge(live[0]) <= used
    ensures Consistent(live[1..], lap, head, used - Charge(live[0]), n)
  {
    hide Lap, Placed, Consecutive;
    DropFirst(live);
    Retire(live, Lap(lap, n) + head - used, Lap(lap, n) + head, n);
  }

  /** After a failed copy that had rewound the head, the counters no longer describe the live
      regions, on whatever lap one takes the head to be. */
  lemma RewoundIsInconsistent(live: seq<Region>, lap: nat, head: nat, used: nat, n: nat, k: nat)
    requires Consistent(live, lap, head, used, n) && live != [] && 0 < head
    ensures !Consistent(live, k, 0, used, n)
  {
    hide Placed, TotalCharge, Consecutive, EndBefore, Lap;
    Ends(live, Lap(lap, n) + head - used, Lap(lap, n) + head, n, |live| - 1);
    if k > lap {
      LapOrder(lap, k, n);
    } else if k < lap {
      LapOrder(k, lap, n);
    }
    if Consistent(live, k, 0, used, n) {
      Ends(live, Lap(k, n) - used, Lap(k, n), n, |live| - 1);
    }
  }

  /** The head a failed copy leaves behind. */
  function LeftHead(head: nat, used: nat, n: nat, len: nat): nat {
    if Rewinds(head, used, n, len) then 0 else head
  }

  /** After a failed copy the counters describe the live regions on some lap exactly when the head had
      not been rewound or nothing was live. */
  lemma FailedCopy(live: seq<Region>, lap: nat, head: nat, used: nat, n: nat, len: nat)
    requires Consistent(live, lap, head, used, n) && Fits(head, used, n, len)
    ensures (exists k: nat :: Consistent(live, k, LeftHead(head, used, n, len), used, n)) <==>
              FreeAtHead(lap, head, used, n, len) || live == []
  {
    RewindsIsNoRoom(lap, head, used, n, len);
    hide Consistent, FreeAtHead;
    if Rewinds(head, used, n, len) {
      if live == [] {
        EmptyUses(lap, head, used, n);
        Empty(n);
        assert Consistent(live, 0, LeftHead(head, used, n, len), used, n);
      } else {
        forall k: nat ensures !Consistent(live, k, 0, used, n) {
          RewoundIsInconsistent(live, lap, head, used, n, k);
        }
      }
    } else {
      assert Consistent(live, lap, LeftHead(head, used, n, len), used, n);
    }
  }

  lemma EmptyUses(lap: nat, head: nat, used: nat, n: nat)
    requires Consistent([], lap, head, used, n)
    ensures used == 0
  {
  }

  /** m_used after a release, which does not look whether it has that much. */
  function Released(used: nat, charge: nat): nat {
    (used - charge) % TWO_64
  }

  lemma ReleasedIs(used: nat, charge: nat)
    requires used < TWO_64 && charge < TWO_64
    ensures Released(used, charge) == if charge <= used then used - charge else used - charge + TWO_64
  {
  }

  /** Releasing a charge that no live region accounts for leaves counters that describe the live
      regions nowhere; if it was more than was in use, every copy is refused from then on. */
  lemma LeftoverRelease(live: seq<Region>, lap: nat, head: nat, used: nat, n: nat, charge: nat)
    requires Consistent(live, lap, head, used, n) && 0 < charge <= n < TWO_64 / 2
    ensures forall k: nat, h: nat :: !Consistent(live, k, h, Released(used, charge), n)
    ensures used < charge ==> forall h: nat, len: nat :: !Fits(h, Released(used, charge), n, len)
  {
    ReleasedIs(used, charge);
    hide Lap, Consecutive, Placed, Released;
  }

  lemma HeadAligned(live: seq<Region>, lap: nat, head: nat, used: nat, n: nat)
    requires Consistent(live, lap, head, used, n)
    ensures head % 8 == 0
  {
  }

  class Ring {
    const allocation: nat
    var head: nat
    var used: nat
    ghost var lap: nat
    ghost var live: seq<Region>

    ghost predicate Valid()
      reads this
    {
      Consistent(live, lap, head, used, allocation)
    }

    /** The configured size, rounded up to a multiple of 64. */
    constructor (size: nat)
      ensures Valid() && live == [] && used == 0 && head == 0
      ensures allocation == (size + 63) / 64 * 64
    {
      allocation := (size + 63) / 64 * 64;
      head, used, lap, live := 0, 0, 0, [];
      Empty((size + 63) / 64 * 64);
    }

    /** copy_data. `charge` is the dev_mem_length left in the buffer. A copy that fails after the
        head was rewound leaves the head at 0 and the skipped bytes charged to the buffer, with
        nothing allocated. */
    method CopyData(length: nat, copyOk: bool) returns (ok: bool, addr: nat, charge: nat)
      requires Valid() && length < TWO_32
      modifies this
      ensures ok <==> copyOk && Fits(old(head), old(used), allocation, Aligned8(length))
      ensures ok ==> Valid() && used == old(used) + charge
      ensures ok ==> exists r :: && live == old(live) + [r] && r.off == addr && r.len == Aligned8(length)
                                 && Charge(r) == charge
      ensures ok ==> && addr == LeftHead(old(head), old(used), allocation, Aligned8(length))
                     && addr + Aligned8(length) <= allocation
      ensures ok ==> var free := FreeAtHead(old(lap), old(head), old(used), allocation, Aligned8(length));
                     && addr == (if free then old(head) else 0)
                     && charge == Aligned8(length) + if free then 0 else allocation - old(head)
      ensures !copyOk && Fits(old(head), old(used), allocation, Aligned8(length)) ==>
                var free := FreeAtHead(old(lap), old(head), old(used), allocation, Aligned8(length));
                head == (if free then old(head) else 0) && charge == if free then 0 else allocation - old(head)
      ensures ok ==> head == if addr + Aligned8(length) == allocation then 0 else addr + Aligned8(length)
      ensures !ok ==> used == old(used) && live == old(live) && lap == old(lap)
      ensures !ok && (copyOk || !Rewinds(old(head), old(used), allocation, Aligned8(length))) ==>
                Valid() && head == old(head) && charge == 0
      ensures !ok && !copyOk && Rewinds(old(head), old(used), allocation, Aligned8(length)) ==>
                head == 0 && charge == allocation - old(head)
    {
      hide Lap, Consecutive, Placed, FreeAtHead;
      var len := Aligned8(length);
      if Fits(head, used, allocation, len) {
        RewindsIsNoRoom(lap, head, used, allocation, len);
      }
      charge, addr, ok := 0, 0, false;
      if used >= allocation {
        return;
      }
      if head >= used {
        var left := allocation - head;
        if left < len {
          if head - used >= len {
            head := 0;
            charge := left;
          } else {
            return;
          }
        }
      } else if allocation - used < len {
        return;
      }
      if !copyOk {
        return;
      }
      addr := head;
      charge := charge + len;
      Commit(old(head), len, charge);
      ok := true;
    }

    /** The counters after a copy that worked. */
    method Commit(ghost from: nat, len: nat, charge: nat)
      requires Consistent(live, lap, from, used, allocation) && Fits(from, used, allocation, len) && len % 8 == 0
      requires from < allocation && head == LeftHead(from, used, allocation, len)
      requires charge == Charge(NewRegion(lap, from, used, allocation, len))
      modifies this
      ensures Valid() && used == old(used) + charge
      ensures live == old(live) + [NewRegion(old(lap), from, old(used), allocation, len)]
      ensures old(head) + len <= allocation && head == if old(head) + len == allocation then 0 else old(head) + len
    {
      hide Consistent, Wrapped;
      HeadAligned(live, lap, from, used, allocation);
      Allocate(live, lap, from, used, allocation, len);
      ghost var r := NewRegion(lap, from, used, allocation, len);
      assert r.off == head && r.len == len;
      WrapsOnce(head, len, allocation);
      head := Wrapped(head, len, allocation);
      used := used + charge;
      lap := if r.off + len == allocation then r.lap + 1 else r.lap;
      live := live + [r];
    }

    /** release_data. The charge is that of the oldest live buffer, or what a copy that failed left in
        a buffer: nothing, or the bytes skipped by a rewind. */
    method ReleaseData(charge: nat, ghost oldest: bool)
      requires used < TWO_64 && charge < TWO_64
      modifies this
      ensures used == Released(old(used), charge) && used < TWO_64 && head == old(head) && lap == old(lap)
      ensures live == if oldest && old(live) != [] then old(live)[1..] else old(live)
      ensures old(Valid()) && oldest && old(live) != [] && charge == Charge(old(live)[0]) ==>
                Valid() && used == old(used) - charge
      ensures old(Valid()) && !oldest && charge == 0 ==> Valid() && used == old(used)
    {
      hide Consistent, Released;
      ReleasedIs(used, charge);
      if oldest && live != [] {
        if Valid() {
          Release(live, lap, head, used, allocation);
        }
        live := live[1..];
      }
      used := Released(used, charge);
    }
  }

  /** A run that ends with nothing live and every further copy refused: a copy, its release, a copy
      that fails after rewinding the head, and the release of what it left behind. */
  method RunDry() returns (r: Ring)
    ensures r.allocation == 64 && r.live == [] && r.used == TWO_64 - 16 && !r.Valid()
    ensures forall h: nat, len: nat :: !Fits(h, r.used, r.allocation, len)
  {
    hide Consistent;
    r := new Ring(64);
    var ok, addr, charge := r.CopyData(48, true);
    assert |r.live| == 1 && Charge(r.live[0]) == charge == 48 && r.used == 48 && r.head == 48;
    r.ReleaseData(charge, true);
    LeftoverRelease(r.live, r.lap, r.head, r.used, 64, 16);
    ok, addr, charge := r.CopyData(32, false);
    ReleasedIs(0, 16);
    hide Fits, Rewinds;
    r.ReleaseData(charge, false);
  }

  /** A run that ends with one region live and counters that fit it on no lap: two copies, the release of
      the first, and a copy that fails after rewinding the head. */
  method RunAstray() returns (r: Ring)
    ensures r.allocation == 64 && |r.live| == 1 && r.head == 0 && r.used == 16
    ensures forall k: nat :: !Consistent(r.live, k, r.head, r.used, r.allocation)
  {
    hide Consistent;
    r := new Ring(64);
    var ok, addr, first := r.CopyData(32, true);
    assert |r.live| == 1 && Charge(r.live[0]) == first == 32 && r.used == 32 && r.head == 32;
    var second;
    ok, addr, second := r.CopyData(16, true);
    assert |r.live| == 2 && Charge(r.live[0]) == first && r.used == 48 && r.head == 48;
    r.ReleaseData(first, true);
    ghost var lap, head := r.lap, r.head;
    ok, addr, second := r.CopyData(24, false);
    forall k: nat ensures !Consistent(r.live, k, r.head, r.used, r.allocation) {
      RewoundIsInconsistent(r.live, lap, head, r.used, r.allocation, k);
    }
  }
}

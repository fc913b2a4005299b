/**
 The global pool of free buffers (src/vma/dev/buffer_pool.cpp): a singly linked list threaded
 through the descriptors, and a count.
 */
module BufferPool {
  import opened MemBuf
  import CycleFinder
  import Options
  import opened Sequences

  ghost function Following(s: seq<Desc>, i: nat): Desc? {
    if i + 1 < |s| then s[i + 1] else null
  }

  /** `s` is the chain that starts at `head`, link by link, down to null. */
  ghost predicate IsChain(head: Desc?, s: seq<Desc>)
    reads s`next
  {
    && (head == if s == [] then null else s[0])
    && (forall i | 0 <= i < |s| :: s[i].next == Following(s, i))
  }

  /** What follows the i-th buffer when the last one leads back to the k-th. */
  ghost function Onward(s: seq<Desc>, i: nat, k: nat): Desc?
    requires k < |s|
  {
    if i + 1 < |s| then s[i + 1] else s[k]
  }

  /** `s` is what a walk from `head` meets before it comes back to `s[k]`, and so never ends. */
  ghost predicate Loops(head: Desc?, s: seq<Desc>, k: nat)
    reads s`next
  {
    && k < |s| && head == s[0]
    && forall i | 0 <= i < |s| :: s[i].next == Onward(s, i, k)
  }

  function Reversed<T>(s: seq<T>): (r: seq<T>)
    ensures |r| == |s|
    ensures multiset(r) == multiset(s)
  {
    if s == [] then []
    else
      assert s == s[..|s| - 1] + [s[|s| - 1]];
      [s[|s| - 1]] + Reversed(s[..|s| - 1])
  }

  /** All buffers of some chains. */
  ghost function Buffers(chains: seq<seq<Desc>>): set<Desc> {
    set i, d | 0 <= i < |chains| && d in chains[i] :: d
  }

  /** The chains one after the other, each reversed. */
  ghost function Stacked(chains: seq<seq<Desc>>): seq<Desc> {
    if chains == [] then [] else Reversed(chains[0]) + Stacked(chains[1..])
  }

  /** No buffer is in two of the chains, twice in one, or in `s`. */
  ghost predicate Separate(s: seq<Desc>, chains: seq<seq<Desc>>) {
    && (forall i | 0 <= i < |chains| :: Distinct(s + chains[i]))
    && (forall i, j, d | 0 <= i < j < |chains| && d in chains[i] :: d !in chains[j])
  }

  class Pool {
    var head: Desc?
    var n: int
    const created: nat
    /** The list, first buffer first, and every buffer the pool was created with. */
    ghost var free: seq<Desc>
    ghost var members: set<Desc>
    /** Where the list comes back to, once it has become a circle. */
    ghost var loop: nat

    ghost predicate Valid()
      reads this, free`next
    {
      n == |free| && |members| == created && Linked()
    }

    ghost predicate Linked()
      reads this, free`next
    {
      Distinct(free) && (forall d | d in free :: d in members) && IsChain(head, free)
    }

    /** The list has become a circle, and counts more buffers than are on it. */
    ghost predicate Circular()
      reads this, free`next
    {
      (forall d | d in free :: d in members) && Loops(head, free, loop) && n > |free|
    }

    /** A pool never counts more buffers than it was created with. */
    lemma Counted()
      requires Valid()
      ensures n <= created
    {
      DistinctSize(free, members);
    }

    lemma NothingPut()
      requires head == null && free == []
      ensures Distinct(free) && IsChain(head, free)
    {
    }

    lemma FirstIs()
      ensures Linked() && free != [] ==> head == free[0]
    {
    }

    lemma FreeOnce()
      requires Valid()
      ensures Distinct(free) && forall d | d in free :: d in members
    {
    }

    /** Creates the buffers and puts them in one by one. */
    constructor (created: nat)
      ensures Valid() && n == created && fresh(members) && this.created == created
      ensures forall d | d in members :: d in free
    {
      head, n, free, members, loop := null, 0, [], {}, 0;
      this.created := created;
      new;
      hide IsChain, Distinct;
      NothingPut();
      var i := 0;
      while i < created
        invariant 0 <= i <= created && n == i && n == |free| && |members| == i && Linked()
        invariant fresh(members) && forall d | d in members :: d in free
      {
        var d := new Desc();
        assert d !in members && d !in free;
        members := members + {d};
        PutOne(d);
        i := i + 1;
      }
    }

    /** put_buffer_helper */
    method Link(d: Desc)
      modifies this`head, this`n, d`next, d`pbufRefs
      ensures head == d && n == old(n) + 1 && d.next == old(head) && d.pbufRefs == 0
    {
      d.next := head;
      d.pbufRefs := 0;
      head := d;
      n := n + 1;
    }

    /** The same on a buffer that is not on the list. */
    method PutOne(d: Desc)
      requires n == |free| && Linked() && d !in free && d in members
      modifies this`head, this`n, this`free, d`next, d`pbufRefs
      ensures n == |free| && Linked() && free == [d] + old(free)
      ensures d.pbufRefs == 0
    {
      Link(d);
      forall i | 0 <= i < |free| ensures free[i].next == Following(free, i) {
        assert free[i] != d && free[i].next == old(free[i].next);
      }
      ChainOfOne(old(head), d, free);
      free := [d] + free;
    }

    /** The walk of put_buffers over a chain, wherever its buffers are now: the successor is read
        before the buffer is relinked, so the whole chain arrives, last buffer first. */
    method Walk(list: Desc?, ghost chain: seq<Desc>)
      requires IsChain(list, chain) && Distinct(chain)
      modifies this`head, this`n, chain`next, chain`pbufRefs
      ensures n == old(n) + |chain| && head == Before(chain, |chain|, old(head))
      ensures forall i | 0 <= i < |chain| :: chain[i].next == Before(chain, i, old(head)) && chain[i].pbufRefs == 0
    {
      hide Distinct;
      var p := list;
      ghost var i := 0;
      while p != null
        invariant 0 <= i <= |chain| && (p == if i < |chain| then chain[i] else null)
        invariant n == old(n) + i && head == Before(chain, i, old(head))
        invariant forall j | i <= j < |chain| :: chain[j].next == Following(chain, j)
        invariant forall j | 0 <= j < i :: chain[j].next == Before(chain, j, old(head)) && chain[j].pbufRefs == 0
        decreases |chain| - i
      {
        var next := p.next;
        OthersDiffer(chain, i);
        Link(p);
        p := next;
        i := i + 1;
      }
    }

    /** The walk leaves a chain it does not meet as it is. */
    method WalkApart(list: Desc?, ghost chain: seq<Desc>, ghost from: Desc?, ghost s: seq<Desc>)
      requires IsChain(list, chain) && Distinct(chain) && IsChain(from, s) && forall d | d in chain :: d !in s
      modifies this`head, this`n, chain`next, chain`pbufRefs
      ensures n == old(n) + |chain| && head == Before(chain, |chain|, old(head))
      ensures forall i | 0 <= i < |chain| :: chain[i].next == Before(chain, i, old(head)) && chain[i].pbufRefs == 0
      ensures IsChain(from, s)
    {
      hide Distinct, Before;
      Walk(list, chain);
      forall i | 0 <= i < |s| ensures s[i].next == Following(s, i) {
        assert s[i] !in chain && s[i].next == old(s[i].next);
      }
    }

    /** On a chain of buffers that are not on the list. */
    method PutChain(list: Desc?, ghost chain: seq<Desc>)
      requires Valid() && IsChain(list, chain) && Distinct(free + chain)
      requires forall d | d in chain :: d in members
      modifies this`head, this`n, this`free, chain`next, chain`pbufRefs
      ensures Valid() && free == Reversed(chain) + old(free)
      ensures forall d | d in chain :: d.pbufRefs == 0
    {
      hide Reversed, Distinct, Before, IsChain;
      DistinctParts(free, chain);
      WalkApart(list, chain, head, free);
      StackedChain(old(head), head, chain, free);
      StackedDistinct(free, chain);
      free := Reversed(chain) + free;
    }

    /** put_buffers on a chain. `panic` says whether buffersPanic would be called. */
    method PutList(list: Desc?, ghost chain: seq<Desc>) returns (panic: bool)
      requires Valid() && IsChain(list, chain) && Distinct(free + chain)
      requires forall d | d in chain :: d in members
      modifies this`head, this`n, this`free, chain`next, chain`pbufRefs
      ensures Valid() && free == Reversed(chain) + old(free) && !panic
      ensures forall d | d in chain :: d.pbufRefs == 0
    {
      hide IsChain, Reversed;
      PutChain(list, chain);
      Counted();
      panic := n > created;
    }

    /** get_buffers_thread_safe: all or nothing. The first `count` buffers of the list go to the
        back of `queue`, unlinked and marked with their new owner. */
    method GetBuffers(queue: seq<Desc>, owner: nat, count: nat) returns (ok: bool, q: seq<Desc>)
      requires Valid()
      modifies this`head, this`n, this`free, free
      ensures Valid()
      ensures ok <==> count <= |old(free)|
      ensures !ok ==> q == queue && free == old(free)
      ensures ok ==> q == queue + old(free)[..count] && free == old(free)[count..]
      ensures ok ==> forall d | d in old(free)[..count] :: d.next == null && d.owner == owner
    {
      if n < count {
        return false, queue;
      }
      ghost var start := free;
      hide IsChain;
      n := n - count;
      q := queue;
      var i := 0;
      while i < count
        invariant 0 <= i <= count <= |start|
        invariant n == |start| - count && free == start[i..]
        invariant Distinct(start) && Linked() && q == queue + start[..i]
        invariant forall d | d in start[..i] :: d.next == null && d.owner == owner
      {
        NextTaken(start, queue, i);
        var d := Unlink(owner);
        q := q + [d];
        i := i + 1;
      }
      ok := true;
    }

    /** Takes the first buffer off the list; the caller has already lowered the count. */
    method Unlink(owner: nat) returns (d: Desc)
      requires Linked() && free != []
      modifies this`head, this`free, free[0]
      ensures Linked() && d == old(free[0]) && free == old(free)[1..]
      ensures d.next == null && d.owner == owner
    {
      d := head;
      head := head.next;
      d.next := null;
      d.owner := owner;
      free := free[1..];
    }

    /** Putting one chain leaves others as they are. */
    method PutApart(list: Desc, ghost chain: seq<Desc>, ghost queue: seq<Desc>, ghost chains: seq<seq<Desc>>)
      requires Valid() && IsChain(list, chain) && Distinct(free + chain)
      requires forall d | d in chain :: d in members
      requires |chains| == |queue| && forall i | 0 <= i < |queue| :: IsChain(queue[i], chains[i])
      requires forall i, d | 0 <= i < |chains| && d in chains[i] :: d !in chain
      modifies this`head, this`n, this`free, chain`next, chain`pbufRefs
      ensures Valid() && free == Reversed(chain) + old(free)
      ensures forall i | 0 <= i < |queue| :: IsChain(queue[i], chains[i])
    {
      hide Reversed, Linked, Distinct;
      PutChain(list, chain);
      forall i | 0 <= i < |queue| ensures IsChain(queue[i], chains[i]) {
        assert old(IsChain(queue[i], chains[i]));
        forall j | 0 <= j < |chains[i]| ensures chains[i][j].next == Following(chains[i], j) {
          assert chains[i][j] in chains[i] && chains[i][j] !in chain;
          assert chains[i][j].next == old(chains[i][j].next);
        }
      }
    }

    /** put_buffers on a queue whose entries may head chains: at most `count` entries, taken from the
        back. */
    method PutQueue(queue: seq<Desc>, count: nat, ghost chains: seq<seq<Desc>>) returns (q: seq<Desc>, panic: bool)
      requires Valid() && Separate(free, chains) && Buffers(chains) <= members
      requires |chains| == |queue| && forall i | 0 <= i < |queue| :: IsChain(queue[i], chains[i])
      modifies this`head, this`n, this`free, Buffers(chains)`next, Buffers(chains)`pbufRefs
      ensures Valid() && !panic
      ensures var k := if count < |queue| then |queue| - count else 0;
              && q == queue[..k] && free == Stacked(chains[k..]) + old(free)
              && forall i | 0 <= i < k :: IsChain(q[i], chains[i])
    {
      var amount := if count < |queue| then count else |queue|;
      q := queue;
      ghost var start := free;
      hide IsChain, Reversed, Stacked, Separate;
      assert Stacked(chains[|q|..]) + start == start by { StackedEnd(chains, start); }
      while amount > 0
        invariant 0 <= amount <= |q| <= |queue| && q == queue[..|q|]
        invariant |q| - amount == if count < |queue| then |queue| - count else 0
        invariant Valid() && free == Stacked(chains[|q|..]) + start
        invariant forall i | 0 <= i < |q| :: IsChain(queue[i], chains[i])
      {
        var m := |q| - 1;
        StackedNext(start, chains, m);
        var last := q[m];
        q := q[..m];
        assert forall d | d in chains[m] :: d in Buffers(chains);
        PutApart(last, chains[m], queue[..m], chains[..m]);
        assert forall i | 0 <= i < m :: IsChain(queue[..m][i], chains[..m][i]) && queue[..m][i] == queue[i];
        amount := amount - 1;
      }
      Counted();
      panic := n > created;
    }

    /** The same on a queue of single buffers. */
    method PutLoose(queue: seq<Desc>, count: nat) returns (q: seq<Desc>, panic: bool)
      requires Valid() && Distinct(free + queue) && Loose(queue) && forall d | d in queue :: d in members
      modifies this`head, this`n, this`free, queue`next, queue`pbufRefs
      ensures Valid() && !panic
      ensures var k := if count < |queue| then |queue| - count else 0;
              q == queue[..k] && free == queue[k..] + old(free) && Loose(q)
    {
      ghost var chains := Singles(queue);
      SinglesSeparate(free, queue);
      ghost var k := if count < |queue| then |queue| - count else 0;
      assert chains[k..] == Singles(queue[k..]);
      SinglesStacked(queue[k..]);
      hide Separate, Stacked, Linked;
      q, panic := PutQueue(queue, count, chains);
    }

    // ---------- buffers that are on the list already ----------

    /** What put_buffers walks over when it is given `d`: all that follows it when it is on the list
        already, from its i-th place on; otherwise `d` alone. */
    ghost function Reached(d: Desc, i: int): seq<Desc>
      reads `free
    {
      if 0 <= i < |free| then free[i..] else [d]
    }

    /** `i` says where the buffer is on the list; it is the length of the list when it is not there,
        and -1 when the list is a circle already. */
    ghost predicate Entry(d: Desc, i: int)
      reads this, free`next, d`next
    {
      && -1 <= i <= |free| && d in members && (i < 0 || i == |free| ==> d.next == null)
      && if i < 0 then Circular() else Valid() && if i < |free| then d == free[i] else d !in free
    }

    lemma CircularNeverEnds()
      requires Circular()
      ensures forall s :: !IsChain(head, s)
    {
      forall s ensures !IsChain(head, s) {
        CircleNeverEnds(head, free, loop, s);
      }
    }

    lemma CircleLinked()
      requires Circular()
      ensures forall d | d in free :: d.next != null
    {
      forall j | 0 <= j < |free| ensures free[j].next != null {
        assert free[j].next == Onward(free, j, loop);
      }
    }

    lemma ReachedIs(d: Desc, i: int)
      requires Entry(d, i)
      ensures IsChain(d, Reached(d, i)) && Distinct(Reached(d, i))
      ensures forall x | x in Reached(d, i) :: x == d || x in free
      ensures i < 0 ==> d !in free
      ensures 0 <= i < |free| ==> forall j | 0 <= j < i :: free[j].next == free[j + 1] && free[j] !in free[i..]
    {
      if 0 <= i < |free| {
        TailIsChain(head, free, i);
      } else if i < 0 {
        CircleLinked();
      }
    }

    /** The walk, and what it leaves of the links of the list. */
    method WalkEntry(d: Desc, ghost i: int)
      requires Entry(d, i)
      modifies this`head, this`n, d`next, d`pbufRefs, free`next, free`pbufRefs
      ensures var chain := Reached(d, i);
              && n == old(n) + |chain| && head == Before(chain, |chain|, old(head))
              && forall j | 0 <= j < |chain| :: chain[j].next == Before(chain, j, old(head))
      ensures i == |free| ==> IsChain(old(head), free)
      ensures 0 <= i < |free| ==> forall j | 0 <= j < i :: free[j].next == free[j + 1]
      ensures i < 0 ==> Loops(old(head), free, loop)
    {
      hide Distinct, Before;
      ReachedIs(d, i);
      Walk(d, Reached(d, i));
      forall j | 0 <= j < |free| && free[j] !in Reached(d, i) ensures free[j].next == old(free[j].next) {
      }
    }

    /** The list stays a chain if and only if it was one and the buffer was not on it. */
    method PutEntry(d: Desc, ghost i: int)
      requires Entry(d, i)
      modifies this`head, this`n, this`free, this`loop, d`next, d`pbufRefs, free`next, free`pbufRefs
      ensures if i == |old(free)| then Valid() && free == [d] + old(free) else Circular()
      ensures n == old(n) + if 0 <= i < |old(free)| then |old(free)| - i else 1
      ensures forall x | x in free :: x == d || x in old(free)
    {
      hide Reversed, Loops, IsChain, Before, Distinct;
      ghost var s, from := free, head;
      assert i >= 0 && s != [] ==> from == s[0] by { FirstIs(); }
      WalkEntry(d, i);
      if i < 0 {
        BeforeOne(d, from);
        CircleGrown(from, s, loop, d);
        free, loop := [d] + free, loop + 1;
      } else if i < |s| {
        LastBefore(s, i);
        CircleClosed(head, s, i);
        TurnedOver(s, i);
        free, loop := Reversed(s[i..]) + s[..i], |s| - i - 1;
      } else {
        BeforeOne(d, from);
        ChainOfOne(from, d, s);
        free := [d] + free;
      }
    }

    /** The queue can be put back: its buffers are unlinked and not on the list, except that the j-th
        one is put twice. There is no such buffer when j is the length of the queue, and the list is a
        circle already when j is -1. */
    ghost predicate Fits(queue: seq<Desc>, j: int)
      reads this, free`next, queue`next
    {
      && -1 <= j <= |queue| && (forall d | d in queue :: d in members)
      && (forall i | 0 <= i < |queue| && i != j :: queue[i].next == null)
      && (if j < 0 then Circular() else Valid())
      && Single(if j < 0 then [] else free, queue, j)
    }


    ghost function Span(queue: seq<Desc>): set<Desc>
      reads `free
    {
      (set d | d in queue) + set d | d in free
    }

    /** put_buffers on one buffer. */
    method PutAnywhere(list: Desc, ghost i: int) returns (panic: bool)
      requires Entry(list, i)
      modifies this`head, this`n, this`free, this`loop, list`next, list`pbufRefs, free`next, free`pbufRefs
      ensures if i == |old(free)| then Valid() && free == [list] + old(free) else Circular()
      ensures n == old(n) + if 0 <= i < |old(free)| then |old(free)| - i else 1
      ensures panic == (n > created) && forall x | x in free :: x == list || x in old(free)
    {
      hide Entry, Valid, Circular;
      PutEntry(list, i);
      panic := n > created;
    }

    /** The count can exceed the number created only on a circle. */
    lemma NoPanic(queue: seq<Desc>, j: int)
      requires Fits(queue, j)
      ensures n > created ==> Circular()
    {
      if j >= 0 {
        Counted();
      }
    }

    /** put_buffers on such a queue: the list is a chain afterwards if and only if it was one before and
        the buffer that comes twice has not been put a second time. */
    method PutBack(queue: seq<Desc>, count: nat, ghost j: int) returns (q: seq<Desc>, panic: bool)
      requires -1 <= j <= |queue| && Fits(queue, j)
      modifies this`head, this`n, this`free, this`loop, Span(queue)`next, Span(queue)`pbufRefs
      ensures var k := if count < |queue| then |queue| - count else 0;
              && q == queue[..k] && Fits(q, Due(j, k, |queue|))
              && (Due(j, k, |queue|) >= 0 ==> free == queue[k..] + old(free))
      ensures Span(q) <= old(Span(queue)) && panic == (n > created) && (panic ==> Circular())
    {
      hide Valid, Circular, Single, Fits, Span;
      var amount := if count < |queue| then count else |queue|;
      q := queue;
      NothingBack(queue, free);
      while amount > 0
        invariant 0 <= amount <= |q| <= |queue| && q == queue[..|q|]
        invariant |q| - amount == if count < |queue| then |queue| - count else 0
        invariant Fits(q, Due(j, |q|, |queue|))
        invariant Due(j, |q|, |queue|) >= 0 ==> free == queue[|q|..] + old(free)
        invariant Span(q) <= old(Span(queue))
      {
        var m := |q| - 1;
        PutLast(q, Due(j, |q|, |queue|));
        OneBack(queue, m, old(free));
        q := q[..m];
        amount := amount - 1;
      }
      NoPanic(q, Due(j, |q|, |queue|));
      panic := n > created;
    }

    /** The last entry of the queue. */
    method PutLast(q: seq<Desc>, ghost j: int)
      requires Fits(q, j) && q != []
      modifies this`head, this`n, this`free, this`loop, Span(q)`next, Span(q)`pbufRefs
      ensures Fits(q[..|q| - 1], Due(j, |q| - 1, |q|))
      ensures Due(j, |q| - 1, |q|) >= 0 ==> free == [q[|q| - 1]] + old(free)
      ensures Span(q[..|q| - 1]) <= old(Span(q))
    {
      hide Valid, Circular, Single;
      var m := |q| - 1;
      ghost var i := PlaceOf(q, j);
      ghost var s := free;
      PutEntry(q[m], i);
      forall k | 0 <= k < m && k != j ensures q[k].next == null {
        assert q[k].next == old(q[k].next);
      }
      SingleNext(if j < 0 then [] else s, q, j);
    }

    /** Where the last entry is on the list; the others that are not put twice are not there. */
    lemma PlaceOf(q: seq<Desc>, j: int) returns (i: int)
      requires Fits(q, j) && q != []
      ensures Entry(q[|q| - 1], i) && (i == |free| <==> Due(j, |q| - 1, |q|) >= 0)
      ensures forall k | 0 <= k < |q| - 1 && k != j :: q[k] != q[|q| - 1] && q[k] !in free
    {
      var d := q[|q| - 1];
      if j < 0 {
        i := -1;
        CircleLinked();
      } else if j == |q| - 1 {
        i :| 0 <= i < |free| && free[i] == d;
      } else {
        i := |free|;
      }
    }
  }

  /** Where the repeated entry is once the queue has shrunk to length k: `n` was its length. */
  function Due(j: int, k: nat, n: nat): int {
    if j == n then k else if j < k then j else -1
  }

  /** Apart from the j-th, buffers occur once and not in `s`; the j-th is in `s` or occurs later. */
  ghost predicate Single(s: seq<Desc>, queue: seq<Desc>, j: int) {
    && (forall i, m | 0 <= i < m < |queue| && i != j && m != j :: queue[i] != queue[m])
    && (forall i | 0 <= i < |queue| && i != j :: queue[i] !in s)
    && (0 <= j < |queue| ==> queue[j] in s || queue[j] in queue[j + 1..])
  }

  /** What lies below the i-th buffer of a chain once it has been put on a list. */
  ghost function Before(chain: seq<Desc>, i: nat, head: Desc?): Desc?
    requires i <= |chain|
  {
    if i == 0 then head else chain[i - 1]
  }

  lemma NothingBack(queue: seq<Desc>, free: seq<Desc>)
    ensures queue[..|queue|] == queue && queue[|queue|..] + free == free
  {
  }

  lemma OneBack(queue: seq<Desc>, m: nat, free: seq<Desc>)
    requires m < |queue|
    ensures queue[..m + 1][..m] == queue[..m] && queue[..m + 1][m] == queue[m]
    ensures [queue[m]] + (queue[m + 1..] + free) == queue[m..] + free
  {
  }

  lemma SingleNext(s: seq<Desc>, q: seq<Desc>, j: int)
    requires Single(s, q, j) && q != [] && -1 <= j <= |q|
    ensures var m, j' := |q| - 1, Due(j, |q| - 1, |q|);
            Single(if j' < 0 then [] else [q[m]] + s, q[..m], j')
  {
    var m, j' := |q| - 1, Due(j, |q| - 1, |q|);
    if 0 <= j' < m && q[j] !in s && q[j] != q[m] {
      var k :| j < k < |q| && q[k] == q[j];
      assert q[..m][j + 1..][k - j - 1] == q[j];
    }
  }

  lemma BeforeOne(d: Desc, from: Desc?)
    ensures |[d]| == 1 && [d][0] == d && Before([d], 0, from) == from && Before([d], 1, from) == d
  {
  }

  lemma ChainOfOne(from: Desc?, d: Desc, s: seq<Desc>)
    requires IsChain(from, s) && d.next == from && Distinct(s) && d !in s
    ensures IsChain(d, [d] + s) && Distinct([d] + s)
  {
    var t := [d] + s;
    forall i | 0 <= i < |t| ensures t[i].next == Following(t, i) {
      if i > 0 {
        assert t[i] == s[i - 1];
      }
    }
  }

  lemma LastBefore(s: seq<Desc>, i: nat)
    requires i < |s|
    ensures Before(s[i..], |s[i..]|, s[0]) == s[|s| - 1]
  {
  }

  lemma TailIsChain(head: Desc?, s: seq<Desc>, i: nat)
    requires Distinct(s) && IsChain(head, s) && i < |s|
    ensures IsChain(s[i], s[i..]) && Distinct(s[i..])
    ensures forall j | 0 <= j < i :: s[j].next == s[j + 1] && s[j] !in s[i..]
  {
    forall j | 0 <= j < i ensures s[j].next == s[j + 1] {
      assert s[j].next == Following(s, j);
    }
  }

  /** The part of a list from its i-th buffer on, put on top of it once more. */
  lemma CircleClosed(head: Desc?, s: seq<Desc>, i: nat)
    requires i < |s| && head == s[|s| - 1]
    requires forall j | 0 <= j < |s| - i :: s[i..][j].next == Before(s[i..], j, s[0])
    requires forall j | 0 <= j < i :: s[j].next == s[j + 1]
    ensures Loops(head, Reversed(s[i..]) + s[..i], |s| - i - 1)
  {
    hide Reversed;
    var tail, t := s[i..], Reversed(s[i..]) + s[..i];
    ReversedAll(tail);
    forall j | 0 <= j < |t| ensures t[j].next == Onward(t, j, |tail| - 1) {
      if j < |tail| {
        var m := |tail| - 1 - j;
        assert t[j] == tail[m] && tail[m].next == Before(tail, m, s[0]);
      } else {
        assert t[j] == s[j - |tail|];
      }
    }
  }

  lemma TurnedOver(s: seq<Desc>, i: nat)
    requires i < |s|
    ensures forall d | d in Reversed(s[i..]) + s[..i] :: d in s
  {
    hide Reversed;
    ReversedAll(s[i..]);
  }

  lemma CircleGrown(from: Desc?, s: seq<Desc>, k: nat, d: Desc)
    requires Loops(from, s, k) && d.next == from
    ensures Loops(d, [d] + s, k + 1)
  {
    var t := [d] + s;
    forall i | 0 <= i < |t| ensures t[i].next == Onward(t, i, k + 1) {
      if i > 0 {
        assert t[i] == s[i - 1] && s[i - 1].next == Onward(s, i - 1, k);
      }
    }
  }

  /** A walk over a circle never ends. */
  lemma CircleNeverEnds(head: Desc?, s: seq<Desc>, k: nat, t: seq<Desc>)
    requires Loops(head, s, k)
    ensures !IsChain(head, t)
  {
    if IsChain(head, t) {
      StaysOn(head, s, k, t, |t| - 1);
    }
  }

  lemma {:induction false} StaysOn(head: Desc?, s: seq<Desc>, k: nat, t: seq<Desc>, i: nat)
    requires Loops(head, s, k) && IsChain(head, t) && i < |t|
    ensures t[i] in s
  {
    if i > 0 {
      StaysOn(head, s, k, t, i - 1);
      var j :| 0 <= j < |s| && s[j] == t[i - 1];
      assert t[i - 1].next == Following(t, i - 1) && s[j].next == Onward(s, j, k);
    }
  }

  lemma OthersDiffer<T>(s: seq<T>, i: nat)
    requires Distinct(s) && i < |s|
    ensures forall j | 0 <= j < |s| && j != i :: s[j] != s[i]
  {
  }

  lemma {:induction false} ReversedAt<T>(s: seq<T>, i: nat)
    requires i < |s|
    ensures Reversed(s)[i] == s[|s| - 1 - i]
  {
    if i > 0 {
      ReversedAt(s[..|s| - 1], i - 1);
    }
  }

  lemma ReversedAll<T>(s: seq<T>)
    ensures forall i | 0 <= i < |s| :: Reversed(s)[i] == s[|s| - 1 - i]
  {
    forall i | 0 <= i < |s| ensures Reversed(s)[i] == s[|s| - 1 - i] {
      ReversedAt(s, i);
    }
  }

  lemma DistinctParts<T>(s: seq<T>, t: seq<T>)
    requires Distinct(s + t)
    ensures Distinct(s) && Distinct(t) && forall d | d in t :: d !in s
  {
    var both := s + t;
    assert forall i | 0 <= i < |s| :: both[i] == s[i];
    assert forall i | 0 <= i < |t| :: both[|s| + i] == t[i];
  }

  /** A chain put on top of another: one chain. */
  lemma StackedChain(from: Desc?, head: Desc?, chain: seq<Desc>, s: seq<Desc>)
    requires IsChain(from, s) && head == Before(chain, |chain|, from)
    requires forall i | 0 <= i < |chain| :: chain[i].next == Before(chain, i, from)
    ensures IsChain(head, Reversed(chain) + s)
  {
    hide Reversed;
    var r, t := Reversed(chain), Reversed(chain) + s;
    ReversedAll(chain);
    ReversedLinks(from, chain, s);
    forall i | |r| <= i < |t| ensures t[i].next == Following(t, i) {
      assert t[i] == s[i - |r|];
    }
  }

  /** The links of a chain that was put on top of `s`. */
  lemma ReversedLinks(from: Desc?, chain: seq<Desc>, s: seq<Desc>)
    requires from == if s == [] then null else s[0]
    requires forall i | 0 <= i < |chain| :: chain[i].next == Before(chain, i, from)
    ensures forall i | 0 <= i < |chain| :: Reversed(chain)[i].next == Following(Reversed(chain) + s, i)
  {
    hide Reversed;
    var t := Reversed(chain) + s;
    ReversedAll(chain);
    forall i | 0 <= i < |chain| ensures Reversed(chain)[i].next == Following(t, i) {
      var j := |chain| - 1 - i;
      assert chain[j].next == Before(chain, j, from);
    }
  }

  lemma StackedDistinct(s: seq<Desc>, chain: seq<Desc>)
    requires Distinct(s) && Distinct(chain) && forall d | d in chain :: d !in s
    ensures Distinct(Reversed(chain) + s)
    ensures forall d | d in Reversed(chain) :: d in chain
  {
    hide Reversed;
    ReversedAll(chain);
    DistinctConcat(Reversed(chain), s);
  }

  /** None of the buffers is linked to another. */
  ghost predicate Loose(s: seq<Desc>)
    reads s`next
  {
    forall i | 0 <= i < |s| :: s[i].next == null
  }

  lemma SinglesSeparate(s: seq<Desc>, queue: seq<Desc>)
    requires Distinct(s + queue)
    ensures Separate(s, Singles(queue))
    ensures forall d :: d in Buffers(Singles(queue)) <==> d in queue
  {
    var all, chains := s + queue, Singles(queue);
    assert forall j | 0 <= j < |s| :: all[j] == s[j];
    assert forall j | 0 <= j < |queue| :: all[|s| + j] == queue[j];
    forall d | d in queue ensures d in Buffers(chains) {
      var i :| 0 <= i < |queue| && queue[i] == d;
      assert d in chains[i];
    }
  }

  lemma DistinctSize<T>(s: seq<T>, all: set<T>)
    requires Distinct(s) && forall d | d in s :: d in all
    ensures |s| <= |all|
  {
    if s != [] {
      var last := s[|s| - 1];
      DistinctSize(s[..|s| - 1], all - {last});
    }
  }

  lemma StackedEnd(chains: seq<seq<Desc>>, start: seq<Desc>)
    ensures Stacked(chains[|chains|..]) + start == start
  {
  }

  lemma {:induction false} StackedHas(chains: seq<seq<Desc>>, d: Desc)
    ensures d in Stacked(chains) <==> exists i :: 0 <= i < |chains| && d in chains[i]
  {
    if chains != [] {
      StackedHas(chains[1..], d);
      assert d in Reversed(chains[0]) <==> d in multiset(Reversed(chains[0]));
      assert forall i | 0 < i < |chains| :: chains[i] == chains[1..][i - 1];
    }
  }

  /** The chain before those already put is apart from what is on the list by then. */
  lemma StackedNext(start: seq<Desc>, chains: seq<seq<Desc>>, m: nat)
    requires m < |chains| && Separate(start, chains)
    requires Distinct(Stacked(chains[m + 1..]) + start)
    ensures Stacked(chains[m..]) + start == Reversed(chains[m]) + (Stacked(chains[m + 1..]) + start)
    ensures Distinct(Stacked(chains[m + 1..]) + start + chains[m])
    ensures forall i, d | 0 <= i < m && d in chains[i] :: d !in chains[m]
  {
    assert chains[m..][1..] == chains[m + 1..];
    var put := Stacked(chains[m + 1..]);
    forall d | d in chains[m] ensures d !in put + start {
      NotStacked(start, chains, m, d);
    }
    ApartOf(start, chains[m], null);
    hide Stacked, Separate, Reversed;
    DistinctConcat(put + start, chains[m]);
  }

  lemma NotStacked(start: seq<Desc>, chains: seq<seq<Desc>>, m: nat, d: Desc)
    requires m < |chains| && Separate(start, chains) && d in chains[m]
    ensures d !in Stacked(chains[m + 1..]) && d !in start
  {
    var rest := chains[m + 1..];
    StackedHas(rest, d);
    hide Stacked;
    assert forall i | 0 <= i < |rest| :: rest[i] == chains[m + 1 + i];
    ApartOf(start, chains[m], d);
  }

  lemma DistinctConcat<T>(a: seq<T>, b: seq<T>)
    requires Distinct(a) && Distinct(b) && forall d | d in b :: d !in a
    ensures Distinct(a + b)
  {
    forall i, j | 0 <= i < j < |a + b| ensures (a + b)[i] != (a + b)[j] {
      if i < |a| <= j {
        assert b[j - |a|] in b && a[i] in a;
      }
    }
  }

  lemma ApartOf(s: seq<Desc>, t: seq<Desc>, d: Desc?)
    requires Distinct(s + t)
    ensures d in t ==> d !in s
    ensures Distinct(t)
  {
    var all := s + t;
    assert forall j | 0 <= j < |s| :: all[j] == s[j];
    assert forall j | 0 <= j < |t| :: all[|s| + j] == t[j];
  }

  /** Chains of one buffer each. */
  ghost function Singles(queue: seq<Desc>): (c: seq<seq<Desc>>)
    ensures |c| == |queue| && forall i | 0 <= i < |queue| :: c[i] == [queue[i]]
  {
    seq(|queue|, i requires 0 <= i < |queue| => [queue[i]])
  }

  lemma {:induction false} SinglesStacked(queue: seq<Desc>)
    ensures Stacked(Singles(queue)) == queue
  {
    if queue != [] {
      SinglesStacked(queue[1..]);
      assert Singles(queue)[1..] == Singles(queue[1..]);
      assert Reversed([queue[0]]) == [queue[0]];
    }
  }

  lemma NextTaken(start: seq<Desc>, queue: seq<Desc>, i: nat)
    requires Distinct(start) && i < |start|
    ensures start[i] !in start[..i]
    ensures start[..i + 1] == start[..i] + [start[i]] && start[i..][1..] == start[i + 1..]
    ensures queue + start[..i + 1] == queue + start[..i] + [start[i]]
  {
  }

  // ---------- a pool's list has no circle ----------

  ghost function Members(s: seq<Desc>): set<Desc> {
    set d | d in s
  }

  lemma {:induction false} ChainAt(s: seq<Desc>, i: nat)
    requires s != [] && IsChain(s[0], s) && i < |s|
    ensures CycleFinder.At(CycleFinder.LinksOf(Members(s)), s[0], i) == Options.Some(s[i])
  {
    if i > 0 {
      ChainAt(s, i - 1);
      assert s[i - 1] in Members(s);
    }
  }

  /** buffersPanic never finds a circle in a valid pool: its list ends after `n` buffers. */
  lemma FreeListEnds(s: seq<Desc>)
    requires s != [] && IsChain(s[0], s)
    ensures CycleFinder.ClosedSet(Members(s))
    ensures CycleFinder.At(CycleFinder.LinksOf(Members(s)), s[0], |s|).None?
    ensures !CycleFinder.Endless(CycleFinder.LinksOf(Members(s)), s[0])
  {
    ChainAt(s, |s| - 1);
    assert s[|s| - 1] in Members(s);
  }

  lemma {:induction false} CircleAt(s: seq<Desc>, k: nat, i: nat)
    requires s != [] && Loops(s[0], s, k)
    ensures var at := CycleFinder.At(CycleFinder.LinksOf(Members(s)), s[0], i); at.Some? && at.value in s
  {
    if i > 0 {
      CircleAt(s, k, i - 1);
      var d := CycleFinder.At(CycleFinder.LinksOf(Members(s)), s[0], i - 1).value;
      var j :| 0 <= j < |s| && s[j] == d;
      assert d in Members(s) && s[j].next == Onward(s, j, k);
    }
  }

  /** A list that has become a circle is one for the search of buffersPanic. */
  lemma CircleFound(s: seq<Desc>, k: nat)
    requires s != [] && Loops(s[0], s, k)
    ensures CycleFinder.ClosedSet(Members(s)) && CycleFinder.Endless(CycleFinder.LinksOf(Members(s)), s[0])
  {
    forall d | d in Members(s) ensures d.next in Members(s) {
      var j :| 0 <= j < |s| && s[j] == d;
      assert s[j].next == Onward(s, j, k);
    }
    forall i: nat ensures CycleFinder.At(CycleFinder.LinksOf(Members(s)), s[0], i).Some? {
      CircleAt(s, k, i);
    }
  }
}

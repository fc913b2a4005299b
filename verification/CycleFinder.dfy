/**
 Floyd's cycle finder over chains of buffer descriptors (isCircle and Floyd_LogCircleInfo in
 src/vma/dev/buffer_pool.cpp).

 The first part is about chains as such: `links` sends each node of a finite set to its successor
 or to nothing. The second part runs the two routines on linked objects.
 */
module CycleFinder {
  import opened MemBuf
  import opened Options

  type Links<T> = map<T, Option<T>>

  /** Every successor is again a node of the set. */
  ghost predicate Closed<T>(links: Links<T>) {
    forall n | n in links :: links[n].Some? ==> links[n].value in links
  }

  /** The k-th node after x, or None once the chain has ended. */
  ghost function At<T>(links: Links<T>, x: T, k: nat): Option<T> {
    if k == 0 then Some(x)
    else
      match At(links, x, k - 1)
      case None => None
      case Some(y) => if y in links then links[y] else None
  }

  ghost predicate Endless<T>(links: Links<T>, x: T) {
    forall k: nat :: At(links, x, k).Some?
  }

  // ---------- chains that come back ----------

  lemma {:induction false} AtInLinks<T>(links: Links<T>, x: T, k: nat)
    requires Closed(links) && x in links
    ensures At(links, x, k).Some? ==> At(links, x, k).value in links
  {
    if k > 0 {
      AtInLinks(links, x, k - 1);
    }
  }

  lemma {:induction false} AtAfterEnd<T>(links: Links<T>, x: T, i: nat, k: nat)
    requires At(links, x, i).None?
    ensures At(links, x, i + k).None?
  {
    if k > 0 {
      AtAfterEnd(links, x, i, k - 1);
    }
  }

  /** Equal nodes have equal futures. */
  lemma {:induction false} Shift<T>(links: Links<T>, x: T, i: nat, j: nat, k: nat)
    requires At(links, x, i) == At(links, x, j)
    ensures At(links, x, i + k) == At(links, x, j + k)
  {
    if k > 0 {
      Shift(links, x, i, j, k - 1);
    }
  }

  /** Going round any number of times changes nothing. */
  lemma {:induction false} Rounds<T>(links: Links<T>, x: T, i: nat, d: nat, q: nat)
    requires At(links, x, i) == At(links, x, i + d)
    ensures At(links, x, i) == At(links, x, i + q * d)
  {
    if q > 0 {
      Rounds(links, x, i, d, q - 1);
      Shift(links, x, i, i + (q - 1) * d, d);
      assert i + (q - 1) * d + d == i + q * d;
    }
  }

  lemma {:induction false} RepeatIsEndless<T>(links: Links<T>, x: T, i: nat, j: nat, k: nat)
    requires i < j && At(links, x, i) == At(links, x, j) && At(links, x, i).Some?
    ensures At(links, x, k).Some?
    decreases k
  {
    if k <= j {
      if At(links, x, k).None? {
        AtAfterEnd(links, x, k, j - k);
      }
    } else {
      Shift(links, x, i, j, k - j);
      RepeatIsEndless(links, x, i, j, i + (k - j));
    }
  }

  /** More steps than nodes: some node comes twice. */
  lemma {:induction false} Pigeonhole<T>(links: Links<T>, x: T, n: nat, seen: set<T>) returns (i: nat, j: nat)
    requires Closed(links) && x in links && Endless(links, x)
    requires seen <= links.Keys && |seen| == n
    requires forall y | y in seen :: Visited(links, x, n, y)
    ensures i < j && At(links, x, i) == At(links, x, j)
    decreases |links.Keys| - n
  {
    assert At(links, x, n).Some?;
    var y := At(links, x, n).value;
    if y in seen {
      i :| i < n && At(links, x, i) == Some(y);
      j := n;
    } else {
      AtInLinks(links, x, n);
      SubsetSize(seen + {y}, links.Keys);
      forall z | z in seen + {y} ensures Visited(links, x, n + 1, z) {
        if z in seen {
          var k: nat :| k < n && At(links, x, k) == Some(z);
        }
      }
      i, j := Pigeonhole(links, x, n + 1, seen + {y});
    }
  }

  ghost predicate Visited<T>(links: Links<T>, x: T, n: nat, y: T) {
    exists k: nat :: k < n && At(links, x, k) == Some(y)
  }

  lemma SubsetSize<T>(a: set<T>, b: set<T>)
    requires a <= b
    ensures |a| <= |b|
  {
    assert b == a + (b - a);
  }

  // ---------- the first index on the circle and the length of the circle ----------

  ghost predicate Returns<T>(links: Links<T>, x: T, i: nat, d: nat) {
    d > 0 && At(links, x, i) == At(links, x, i + d)
  }

  ghost predicate OnCircle<T>(links: Links<T>, x: T, i: nat) {
    exists d: nat :: Returns(links, x, i, d)
  }

  /** mu is the least index on the circle, lambda the least number of steps from there back. */
  ghost predicate Circle<T>(links: Links<T>, x: T, mu: nat, lambda: nat) {
    && OnCircle(links, x, mu) && (forall i: nat | i < mu :: !OnCircle(links, x, i))
    && Returns(links, x, mu, lambda) && (forall d: nat | d < lambda :: !Returns(links, x, mu, d))
  }

  lemma {:induction false} Least(p: nat -> bool, from: nat, n: nat) returns (m: nat)
    requires from <= n && p(n) && forall k: nat | k < from :: !p(k)
    ensures p(m) && forall k: nat | k < m :: !p(k)
    decreases n - from
  {
    if p(from) {
      m := from;
    } else {
      m := Least(p, from + 1, n);
    }
  }

  /** Every endless chain over finitely many nodes has a circle. */
  lemma CircleExists<T>(links: Links<T>, x: T) returns (mu: nat, lambda: nat)
    requires Closed(links) && x in links && Endless(links, x)
    ensures Circle(links, x, mu, lambda)
  {
    var i, j := Pigeonhole(links, x, 0, {});
    assert Returns(links, x, i, j - i);
    var onCircle := (k: nat) => OnCircle(links, x, k);
    mu := Least(onCircle, 0, i);
    assert forall k: nat :: onCircle(k) == OnCircle(links, x, k);
    var d: nat :| Returns(links, x, mu, d);
    var back := (k: nat) => Returns(links, x, mu, k);
    lambda := Least(back, 0, d);
    assert forall k: nat :: back(k) == Returns(links, x, mu, k);
  }

  /** From mu on, the chain is periodic with period lambda. */
  lemma Periodic<T>(links: Links<T>, x: T, mu: nat, lambda: nat, i: nat, q: nat)
    requires Circle(links, x, mu, lambda) && i >= mu
    ensures At(links, x, i) == At(links, x, i + q * lambda)
  {
    Shift(links, x, mu, mu + lambda, i - mu);
    assert At(links, x, i) == At(links, x, i + lambda);
    Rounds(links, x, i, lambda, q);
  }

  function Times(q: nat, d: nat): nat {
    q * d
  }

  ghost predicate Multiple(n: nat, d: nat) {
    exists q: nat :: Times(q, d) == n
  }

  /** Two indices hold the same node only if both are on the circle and a multiple of lambda apart. */
  lemma SameNode<T>(links: Links<T>, x: T, mu: nat, lambda: nat, i: nat, d: nat)
    requires Circle(links, x, mu, lambda) && d > 0
    requires At(links, x, i) == At(links, x, i + d)
    ensures i >= mu && Multiple(d, lambda)
  {
    assert Returns(links, x, i, d);
    assert OnCircle(links, x, i);
    FromMu(links, x, mu, lambda, i, d);
    var q, r := d / lambda, d % lambda;
    QuotientRemainder(d, lambda);
    Periodic(links, x, mu, lambda, mu + r, q);
    var rounds := q * lambda;
    assert mu + r + rounds == mu + d;
    assert r > 0 ==> Returns(links, x, mu, r);
    assert Times(q, lambda) == rounds;
  }

  /** A repetition anywhere on the circle is one from mu on: walk on from i to a point a whole number
      of rounds after mu. */
  lemma FromMu<T>(links: Links<T>, x: T, mu: nat, lambda: nat, i: nat, d: nat)
    requires Circle(links, x, mu, lambda) && i >= mu && At(links, x, i) == At(links, x, i + d)
    ensures At(links, x, mu) == At(links, x, mu + d)
  {
    var rounds := (i - mu) * lambda;
    Periodic(links, x, mu, lambda, mu, i - mu);
    Periodic(links, x, mu, lambda, mu + d, i - mu);
    AtLeast(i - mu, lambda);
    hide At, Circle;
    Shift(links, x, i, i + d, mu + rounds - i);
  }

  lemma AtLeast(q: nat, d: nat)
    requires d > 0
    ensures q * d >= q
  {
  }

  lemma QuotientRemainder(n: nat, d: nat)
    requires d > 0
    ensures n == n / d * d + n % d && n % d < d
  {
  }

  /** The tortoise at i and the hare at 2 * i meet exactly on the circle, at multiples of lambda. */
  lemma Meeting<T>(links: Links<T>, x: T, mu: nat, lambda: nat, i: nat)
    requires Circle(links, x, mu, lambda) && i > 0
    ensures At(links, x, i) == At(links, x, 2 * i) <==> i >= mu && Multiple(i, lambda)
  {
    if i >= mu && Multiple(i, lambda) {
      var q: nat :| Times(q, lambda) == i;
      Periodic(links, x, mu, lambda, i, q);
    } else if At(links, x, i) == At(links, x, i + i) {
      SameNode(links, x, mu, lambda, i, i);
    }
  }

  /** They do meet. */
  lemma MeetingExists<T>(links: Links<T>, x: T, mu: nat, lambda: nat) returns (m: nat)
    requires Circle(links, x, mu, lambda)
    ensures m > 0 && At(links, x, m) == At(links, x, 2 * m)
  {
    m := Times(mu + 1, lambda);
    assert m >= mu + 1;
    Meeting(links, x, mu, lambda, m);
  }

  // ---------- the two routines, on linked descriptors ----------

  /** The links of a set of descriptors, as they are in memory now. */
  ghost function LinksOf(nodes: set<Desc>): Links<Desc>
    reads nodes
  {
    map n | n in nodes :: if n.next == null then None else Some(n.next)
  }

  /** The descriptors of a pool: links do not leave the set. */
  ghost predicate ClosedSet(nodes: set<Desc>)
    reads nodes
  {
    forall n | n in nodes :: n.next != null ==> n.next in nodes
  }

  lemma ClosedLinks(nodes: set<Desc>)
    requires ClosedSet(nodes)
    ensures Closed(LinksOf(nodes)) && LinksOf(nodes).Keys == nodes
  {
  }

  /** A bound on the number of rounds of the tortoise and the hare. */
  lemma MeetOrEnd(links: Links<Desc>, x: Desc) returns (bound: nat)
    requires Closed(links) && x in links
    ensures Endless(links, x) ==> bound > 0 && At(links, x, bound) == At(links, x, 2 * bound)
    ensures !Endless(links, x) ==> At(links, x, bound).None?
  {
    if Endless(links, x) {
      var mu, lambda := CircleExists(links, x);
      bound := MeetingExists(links, x, mu, lambda);
    } else {
      bound :| At(links, x, bound).None?;
    }
  }

  lemma StepOf(nodes: set<Desc>, x: Desc, k: nat, p: Desc)
    requires x in nodes && ClosedSet(nodes)
    requires At(LinksOf(nodes), x, k) == Some(p)
    ensures p in nodes
    ensures At(LinksOf(nodes), x, k + 1) == if p.next == null then None else Some(p.next)
  {
    ClosedLinks(nodes);
    AtInLinks(LinksOf(nodes), x, k);
  }

  lemma MetIsEndless(links: Links<Desc>, x: Desc, i: nat)
    requires i > 0 && At(links, x, i).Some? && At(links, x, i) == At(links, x, 2 * i)
    ensures Endless(links, x)
  {
    hide At;
    forall k: nat ensures At(links, x, k).Some? {
      RepeatIsEndless(links, x, i, 2 * i, k);
    }
  }

  /** isCircle says whether the chain from `start` never reaches NULL, and it always comes back
      with an answer. */
  method IsCircle(start: Desc?, ghost nodes: set<Desc>) returns (r: bool)
    requires ClosedSet(nodes) && (start != null ==> start in nodes)
    ensures r <==> start != null && Endless<Desc>(LinksOf(nodes), start)
  {
    if start == null {
      return false;
    }
    ghost var links, x: Desc := LinksOf(nodes), start;
    ClosedLinks(nodes);
    ghost var bound := MeetOrEnd(links, x);
    assert At(links, x, 0) == Some(x);
    hide At, LinksOf, ClosedSet, Closed, Endless;
    ghost var i: nat := 0;
    var p1: Desc, p2: Desc := start, start;
    while p2.next != null && p2.next.next != null
      invariant links == LinksOf(nodes)
      invariant At(links, x, i) == Some(p1) && At(links, x, 2 * i) == Some(p2)
      invariant i < bound
      decreases bound - i
    {
      BothStep(nodes, x, i, p1, p2);
      p1 := p1.next;
      p2 := p2.next.next;
      i := i + 1;
      if p1 == p2 {
        MetIsEndless(links, x, i);
        return true;
      }
      if !Endless(links, x) && bound <= 2 * i {
        AtAfterEnd(links, x, bound, 2 * i - bound);
      }
    }
    EndReached(nodes, x, 2 * i, p2);
    return false;
  }

  /** The tortoise can make a step when the hare can make two. */
  lemma BothStep(nodes: set<Desc>, x: Desc, i: nat, p1: Desc, p2: Desc)
    requires x in nodes && ClosedSet(nodes) && p2.next != null && p2.next.next != null
    requires At(LinksOf(nodes), x, i) == Some(p1) && At(LinksOf(nodes), x, 2 * i) == Some(p2)
    ensures p1.next != null && At(LinksOf(nodes), x, i + 1) == Some(p1.next)
    ensures At(LinksOf(nodes), x, 2 * i + 2) == Some(p2.next.next)
  {
    hide At, LinksOf;
    StepOf(nodes, x, i, p1);
    StepOf(nodes, x, 2 * i, p2);
    StepOf(nodes, x, 2 * i + 1, p2.next);
    if p1.next == null {
      AtAfterEnd(LinksOf(nodes), x, i + 1, i + 1);
    }
  }

  lemma EndReached(nodes: set<Desc>, x: Desc, k: nat, p: Desc)
    requires x in nodes && ClosedSet(nodes) && At(LinksOf(nodes), x, k) == Some(p)
    requires p.next == null || p.next.next == null
    ensures !Endless(LinksOf(nodes), x)
  {
    hide At, LinksOf;
    StepOf(nodes, x, k, p);
    if p.next != null {
      StepOf(nodes, x, k + 1, p.next);
    }
  }

  const MAX_STEPS: nat := 0x100_0000

  function Capped(n: nat): nat {
    if n <= MAX_STEPS + 1 then n else MAX_STEPS + 1
  }

  /** What Floyd_LogCircleInfo reports for a circle with first index mu and length lambda: both
      numbers, each cut off one step past MAX_STEPS. When mu itself is cut off the tortoise never
      got to the circle, and the length it then measures is cut off as well. */
  function Reported(mu: nat, lambda: nat): (nat, nat) {
    (Capped(mu), if mu <= MAX_STEPS + 1 then Capped(lambda) else MAX_STEPS + 1)
  }

  /** First phase: the hare moves twice as fast as the tortoise until they meet. */
  method FindMeeting(x0: Desc, ghost nodes: set<Desc>) returns (tortoise: Desc, ghost i: nat)
    requires ClosedSet(nodes) && x0 in nodes && Endless(LinksOf(nodes), x0)
    ensures i > 0 && At(LinksOf(nodes), x0, i) == At(LinksOf(nodes), x0, 2 * i) == Some(tortoise)
  {
    hide LinksOf, Endless, Closed;
    ghost var links := LinksOf(nodes);
    ClosedLinks(nodes);
    ghost var meet := MeetOrEnd(links, x0);
    assert At(links, x0, 0) == Some(x0);
    hide At;
    tortoise := Next(x0, x0, 0, nodes);
    var hare := Next(tortoise, x0, 1, nodes);
    i := 1;
    while tortoise != hare
      invariant links == LinksOf(nodes) && 1 <= i <= meet
      invariant At(links, x0, i) == Some(tortoise) && At(links, x0, 2 * i) == Some(hare)
      decreases meet - i
    {
      tortoise := Next(tortoise, x0, i, nodes);
      hare := Next(hare, x0, 2 * i, nodes);
      hare := Next(hare, x0, 2 * i + 1, nodes);
      i := i + 1;
    }
  }

  /** Second phase: from the start and from the meeting point at equal speed. They meet at mu. */
  method FindMu(x0: Desc, meeting: Desc, ghost i: nat, ghost m: nat, ghost l: nat, ghost nodes: set<Desc>)
    returns (mu: nat, tortoise: Desc)
    requires ClosedSet(nodes) && x0 in nodes && Endless(LinksOf(nodes), x0)
    requires i > 0 && At(LinksOf(nodes), x0, i) == At(LinksOf(nodes), x0, 2 * i) == Some(meeting)
    requires Circle(LinksOf(nodes), x0, m, l)
    ensures mu == Capped(m) && At(LinksOf(nodes), x0, mu) == Some(tortoise)
  {
    ghost var links := LinksOf(nodes);
    assert At(links, x0, 0) == Some(x0);
    hide At, LinksOf, Endless, Circle;
    AtMu(links, x0, m, l, i);
    mu, tortoise := 0, x0;
    var hare := meeting;
    while tortoise != hare
      invariant links == LinksOf(nodes) && mu <= m && mu <= MAX_STEPS
      invariant At(links, x0, mu) == Some(tortoise) && At(links, x0, mu + i) == Some(hare)
      decreases m - mu
    {
      tortoise := Next(tortoise, x0, mu, nodes);
      hare := Next(hare, x0, mu + i, nodes);
      mu := mu + 1;
      if mu > MAX_STEPS {
        return;
      }
    }
    SameNode(links, x0, m, l, mu, i);
  }

  /** Third phase: the hare goes once round. */
  method FindLambda(x0: Desc, tortoise: Desc, ghost mu: nat, ghost m: nat, ghost l: nat, ghost nodes: set<Desc>)
    returns (lambda: nat)
    requires ClosedSet(nodes) && x0 in nodes && Endless(LinksOf(nodes), x0)
    requires At(LinksOf(nodes), x0, mu) == Some(tortoise)
    requires Circle(LinksOf(nodes), x0, m, l) && mu <= m
    ensures lambda == if mu == m then Capped(l) else MAX_STEPS + 1
  {
    ghost var links := LinksOf(nodes);
    assert l > 0 && At(links, x0, m) == At(links, x0, m + l);
    hide At, LinksOf, Endless, Circle;
    lambda := 1;
    var hare := Next(tortoise, x0, mu, nodes);
    while tortoise != hare
      invariant links == LinksOf(nodes) && 1 <= lambda <= MAX_STEPS
      invariant At(links, x0, mu + lambda) == Some(hare)
      invariant mu == m ==> lambda <= l
      decreases MAX_STEPS - lambda
    {
      hare := Next(hare, x0, mu + lambda, nodes);
      lambda := lambda + 1;
      if lambda > MAX_STEPS {
        return;
      }
    }
    SameNode(links, x0, m, l, mu, lambda);
    MultipleAtLeast(lambda, l);
  }

  lemma MultipleAtLeast(n: nat, d: nat)
    requires n > 0 && Multiple(n, d)
    ensures n >= d
  {
    var q: nat :| Times(q, d) == n;
    assert q >= 1;
  }

  /** Floyd_LogCircleInfo on a chain known to have a circle. */
  method FloydCircleInfo(x0: Desc, ghost nodes: set<Desc>) returns (mu: nat, lambda: nat)
    requires ClosedSet(nodes) && x0 in nodes && Endless(LinksOf(nodes), x0)
    ensures exists m: nat, l: nat :: Circle(LinksOf(nodes), x0, m, l) && (mu, lambda) == Reported(m, l)
  {
    hide At, LinksOf, Endless, Circle;
    ClosedLinks(nodes);
    ghost var m, l := CircleExists(LinksOf(nodes), x0);
    var meeting, i := FindMeeting(x0, nodes);
    var tortoise;
    mu, tortoise := FindMu(x0, meeting, i, m, l, nodes);
    lambda := FindLambda(x0, tortoise, mu, m, l, nodes);
    assert Circle(LinksOf(nodes), x0, m, l);
    assert (mu, lambda) == Reported(m, l);
  }

  /** f: the successor, which is there because the chain never ends. */
  method Next(p: Desc, ghost x0: Desc, ghost k: nat, ghost nodes: set<Desc>) returns (q: Desc)
    requires ClosedSet(nodes) && x0 in nodes && Endless(LinksOf(nodes), x0)
    requires At(LinksOf(nodes), x0, k) == Some(p)
    ensures At(LinksOf(nodes), x0, k + 1) == Some(q)
  {
    StepOf(nodes, x0, k, p);
    assert At(LinksOf(nodes), x0, k + 1).Some?;
    q := p.next;
  }

  lemma AtMu<T>(links: Links<T>, x: T, mu: nat, lambda: nat, i: nat)
    requires Circle(links, x, mu, lambda) && i > 0 && At(links, x, i) == At(links, x, 2 * i)
    ensures At(links, x, mu) == At(links, x, i + mu)
  {
    Meeting(links, x, mu, lambda, i);
    var q: nat :| Times(q, lambda) == i;
    Periodic(links, x, mu, lambda, mu, q);
  }
}

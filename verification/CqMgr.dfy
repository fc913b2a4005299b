/**
 The receive side of a completion-queue manager on the plain verbs path (src/vma/dev/cq_mgr.cpp and
 cq_mgr.inl): where every receive buffer is at any time, and how far the queue pair may lag behind.

 A buffer is on the linked list of the global pool, in the manager's own pool, in its software queue,
 posted to the queue pair, on the list of buffers ready to be freed, or delivered to the ring above,
 which may link delivered buffers into chains. The queue pair completes posted buffers in order.
 Whether the ring takes a packet, and which frames are TCP, come with the completion.
 */
module CqMgr {
  import opened MemBuf
  import opened BufferPool
  import opened Sequences

  const MAX_POLL_BATCH := 128

  /** Settings: receive batch, compensation level, queue-pair size, keep-full switch, and the limits
      of one poll and of one drain. */
  datatype Config = Config(batch: nat, level: nat, wrNum: nat, keepFull: bool, pollMax: nat, wceMax: nat)

  /** A completion: its status, whether it is a TCP frame, and whether the ring takes the packet. */
  datatype Wc = Wc(ok: bool, tcp: bool, taken: bool)

  ghost predicate AllOk(wcs: seq<Wc>) {
    forall w | w in wcs :: w.ok
  }

  /** How far the queue pair may be short of buffers once a completion has been dealt with. */
  function DebtBound(cfg: Config): int {
    var batched := cfg.batch - 1;
    if cfg.keepFull || cfg.wrNum - MAX_POLL_BATCH < batched then batched else cfg.wrNum - MAX_POLL_BATCH
  }

  /** What becomes of a packet: the ring takes it; its buffer stays out because it is still referred to,
      or goes back; it is dropped and its buffer posted again; or it waits in the software queue. */
  datatype Fate = Handed | Held | Back | Again | Queued

  predicate HandFate(taken: bool, f: Fate) {
    if taken then f.Handed? else f.Held? || f.Back?
  }

  predicate PollFate(w: Wc, f: Fate) {
    if w.ok then f.Again? || HandFate(w.taken, f) else HandFate(false, f)
  }

  predicate DrainFate(w: Wc, recycle: bool, f: Fate) {
    if !w.ok || recycle then HandFate(false, f) else if w.tcp then PollFate(w, f) else f.Queued?
  }

  function GivenOne(d: Desc, f: Fate): multiset<Desc> {
    if f.Handed? || f.Held? then multiset{d} else multiset{}
  }

  /** The buffers that are with the ring above after packets have met these fates. */
  ghost function Given(ds: seq<Desc>, fates: seq<Fate>): multiset<Desc>
    requires |ds| == |fates|
  {
    if ds == [] then multiset{}
    else var n := |ds| - 1; Given(ds[..n], fates[..n]) + GivenOne(ds[n], fates[n])
  }

  /** Those that joined the software queue, in order. */
  ghost function Waiting(ds: seq<Desc>, fates: seq<Fate>): seq<Desc>
    requires |ds| == |fates|
  {
    if ds == [] then []
    else var n := |ds| - 1; Waiting(ds[..n], fates[..n]) + if fates[n].Queued? then [ds[n]] else []
  }

  /** Number of completions without error. */
  ghost function Oks(wcs: seq<Wc>): nat {
    if wcs == [] then 0 else Oks(wcs[..|wcs| - 1]) + if wcs[|wcs| - 1].ok then 1 else 0
  }

  lemma GivenNext(ds: seq<Desc>, i: nat, fates: seq<Fate>, f: Fate, m: M)
    requires i == |fates| < |ds|
    ensures m + Given(ds[..i + 1], fates + [f]) == m + Given(ds[..i], fates) + GivenOne(ds[i], f)
    ensures Waiting(ds[..i + 1], fates + [f]) == Waiting(ds[..i], fates) + if f.Queued? then [ds[i]] else []
    ensures multiset(fates + [f])[Again] == multiset(fates)[Again] + if f.Again? then 1 else 0
  {
    var ds', fates' := ds[..i + 1], fates + [f];
    assert ds'[..i] == ds[..i] && ds'[i] == ds[i] && fates'[..i] == fates && fates'[i] == f;
    GivenLast(ds', fates');
    WaitingLast(ds', fates');
    hide Given, Waiting, GivenOne;
    Regroup(m, Given(ds[..i], fates), GivenOne(ds[i], f));
  }

  lemma Regroup(a: M, b: M, c: M)
    ensures a + (b + c) == a + b + c
  {
  }

  lemma AgainGivesNothing(d: Desc, m: M)
    ensures m + GivenOne(d, Again) == m && m + GivenOne(d, Queued) == m
  {
  }

  lemma GivenLast(ds: seq<Desc>, fates: seq<Fate>)
    requires |ds| == |fates| > 0
    ensures var n := |ds| - 1; Given(ds, fates) == Given(ds[..n], fates[..n]) + GivenOne(ds[n], fates[n])
  {
    hide GivenOne;
  }

  lemma WaitingLast(ds: seq<Desc>, fates: seq<Fate>)
    requires |ds| == |fates| > 0
    ensures var n := |ds| - 1;
            Waiting(ds, fates) == Waiting(ds[..n], fates[..n]) + if fates[n].Queued? then [ds[n]] else []
  {
  }

  lemma NoneGiven(ds: seq<Desc>, m: multiset<Desc>)
    ensures ds[..0] == [] && m + Given([], []) == m && Waiting([], []) == []
  {
  }

  lemma NoneOk(wcs: seq<Wc>)
    ensures wcs[..0] == [] && Oks([]) == 0
  {
  }

  lemma {:induction false} AllCounted(wcs: seq<Wc>)
    requires AllOk(wcs)
    ensures Oks(wcs) == |wcs|
  {
    if wcs != [] {
      AllCounted(wcs[..|wcs| - 1]);
    }
  }

  lemma OksNext(wcs: seq<Wc>, i: nat)
    requires i < |wcs|
    ensures Oks(wcs[..i + 1]) == Oks(wcs[..i]) + if wcs[i].ok then 1 else 0
  {
    assert wcs[..i + 1][..i] == wcs[..i];
  }

  lemma {:induction false} GivenConcat(ds: seq<Desc>, es: seq<Desc>, fs: seq<Fate>, gs: seq<Fate>)
    requires |ds| == |fs| && |es| == |gs|
    ensures Given(ds + es, fs + gs) == Given(ds, fs) + Given(es, gs)
    ensures Waiting(ds + es, fs + gs) == Waiting(ds, fs) + Waiting(es, gs)
  {
    hide Given, Waiting, GivenOne;
    var ds', fs' := ds + es, fs + gs;
    if es == [] {
      NoneGiven(ds, Given(ds, fs));
      assert es == [] && gs == [] && ds' == ds && fs' == fs;
    } else {
      var n := |es| - 1;
      var ds0, fs0 := ds + es[..n], fs + gs[..n];
      GivenConcat(ds, es[..n], fs, gs[..n]);
      assert ds'[..|ds| + n] == ds0 && fs'[..|ds| + n] == fs0 && ds'[|ds| + n] == es[n] && fs'[|ds| + n] == gs[n];
      GivenLast(ds', fs');
      GivenLast(es, gs);
      Regroup(Given(ds, fs), Given(es[..n], gs[..n]), GivenOne(es[n], gs[n]));
      WaitingLast(ds', fs');
      WaitingLast(es, gs);
    }
  }

  lemma {:induction false} OksConcat(a: seq<Wc>, b: seq<Wc>)
    ensures Oks(a + b) == Oks(a) + Oks(b)
  {
    if b == [] {
      assert a + b == a;
    } else {
      var n := |b| - 1;
      OksConcat(a, b[..n]);
      assert (a + b)[..|a| + n] == a + b[..n];
    }
  }

  // ---------- what is owed to the queue pair ----------

  /** An empty pool is filled up to the level from the global list, if that has so much. */
  function Refilled(s: Stock, level: nat): Stock {
    if s.pool == [] && level <= |s.free| then Stock(s.free[..level], s.free[level..]) else s
  }

  function Min(a: nat, b: nat): nat {
    if a < b then a else b
  }

  /** All that is owed, or all there is, goes from the front of the pool to the back of the queue pair. */
  ghost predicate Repaid(
    s: Stock, posted: seq<Desc>, debt: int, level: nat, s': Stock, posted': seq<Desc>, debt': int)
  {
    var r := Refilled(s, level);
    && debt >= 0 && var k := Min(|r.pool|, debt);
       posted' == posted + r.pool[..k] && s' == Stock(r.pool[k..], r.free) && debt' == debt - k
  }

  /** Repaying may leave a full batch owed, an empty pool and a global list that could fill it: with 65
      owed, one buffer in the pool and a level of 256 on the global list, 64 are still owed. */
  lemma StillBehind(d: Desc, free: seq<Desc>, posted: seq<Desc>, s': Stock, posted': seq<Desc>, debt': int)
    requires |free| >= 256 && Repaid(Stock([d], free), posted, 65, 256, s', posted', debt')
    ensures debt' == 64 && s' == Stock([], free)
  {
  }

  /** The queue pair, the pool and the debt. */
  datatype Books = Books(posted: seq<Desc>, pool: seq<Desc>, debt: int)

  /** What n completions, `oks` of them good, do to what is owed. As long as no full batch is owed, the
      debt goes up by one for each good one and nothing is posted. After a good one no full batch is owed
      any more, or the pool has nothing but buffers that these completions brought back. */
  ghost predicate Paying(b: Books, b': Books, n: nat, oks: nat, batch: nat) {
    && n <= |b.posted| && b.posted[n..] <= b'.posted
    && (oks == 0 ==>
          && b'.debt == b.debt && b'.posted == b.posted[n..]
          && forall d | d in b'.pool :: d in b.pool || d in b.posted[..n])
    && (b.debt + oks < batch ==> b'.debt == b.debt + oks && b'.posted == b.posted[n..])
    && (oks > 0 && batch > 0 ==> b'.debt < batch || forall d | d in b'.pool :: d in b.posted[..n])
  }

  /** The same for one completion whose buffer d has been taken off the queue pair. */
  ghost predicate PaidOne(b: Books, b': Books, d: Desc, ok: bool, batch: nat) {
    && b.posted <= b'.posted
    && (!ok ==> b'.debt == b.debt && b'.posted == b.posted && forall x | x in b'.pool :: x in b.pool || x == d)
    && (b.debt + 1 < batch && ok ==> b'.debt == b.debt + 1 && b'.posted == b.posted)
    && (ok && batch > 0 ==> b'.debt < batch || forall x | x in b'.pool :: x == d)
  }

  lemma PaidOneIs(b: Books, b': Books, posted: seq<Desc>, ok: bool, batch: nat)
    requires posted != [] && b.posted == posted[1..] && PaidOne(b, b', posted[0], ok, batch)
    ensures Paying(b.(posted := posted), b', 1, if ok then 1 else 0, batch)
  {
    assert posted[..1] == [posted[0]];
  }

  lemma NonePaying(b: Books, batch: nat)
    ensures Paying(b, b, 0, 0, batch)
  {
  }

  lemma PayingJoin(b: Books, b': Books, b'': Books, n: nat, m: nat, o: nat, q: nat, batch: nat)
    requires Paying(b, b', n, o, batch) && Paying(b', b'', m, q, batch) && n + m <= |b.posted|
    ensures Paying(b, b'', n + m, o + q, batch)
  {
    var p := b.posted;
    assert b'.posted[..|p| - n] == p[n..];
    assert b'.posted[..m] == p[n..n + m] && p[..n + m] == p[..n] + p[n..n + m];
    assert p[n + m..] == p[n..][m..] && p[n + m..] <= b'.posted[m..];
  }

  lemma PayingNext(b: Books, b': Books, b'': Books, wcs: seq<Wc>, i: nat, batch: nat)
    requires i < |wcs| <= |b.posted| && Paying(b, b', i, Oks(wcs[..i]), batch)
    requires Paying(b', b'', 1, if wcs[i].ok then 1 else 0, batch)
    ensures Paying(b, b'', i + 1, Oks(wcs[..i + 1]), batch)
  {
    hide Paying, Oks;
    OksNext(wcs, i);
    PayingJoin(b, b', b'', i, 1, Oks(wcs[..i]), if wcs[i].ok then 1 else 0, batch);
  }

  /** The good completions that become debt. */
  ghost function Payable(wcs: seq<Wc>, recycle: bool): nat {
    if recycle then 0 else Oks(wcs)
  }

  lemma NonePayable(recycle: bool)
    ensures Payable([], recycle) == 0
  {
  }

  lemma PayableNext(b: Books, b': Books, b'': Books, wcs: seq<Wc>, i: nat, recycle: bool, batch: nat)
    requires i < |wcs| <= |b.posted| && Paying(b, b', i, Payable(wcs[..i], recycle), batch)
    requires Paying(b', b'', 1, if wcs[i].ok && !recycle then 1 else 0, batch)
    ensures Paying(b, b'', i + 1, Payable(wcs[..i + 1], recycle), batch)
  {
    hide Paying, Oks;
    OksNext(wcs, i);
    PayingJoin(b, b', b'', i, 1, Payable(wcs[..i], recycle), if wcs[i].ok && !recycle then 1 else 0, batch);
  }

  lemma PayableMore(
    t: Tally, t': Tally, start: seq<Desc>, before: seq<Desc>, wcs: seq<Wc>, left: seq<Wc>, total: nat, n: nat,
    recycle: bool, fates: seq<Fate>, victims: nat, b: Books, b': Books, b'': Books, batch: nat)
    requires SoFar(t, t', start, before, wcs, left, total, recycle, fates, victims) && b.posted == start
    requires Paying(b, b', total, Payable(wcs[..total], recycle), batch) && n <= |left|
    requires Paying(b', b'', n, Payable(left[..n], recycle), batch)
    ensures total + n <= |wcs| && Paying(b, b'', total + n, Payable(wcs[..total + n], recycle), batch)
  {
    hide Paying, Oks, Drained;
    assert wcs[..total] + left[..n] == wcs[..total + n];
    OksConcat(wcs[..total], left[..n]);
    PayingJoin(b, b', b'', total, n, Payable(wcs[..total], recycle), Payable(left[..n], recycle), batch);
  }

  /** What draining changes. */
  datatype Tally = Tally(delivered: M, queue: seq<Desc>, drops: nat, unpaid: nat, debt: int)

  /** What becomes of the packets of `wcs`, whose buffers are `ds`. The oldest `victims` packets of the
      software queue are sacrificed to the queue pair. */
  ghost predicate Drained(
    t: Tally, t': Tally, ds: seq<Desc>, wcs: seq<Wc>, recycle: bool, fates: seq<Fate>, victims: nat)
  {
    && |ds| == |wcs| == |fates| && (forall i | 0 <= i < |wcs| :: DrainFate(wcs[i], recycle, fates[i]))
    && t'.delivered == t.delivered + Given(ds, fates)
    && Shrunk(t'.queue, t.queue + Waiting(ds, fates), victims)
    && t'.drops == t.drops + victims + multiset(fates)[Again] + (if recycle then Oks(wcs) else 0)
    && t'.unpaid == t.unpaid + |wcs| - (if recycle then 0 else Oks(wcs))
    && (recycle ==> t'.debt == t.debt)
  }

  ghost predicate Shrunk(q: seq<Desc>, from: seq<Desc>, k: nat) {
    k <= |from| && q == from[k..]
  }

  predicate DrainedOne(t: Tally, t': Tally, d: Desc, w: Wc, recycle: bool, f: Fate, victim: bool) {
    && DrainFate(w, recycle, f) && t'.delivered == t.delivered + GivenOne(d, f)
    && (var queue := t.queue + (if f.Queued? then [d] else []);
        (victim ==> queue != []) && t'.queue == queue[if victim then 1 else 0..])
    && t'.drops == t.drops + (if victim || f.Again? || (w.ok && recycle) then 1 else 0)
    && !(victim && f.Again?) && !(victim && recycle) && !(recycle && f.Again?)
    && t'.unpaid == t.unpaid + (if w.ok && !recycle then 0 else 1)
    && (recycle ==> t'.debt == t.debt)
  }

  /** One completion of a poll, for the buffer posted first: the packet meets its fate, and when its
      buffer is posted again that is behind all others, with a full batch owed. */
  ghost predicate DealtOne(
    t: Tally, t': Tally, posted: seq<Desc>, posted': seq<Desc>, w: Wc, f: Fate, batch: nat)
  {
    && posted != [] && PollFate(w, f) && t'.delivered == t.delivered + GivenOne(posted[0], f)
    && t'.unpaid == t.unpaid + (if w.ok then 0 else 1) && t'.drops == t.drops + (if f.Again? then 1 else 0)
    && posted[1..] <= posted' && t'.debt <= t.debt + 1
    && (f.Again? ==> posted' == posted[1..] + posted[..1] && t.debt + 1 >= batch)
  }

  /** What becomes of the first i packets of `wcs`, whose buffers are at the front of `start`. */
  ghost predicate Dealt(
    t: Tally, t': Tally, start: seq<Desc>, posted: seq<Desc>, wcs: seq<Wc>, i: nat, fates: seq<Fate>, batch: nat)
  {
    && |fates| == i <= |wcs| <= |start| && (forall j | 0 <= j < i :: PollFate(wcs[j], fates[j]))
    && t'.delivered == t.delivered + Given(start[..i], fates)
    && t'.unpaid == t.unpaid + i - Oks(wcs[..i]) && t'.drops == t.drops + multiset(fates)[Again]
    && t'.debt <= t.debt + i && start[i..] <= posted
    && (forall j | 0 <= j < i && fates[j].Again? :: start[j] in posted[|start| - i..] && t.debt + j + 1 >= batch)
  }

  lemma NoneDealt(t: Tally, start: seq<Desc>, wcs: seq<Wc>, batch: nat)
    requires |wcs| <= |start|
    ensures Dealt(t, t, start, start, wcs, 0, [], batch)
  {
    NoneGiven(start, t.delivered);
    NoneOk(wcs);
  }

  lemma DealtNext(
    t: Tally, t': Tally, t'': Tally, start: seq<Desc>, before: seq<Desc>, posted: seq<Desc>, wcs: seq<Wc>, i: nat,
    fates: seq<Fate>, f: Fate, batch: nat)
    requires i < |wcs| && Dealt(t, t', start, before, wcs, i, fates, batch)
    requires DealtOne(t', t'', before, posted, wcs[i], f, batch)
    ensures Dealt(t, t'', start, posted, wcs, i + 1, fates + [f], batch)
  {
    hide PollFate, Given, GivenOne, Waiting, Oks;
    GivenNext(start, i, fates, f, t.delivered);
    OksNext(wcs, i);
    FirstTaken(start, i, before, posted);
    PostedBehind(before, posted, |start| - i - 1);
  }

  /** The completions polled are the first of those that wait. */
  lemma DealtOf(
    t: Tally, t': Tally, start: seq<Desc>, posted: seq<Desc>, wcs: seq<Wc>, cqe: seq<Wc>, fates: seq<Fate>, batch: nat)
    requires Dealt(t, t', start, posted, wcs, |wcs|, fates, batch) && wcs <= cqe && |cqe| <= |start|
    ensures Dealt(t, t', start, posted, cqe, |wcs|, fates, batch)
  {
    hide PollFate, Given, Oks;
    assert wcs[..|wcs|] == cqe[..|wcs|];
  }

  /** Repaying takes no packet. */
  lemma DealtPaid(t: Tally, t': Tally, start: seq<Desc>, posted: seq<Desc>, wcs: seq<Wc>, batch: nat)
    requires Dealt(t, t, start, start, wcs, 0, [], batch) && start <= posted
    requires t'.debt <= t.debt && t' == t.(debt := t'.debt)
    ensures Dealt(t, t', start, posted, wcs, 0, [], batch)
  {
  }

  lemma DealtMeans(
    t: Tally, t': Tally, start: seq<Desc>, posted: seq<Desc>, wcs: seq<Wc>, n: nat, fates: seq<Fate>, batch: nat)
    requires Dealt(t, t', start, posted, wcs, n, fates, batch)
    ensures n == |fates| <= |wcs| && forall i | 0 <= i < n :: PollFate(wcs[i], fates[i])
    ensures n <= |start| && t'.delivered == t.delivered + Given(start[..n], fates)
    ensures t'.drops == t.drops + multiset(fates)[Again] && (AllOk(wcs) ==> t'.unpaid == t.unpaid)
    ensures forall i | 0 <= i < n && fates[i].Again? :: start[i] in posted && t.debt + i + 1 >= batch
  {
    hide PollFate, Given;
    if AllOk(wcs) {
      AllCounted(wcs[..n]);
    }
  }

  /** The first buffer off the front leaves those behind place k behind place k - 1. */
  lemma PostedBehind(before: seq<Desc>, posted: seq<Desc>, k: nat)
    requires k < |before| && before[1..] <= posted
    ensures before[k + 1..] <= posted[k..]
    ensures posted == before[1..] + before[..1] ==> before[0] in posted[k..]
  {
    assert posted[..|before| - 1] == before[1..];
    assert before[k + 1..] == before[1..][k..];
    if posted == before[1..] + before[..1] {
      assert posted[k..][|before| - 1 - k] == before[0];
    }
  }

  lemma NoneDrained(t: Tally, ds: seq<Desc>, wcs: seq<Wc>, recycle: bool)
    ensures ds[..0] == [] && wcs[..0] == [] && Drained(t, t, [], [], recycle, [], 0)
  {
    NoneGiven(ds, t.delivered);
    NoneOk(wcs);
  }

  lemma DrainedIsOne(t: Tally, t': Tally, d: Desc, w: Wc, recycle: bool, f: Fate, victim: bool)
    requires DrainedOne(t, t', d, w, recycle, f, victim)
    ensures Drained(t, t', [d], [w], recycle, [f], if victim then 1 else 0)
  {
    GivenLast([d], [f]);
    WaitingLast([d], [f]);
    NoneGiven([d], t.delivered);
    assert Oks([w]) == if w.ok then 1 else 0;
  }

  /** Two stretches of completions one after the other. */
  lemma DrainedJoin(
    t: Tally, t': Tally, t'': Tally, ds: seq<Desc>, es: seq<Desc>, ws: seq<Wc>, vs: seq<Wc>, recycle: bool,
    fs: seq<Fate>, gs: seq<Fate>, v: nat, u: nat)
    requires Drained(t, t', ds, ws, recycle, fs, v) && Drained(t', t'', es, vs, recycle, gs, u)
    ensures Drained(t, t'', ds + es, ws + vs, recycle, fs + gs, v + u)
  {
    hide Given, Waiting, Oks, DrainFate, Shrunk;
    GivenConcat(ds, es, fs, gs);
    OksConcat(ws, vs);
    Regroup(t.delivered, Given(ds, fs), Given(es, gs));
    ShrunkTwice(t.queue, Waiting(ds, fs), Waiting(es, gs), t'.queue, t''.queue, v, u);
    assert t.queue + Waiting(ds, fs) + Waiting(es, gs) == t.queue + (Waiting(ds, fs) + Waiting(es, gs));
  }

  lemma ShrunkTwice(q: seq<Desc>, a: seq<Desc>, b: seq<Desc>, q': seq<Desc>, q'': seq<Desc>, v: nat, u: nat)
    requires Shrunk(q', q + a, v) && Shrunk(q'', q' + b, u)
    ensures Shrunk(q'', q + a + b, v + u)
  {
  }

  lemma DrainedNext(
    t: Tally, t': Tally, t'': Tally, start: seq<Desc>, wcs: seq<Wc>, i: nat, recycle: bool,
    fates: seq<Fate>, victims: nat, f: Fate, victim: bool)
    requires i < |wcs| && i < |start| && Drained(t, t', start[..i], wcs[..i], recycle, fates, victims)
    requires DrainedOne(t', t'', start[i], wcs[i], recycle, f, victim)
    ensures Drained(t, t'', start[..i + 1], wcs[..i + 1], recycle, fates + [f], victims + if victim then 1 else 0)
  {
    hide Drained, DrainedOne;
    DrainedIsOne(t', t'', start[i], wcs[i], recycle, f, victim);
    var u := if victim then 1 else 0;
    DrainedJoin(t, t', t'', start[..i], [start[i]], wcs[..i], [wcs[i]], recycle, fates, [f], victims, u);
    assert start[..i] + [start[i]] == start[..i + 1] && wcs[..i] + [wcs[i]] == wcs[..i + 1];
  }

  /** The first `total` completions of `wcs`, for buffers at the front of `start`, have been dealt with;
      what is left of both is in `cqe` and at the front of `posted`. */
  ghost predicate SoFar(
    t: Tally, t': Tally, start: seq<Desc>, posted: seq<Desc>, wcs: seq<Wc>, cqe: seq<Wc>, total: nat, recycle: bool,
    fates: seq<Fate>, victims: nat)
  {
    && total <= |wcs| <= |start| && cqe == wcs[total..] && start[total..] <= posted
    && Drained(t, t', start[..total], wcs[..total], recycle, fates, victims)
  }

  lemma Begun(t: Tally, start: seq<Desc>, wcs: seq<Wc>, recycle: bool)
    requires |wcs| <= |start|
    ensures SoFar(t, t, start, start, wcs, wcs, 0, recycle, [], 0)
  {
    NoneDrained(t, start, wcs, recycle);
  }

  lemma Further(
    t: Tally, t': Tally, t'': Tally, start: seq<Desc>, before: seq<Desc>, posted: seq<Desc>, wcs: seq<Wc>,
    left: seq<Wc>, cqe: seq<Wc>, total: nat, n: nat, recycle: bool, fates: seq<Fate>, more: seq<Fate>, v: nat, u: nat)
    requires SoFar(t, t', start, before, wcs, left, total, recycle, fates, v)
    requires n <= |left| && n <= |before| && cqe == left[n..] && before[n..] <= posted
    requires Drained(t', t'', before[..n], left[..n], recycle, more, u)
    ensures SoFar(t, t'', start, posted, wcs, cqe, total + n, recycle, fates + more, v + u)
  {
    hide Drained;
    Onwards(wcs, total, n);
    SomeTaken(start, total, n, before, posted);
    DrainedJoin(t, t', t'', start[..total], before[..n], wcs[..total], left[..n], recycle, fates, more, v, u);
    assert start[..total] + before[..n] == start[..total + n];
    assert wcs[..total] + left[..n] == wcs[..total + n];
  }

  lemma Over(
    t: Tally, t': Tally, start: seq<Desc>, posted: seq<Desc>, wcs: seq<Wc>, cqe: seq<Wc>, total: nat, recycle: bool,
    fates: seq<Fate>, victims: nat)
    requires SoFar(t, t', start, posted, wcs, cqe, total, recycle, fates, victims)
    ensures total <= |wcs| <= |start| && cqe == wcs[total..]
    ensures Drained(t, t', start[..total], wcs[..total], recycle, fates, victims)
    ensures AllOk(wcs) && !recycle ==> t'.unpaid == t.unpaid
  {
    if AllOk(wcs) {
      AllCounted(wcs[..total]);
    }
  }

  lemma FirstTaken(start: seq<Desc>, i: nat, before: seq<Desc>, posted: seq<Desc>)
    requires i < |start| && start[i..] <= before && before[1..] <= posted
    ensures before[0] == start[i] && start[i + 1..] <= posted
  {
    SomeTaken(start, i, 1, before, posted);
  }

  lemma SomeTaken(start: seq<Desc>, i: nat, n: nat, before: seq<Desc>, posted: seq<Desc>)
    requires i + n <= |start| && start[i..] <= before && before[n..] <= posted
    ensures before[..n] == start[i..i + n] && start[i + n..] <= posted
  {
    assert before[..|start| - i] == start[i..];
    assert start[i + n..] == before[n..|start| - i];
  }

  lemma Onwards<T>(s: seq<T>, i: nat, n: nat)
    requires i + n <= |s|
    ensures s[i..][n..] == s[i + n..]
  {
  }

  // ---------- one place for every buffer ----------

  type M = multiset<Desc>

  /** All buffers, place by place: the global free list, the manager's pool and queue, those posted,
      ready to be freed and delivered, and those in hand, in the middle of being moved. */
  ghost function Total(free: M, pool: M, queue: M, posted: M, ready: M, delivered: M, hand: M): M {
    free + pool + queue + posted + ready + delivered + hand
  }

  /** Parts of a set share nothing and repeat nothing. */
  lemma Exclusive(free: M, pool: M, queue: M, posted: M, ready: M, delivered: M, hand: M, all: set<Desc>, d: Desc)
    requires Total(free, pool, queue, posted, ready, delivered, hand) == multiset(all)
    ensures free[d] + pool[d] + queue[d] + posted[d] + ready[d] + delivered[d] + hand[d] == if d in all then 1 else 0
  {
    assert Total(free, pool, queue, posted, ready, delivered, hand)[d] == multiset(all)[d];
  }

  lemma SplitAt(s: seq<Desc>, k: nat)
    requires k <= |s|
    ensures multiset(s) == multiset(s[..k]) + multiset(s[k..])
  {
    assert s == s[..k] + s[k..];
  }

  lemma CountsDistinct(s: seq<Desc>)
    requires forall d: Desc | d in s :: multiset(s)[d] <= 1
    ensures Distinct(s)
  {
    forall i, j | 0 <= i < j < |s| ensures s[i] != s[j] {
      SplitAt(s, j);
      assert s[..j][i] == s[i] && s[j..][0] == s[j];
      assert s[i] in multiset(s[..j]) && s[j] in multiset(s[j..]);
      assert s[i] in s;
    }
  }

  class Cq {
    const cfg: Config
    const ring: nat
    const gpool: Pool

    var rxPool: seq<Desc>
    var rxQueue: seq<Desc>
    var posted: seq<Desc>
    var debt: int
    var drops: nat

    /** Completions waiting in the completion queue, for the buffers posted first. */
    var cqe: seq<Wc>
    var wceCounter: nat
    var wasDrained: bool

    /** The list of buffers ready to be freed. */
    var rdyHead: Desc?
    var rdyTail: Desc?
    ghost var ready: seq<Desc>

    /** Every buffer there is, and those now with the ring above. */
    ghost const all: set<Desc>
    ghost var delivered: multiset<Desc>

    /** Buffers the queue pair was filled with, and completions that did not become debt. */
    ghost var filled: nat
    ghost var unpaid: nat

    ghost function Now(hand: seq<Desc>): Where
      reads `rxPool, `rxQueue, `posted, `ready, `delivered, gpool`free
    {
      Where(gpool.free, rxPool, rxQueue, posted, ready, delivered, hand)
    }

    /** Each buffer is in exactly one place. */
    ghost predicate Owns(hand: seq<Desc>)
      reads `rxPool, `rxQueue, `posted, `ready, `delivered, gpool`free
    {
      OwnedAre(Now(hand), all)
    }

    /** Outside the global pool and the chains, buffers are not linked. */
    ghost predicate Unlinked(hand: seq<Desc>)
      reads `rxPool, `rxQueue, `posted, rxPool`next, rxQueue`next, posted`next, hand`next
    {
      Loose(rxPool) && Loose(rxQueue) && Loose(posted) && Loose(hand)
    }

    ghost function InStock(): Stock
      reads `rxPool, gpool`free
    {
      Stock(rxPool, gpool.free)
    }

    ghost predicate ReadyOk()
      reads `rdyHead, `rdyTail, `ready, ready`next, ready`refs, ready`pbufRefs
    {
      && IsChain(rdyHead, ready) && (rdyTail == if ready == [] then null else ready[|ready| - 1])
      && forall d | d in ready :: d.refs <= 0 && d.pbufRefs <= 0
    }

    ghost predicate Inv(hand: seq<Desc>)
      reads `rxPool, `rxQueue, `posted, `ready, `delivered, `rdyHead, `rdyTail
      reads gpool, gpool.free`next, rxPool`next, rxQueue`next, posted`next, hand`next
      reads ready`next, ready`refs, ready`pbufRefs
    {
      && gpool.Valid() && gpool.members == all
      && Owns(hand) && Unlinked(hand) && ReadyOk()
    }

    /** The buffers a step may write to: all but those of the ring above. */
    ghost function Mine(): set<Desc>
      reads `delivered, `ready
    {
      set d | d in all && d !in delivered && d !in ready
    }

    /** The queue pair's shortfall: every buffer it was filled with is still posted, owed, or went
        through a completion that is never paid back. */
    ghost predicate Balanced()
      reads `debt, `posted, `unpaid, `filled
    {
      debt >= 0 && |posted| + debt + unpaid == filled
    }

    /** A new manager holds nothing; what is not on the global list is with others. */
    constructor (gpool: Pool, cfg: Config, ring: nat)
      requires gpool.Valid()
      ensures Inv([]) && Balanced() && debt == 0 && filled == 0 && cqe == [] && posted == []
      ensures rxPool == [] && rxQueue == [] && ready == []
      ensures this.gpool == gpool && this.cfg == cfg && this.ring == ring && this.all == gpool.members
    {
      hide OwnedAre, Loose, Distinct, Pool.Valid;
      gpool.FreeOnce();
      FreeAndElsewhere(gpool.free, gpool.members);
      NothingLoose();
      this.gpool, this.cfg, this.ring, this.all := gpool, cfg, ring, gpool.members;
      rxPool, rxQueue, posted, debt, drops := [], [], [], 0, 0;
      cqe, wceCounter, wasDrained := [], 0, false;
      rdyHead, rdyTail, ready := null, null, [];
      delivered, filled, unpaid := multiset(Elsewhere(gpool.free, gpool.members)), 0, 0;
    }

    /** The global list never holds more buffers than were created. */
    lemma FreeCount(hand: seq<Desc>)
      requires Inv(hand)
      ensures gpool.n <= gpool.created == |all|
    {
      gpool.Counted();
    }

    // ---------- moving buffers ----------

    /** Buffers off the front of the global list, with everything else left as it is. */
    method TakeFree(queue: seq<Desc>, k: nat, ghost hand: seq<Desc>) returns (ok: bool, q: seq<Desc>)
      requires Inv(hand)
      modifies gpool, Mine()
      ensures gpool.Valid() && gpool.members == all && ReadyOk()
      ensures Loose(rxPool) && Loose(rxQueue) && Loose(posted) && Loose(hand)
      ensures ok <==> k <= |old(gpool.free)|
      ensures ok ==> q == queue + old(gpool.free)[..k] && gpool.free == old(gpool.free)[k..]
      ensures ok ==> Loose(old(gpool.free)[..k]) && forall d | d in old(gpool.free)[..k] :: d.owner == ring
      ensures !ok ==> q == queue && gpool.free == old(gpool.free)
    {
      hide OwnedAre, IsChain, ReadyOk, Loose, Distinct, Pool.Valid;
      FreePlaces(Now(hand), all);
      ok, q := gpool.GetBuffers(queue, ring, k);
      if ok {
        assert Loose(old(gpool.free)[..k]) by { AreLoose(old(gpool.free)[..k]); }
      }
    }

    /** request_more_buffers */
    method RequestMore(ghost hand: seq<Desc>) returns (ok: bool)
      requires Inv(hand)
      modifies `rxPool, gpool, Mine()
      ensures Inv(hand)
      ensures ok <==> cfg.level <= |old(gpool.free)|
      ensures ok ==> rxPool == old(rxPool) + old(gpool.free)[..cfg.level] && gpool.free == old(gpool.free)[cfg.level..]
      ensures ok ==> forall d | d in old(gpool.free)[..cfg.level] :: d.owner == ring
      ensures !ok ==> rxPool == old(rxPool) && gpool.free == old(gpool.free)
    {
      hide OwnedAre, IsChain, ReadyOk, Loose, Distinct, Reversed, Pool.Valid;
      ghost var w := Now(hand);
      var q;
      ok, q := TakeFree(rxPool, cfg.level, hand);
      if ok {
        FreeToPool(w, cfg.level, all);
        LooseConcat(rxPool, w.free[..cfg.level]);
      }
      rxPool := q;
    }

    /** return_extra_buffers: a pool of at least twice the compensation level shrinks to it. */
    method ReturnExtra(ghost hand: seq<Desc>)
      requires Inv(hand)
      modifies `rxPool, gpool, Mine()
      ensures Inv(hand)
      ensures InStock() == Trimmed(old(InStock()), cfg.level)
      ensures |old(rxPool)| < 2 * cfg.level ==> rxPool == old(rxPool) && gpool.free == old(gpool.free)
      ensures |old(rxPool)| >= 2 * cfg.level ==>
                rxPool == old(rxPool)[..cfg.level] && gpool.free == old(rxPool)[cfg.level..] + old(gpool.free)
    {
      if |rxPool| < cfg.level * 2 {
        return;
      }
      var extra := |rxPool| - cfg.level;
      PutPool(extra, hand);
    }

    /** The last `count` buffers of the manager's pool go back to the global one. */
    method PutPool(count: nat, ghost hand: seq<Desc>)
      requires Inv(hand) && count <= |rxPool|
      modifies `rxPool, gpool, Mine()
      ensures Inv(hand)
      ensures var k := |old(rxPool)| - count;
              rxPool == old(rxPool)[..k] && gpool.free == old(rxPool)[k..] + old(gpool.free)
    {
      hide OwnedAre, IsChain, ReadyOk, Loose, Distinct, Reversed, Pool.Valid;
      ghost var w, k := Now(hand), |rxPool| - count;
      PoolToFree(w, k, all);
      PutFromPool(count, hand);
      assert Now(hand) == w.(free := w.pool[k..] + w.free, pool := w.pool[..k]);
    }

    method PutFromPool(count: nat, ghost hand: seq<Desc>)
      requires Inv(hand) && count <= |rxPool|
      modifies `rxPool, gpool, Mine()
      ensures gpool.Valid() && gpool.members == all && ReadyOk()
      ensures Loose(rxPool) && Loose(rxQueue) && Loose(posted) && Loose(hand)
      ensures var k := |old(rxPool)| - count;
              rxPool == old(rxPool)[..k] && gpool.free == old(rxPool)[k..] + old(gpool.free)
    {
      hide OwnedAre, IsChain, ReadyOk, Loose, Distinct, Reversed, Pool.Valid;
      PoolPlaces(Now(hand), all);
      var panic;
      rxPool, panic := gpool.PutLoose(rxPool, count);
    }

    /** post_recv_buffers: `count` buffers from the front of the manager's pool. */
    method PostFromPool(count: nat, ghost hand: seq<Desc>)
      requires Inv(hand) && count <= |rxPool|
      modifies `rxPool, `posted
      ensures Inv(hand)
      ensures posted == old(posted) + old(rxPool)[..count] && rxPool == old(rxPool)[count..]
    {
      hide OwnedAre, IsChain, ReadyOk, Loose, Distinct, Reversed, Pool.Valid;
      PoolToPosted(Now(hand), count, all);
      LooseSplit(rxPool, count);
      LooseConcat(posted, rxPool[..count]);
      posted := posted + rxPool[..count];
      rxPool := rxPool[count..];
    }

    /** post_recv_buffer on the buffer in hand. */
    method PostInHand(d: Desc)
      requires Inv([d])
      modifies `posted
      ensures Inv([]) && posted == old(posted) + [d]
    {
      hide OwnedAre, IsChain, ReadyOk, Loose, Distinct, Reversed, Pool.Valid;
      HandToPosted(Now([d]), all);
      LooseConcat(posted, [d]);
      NothingLoose();
      posted := posted + [d];
    }

    /** Buffers taken from the global pool and posted at once: post_recv_buffers empties the list it
        is given. */
    method PostFromFree(k: nat) returns (ok: bool)
      requires Inv([])
      modifies `posted, gpool, Mine()
      ensures Inv([])
      ensures ok <==> k <= |old(gpool.free)|
      ensures ok ==> posted == old(posted) + old(gpool.free)[..k] && gpool.free == old(gpool.free)[k..]
      ensures ok ==> forall d | d in old(gpool.free)[..k] :: d.owner == ring
      ensures !ok ==> posted == old(posted) && gpool.free == old(gpool.free)
    {
      hide OwnedAre, IsChain, ReadyOk, Loose, Distinct, Reversed, Pool.Valid;
      ghost var w := Now([]);
      var q;
      ok, q := TakeFree([], k, []);
      if ok {
        FreeToPosted(w, k, all);
        LooseConcat(posted, w.free[..k]);
        assert [] + w.free[..k] == w.free[..k];
        posted := posted + q;
      }
    }

    // ---------- taking buffers back ----------

    method Push(d: Desc)
      modifies `rxPool, d`next, d`refs, d`pbufRefs
      ensures rxPool == old(rxPool) + [d] && d.next == null && d.refs == 0 && d.pbufRefs == 0
    {
      d.next, d.refs, d.pbufRefs := null, 0, 0;
      rxPool := rxPool + [d];
    }

    /** The loop of reclaim_recv_buffer_helper: every buffer of the chain is unlinked, cleaned and
        pushed to the manager's pool. */
    method PushChain(list: Desc, ghost chain: seq<Desc>)
      requires IsChain(list, chain) && Distinct(chain)
      modifies `rxPool, chain`next, chain`refs, chain`pbufRefs
      ensures rxPool == old(rxPool) + chain && Loose(chain)
      ensures forall d | d in chain :: d.refs == 0 && d.pbufRefs == 0
    {
      var buff: Desc? := list;
      ghost var i := 0;
      hide Loose;
      while buff != null
        invariant 0 <= i <= |chain| && (buff == if i < |chain| then chain[i] else null)
        invariant rxPool == old(rxPool) + chain[..i]
        invariant forall j | i <= j < |chain| :: chain[j].next == Following(chain, j)
        invariant forall j | 0 <= j < i :: chain[j].next == null && chain[j].refs == 0 && chain[j].pbufRefs == 0
        decreases |chain| - i
      {
        NextTaken(chain, old(rxPool), i);
        var temp: Desc := buff;
        buff := temp.next;
        Push(temp);
        i := i + 1;
      }
      assert chain[..i] == chain;
      AreLoose(chain);
    }

    /** A delivered chain goes back to the manager's pool. */
    method BackToPool(list: Desc, ghost chain: seq<Desc>)
      requires Inv([]) && IsChain(list, chain) && multiset(chain) <= delivered
      modifies `rxPool, `delivered, chain`next, chain`refs, chain`pbufRefs
      ensures Inv([])
      ensures delivered == old(delivered) - multiset(chain) && rxPool == old(rxPool) + chain
      ensures forall d | d in chain :: d.refs == 0 && d.pbufRefs == 0
    {
      hide OwnedAre, IsChain, ReadyOk, Loose, Distinct, Reversed, Pool.Valid;
      DeliveredPlaces(Now([]), chain, all);
      DeliveredToPool(Now([]), chain, all);
      PushChain(list, chain);
      LooseConcat(old(rxPool), chain);
      delivered := delivered - multiset(chain);
    }

    /** A delivered chain of another ring goes back to the global pool. */
    method BackToGlobal(list: Desc, ghost chain: seq<Desc>)
      requires Inv([]) && IsChain(list, chain) && multiset(chain) <= delivered
      modifies gpool, `delivered, chain`next, chain`pbufRefs
      ensures Inv([])
      ensures delivered == old(delivered) - multiset(chain) && gpool.free == Reversed(chain) + old(gpool.free)
      ensures forall d | d in chain :: d.pbufRefs == 0
    {
      hide OwnedAre, IsChain, ReadyOk, Loose, Distinct, Reversed, Pool.Valid;
      DeliveredPlaces(Now([]), chain, all);
      DeliveredToFree(Now([]), chain, all);
      var panic := gpool.PutList(list, chain);
      delivered := delivered - multiset(chain);
    }

    /** reclaim_recv_buffer_helper on a chain of delivered buffers. The counts of its first buffer are
        lowered, and when they run out the whole chain comes back: to the manager's pool when that
        buffer belongs to this ring, to the global pool otherwise. */
    method Reclaim(list: Desc, ghost chain: seq<Desc>)
      requires Inv([]) && IsChain(list, chain) && chain != [] && multiset(chain) <= delivered
      modifies `rxPool, `delivered, gpool, chain`next, chain`refs, chain`pbufRefs
      ensures Inv([])
      ensures var last, mine := old(list.refs) <= 1 && old(list.pbufRefs) <= 1, old(list.owner) == ring;
              && delivered == (if last then old(delivered) - multiset(chain) else old(delivered))
              && InStock() == (if last then TakenBack(old(InStock()), chain, mine) else old(InStock()))
              && (last && mine ==> rxPool == old(rxPool) + chain && gpool.free == old(gpool.free))
              && (last && !mine ==> rxPool == old(rxPool) && gpool.free == Reversed(chain) + old(gpool.free))
              && (last ==> list.refs <= 0 && list.pbufRefs == 0)
      ensures old(list.refs) > 1 || old(list.pbufRefs) > 1 ==> list.refs == old(list.refs) - 1 && IsChain(list, chain)
    {
      hide OwnedAre, IsChain, ReadyOk, Loose, Distinct, Reversed, Pool.Valid;
      DeliveredPlaces(Now([]), chain, all);
      FirstOf(list, chain);
      var refs, pbuf := list.refs, list.pbufRefs;
      list.refs := list.refs - 1;
      if refs <= 1 {
        list.pbufRefs := list.pbufRefs - 1;
        if pbuf <= 1 {
          if list.owner == ring {
            BackToPool(list, chain);
          } else {
            BackToGlobal(list, chain);
          }
        }
      }
    }

    // ---------- paying the queue pair back ----------

    /** The buffers there are to repay with: the manager's pool or, when it is empty, what the global
        pool adds to it. */
    ghost function Means(): nat
      reads `rxPool, gpool`free
    {
      if rxPool != [] then |rxPool| else if cfg.level <= |gpool.free| then cfg.level else 0
    }

    /** compensate_qp_poll_success, with the buffer just completed in hand. Says whether that buffer
        was posted again, its packet dropped. */
    method CompensateSuccess(d: Desc) returns (dropped: bool)
      requires Inv([d]) && Balanced() && debt > 0
      modifies `rxPool, `posted, `debt, `drops, gpool, Mine()
      ensures Inv(if dropped then [] else [d]) && Balanced()
      ensures dropped <==> old(rxPool) == [] && |old(gpool.free)| < cfg.level &&
                           (cfg.keepFull || old(debt) + MAX_POLL_BATCH > cfg.wrNum)
      ensures drops == old(drops) + if dropped then 1 else 0
      ensures old(posted) <= posted && (dropped ==> posted == old(posted) + [d])
      ensures debt == old(debt) - if dropped then 1 else if old(Means()) < old(debt) then old(Means()) else old(debt)
      ensures if dropped then InStock() == old(InStock())
              else Repaid(old(InStock()), old(posted), old(debt), cfg.level, InStock(), posted, debt)
      ensures cfg.level > 0 ==> debt < old(debt) || (!cfg.keepFull && debt + MAX_POLL_BATCH <= cfg.wrNum)
    {
      hide Inv, Mine;
      var more := |rxPool| > 0;
      if !more {
        more := RequestMore([d]);
      }
      dropped := false;
      if more {
        var k := if debt < |rxPool| then debt else |rxPool|;
        PostFromPool(k, [d]);
        debt := debt - k;
      } else if cfg.keepFull || debt + MAX_POLL_BATCH > cfg.wrNum {
        drops := drops + 1;
        PostInHand(d);
        debt := debt - 1;
        dropped := true;
      }
    }

    /** compensate_qp_poll_failed: repays what there is to repay with. */
    method CompensateFailed()
      requires Inv([]) && Balanced()
      modifies `rxPool, `posted, `debt, gpool, Mine()
      ensures Inv([]) && Balanced() && old(posted) <= posted && (old(InBound()) ==> InBound())
      ensures debt == old(debt) - if old(Means()) < old(debt) then old(Means()) else old(debt)
      ensures if old(debt) == 0 then InStock() == old(InStock()) && posted == old(posted)
              else Repaid(old(InStock()), old(posted), old(debt), cfg.level, InStock(), posted, debt)
    {
      hide Inv, Mine;
      if debt != 0 {
        var more := |rxPool| > 0;
        if !more {
          more := RequestMore([]);
        }
        if more {
          var k := if debt < |rxPool| then debt else |rxPool|;
          PostFromPool(k, []);
          debt := debt - k;
        }
      }
    }

    /** add_qp_rx: fills the queue pair batch by batch, as far as the global pool goes. */
    method AddQpRx()
      requires Inv([]) && posted == [] && cfg.batch > 0
      modifies `posted, `debt, `filled, `unpaid, gpool, Mine()
      ensures Inv([]) && Balanced() && debt == 0 && unpaid == 0
      ensures posted + gpool.free == old(gpool.free) && |posted| <= cfg.wrNum
      ensures |posted| == cfg.wrNum || (|gpool.free| < cfg.batch && |posted| + |gpool.free| < cfg.wrNum)
    {
      hide Inv, Mine;
      var left := cfg.wrNum;
      ghost var start := gpool.free;
      while left > 0
        invariant Inv([]) && 0 <= left && |posted| + left == cfg.wrNum
        invariant posted + gpool.free == start
      {
        var k := if cfg.batch > left then left else cfg.batch;
        var ok := PostFromFree(k);
        if !ok {
          break;
        }
        left := left - k;
      }
      debt, filled, unpaid := 0, |posted|, 0;
    }

    // ---------- packets ----------

    lemma HandIsMine(d: Desc)
      requires Inv([d])
      ensures d in Mine() && IsChain(d, [d])
    {
      Counts(Now([d]), all, d);
    }

    /** process_recv_buffer: the packet goes to the ring, and comes straight back when dropped. */
    method ProcessRecvBuffer(d: Desc, taken: bool) returns (ghost fate: Fate)
      requires Inv([d])
      modifies `rxPool, `delivered, gpool, d
      ensures Inv([]) && Mine() <= old(Mine())
      ensures HandFate(taken, fate) && delivered == old(delivered) + GivenOne(d, fate)
      ensures fate.Back? ==> d in rxPool || d in gpool.free
      ensures var kept := taken || old(d.refs) > 1 || old(d.pbufRefs) > 1;
              && delivered == (if kept then old(delivered) + multiset{d} else old(delivered))
              && rxPool == (if !kept && old(d.owner) == ring then old(rxPool) + [d] else old(rxPool))
              && gpool.free == (if !kept && old(d.owner) != ring then [d] + old(gpool.free) else old(gpool.free))
    {
      hide OwnedAre, IsChain, ReadyOk, Loose, Distinct, Reversed, Pool.Valid;
      AloneIs(d, delivered);
      HandIsMine(d);
      HandToDelivered(Now([d]), all);
      NothingLoose();
      fate := if taken then Handed else if d.refs > 1 || d.pbufRefs > 1 then Held else Back;
      delivered := delivered + multiset{d};
      if !taken {
        Reclaim(d, [d]);
      }
    }

    /** process_recv_queue: hands over at most pollMax packets of the software queue, in order. */
    method ProcessRecvQueue(taken: seq<bool>) returns (processed: nat, ghost fates: seq<Fate>)
      requires Inv([]) && cfg.pollMax > 0 && |taken| >= |rxQueue|
      modifies `rxPool, `rxQueue, `delivered, gpool, Mine()
      ensures Inv([]) && Mine() <= old(Mine())
      ensures processed == (if cfg.pollMax < |old(rxQueue)| then cfg.pollMax else |old(rxQueue)|)
      ensures rxQueue == old(rxQueue)[processed..]
      ensures |fates| == processed && forall i | 0 <= i < processed :: HandFate(taken[i], fates[i])
      ensures delivered == old(delivered) + Given(old(rxQueue)[..processed], fates)
    {
      hide Inv, Mine, Given, GivenOne, Waiting, HandFate;
      processed, fates := 0, [];
      ghost var start := rxQueue;
      NoneGiven(start, delivered);
      while rxQueue != []
        invariant Inv([]) && processed < cfg.pollMax && processed <= |start| && Mine() <= old(Mine())
        invariant rxQueue == start[processed..]
        invariant |fates| == processed && forall i | 0 <= i < processed :: HandFate(taken[i], fates[i])
        invariant delivered == old(delivered) + Given(start[..processed], fates)
        decreases |rxQueue|
      {
        ghost var fate := ProcessFirst(taken[processed]);
        GivenNext(start, processed, fates, fate, old(delivered));
        processed, fates := processed + 1, fates + [fate];
        if processed >= cfg.pollMax {
          break;
        }
      }
    }

    method ProcessFirst(taken: bool) returns (ghost fate: Fate)
      requires Inv([]) && rxQueue != []
      modifies `rxPool, `rxQueue, `delivered, gpool, Mine()
      ensures Inv([]) && Mine() <= old(Mine()) && rxQueue == old(rxQueue)[1..]
      ensures HandFate(taken, fate) && delivered == old(delivered) + GivenOne(old(rxQueue)[0], fate)
    {
      hide Inv, Mine, GivenOne, HandFate;
      var d := PopQueue();
      HandIsMine(d);
      fate := ProcessRecvBuffer(d, taken);
    }

    method PopQueue() returns (d: Desc)
      requires Inv([]) && rxQueue != []
      modifies `rxQueue
      ensures d == old(rxQueue)[0] && rxQueue == old(rxQueue)[1..] && Inv([d])
    {
      hide OwnedAre, IsChain, ReadyOk, Loose, Distinct, Reversed, Pool.Valid;
      QueueToHand(Now([]), all);
      LooseSplit(rxQueue, 1);
      d := rxQueue[0];
      assert rxQueue[..1] == [d];
      rxQueue := rxQueue[1..];
    }

    method PopPosted() returns (d: Desc)
      requires Inv([]) && posted != []
      modifies `posted
      ensures d == old(posted)[0] && posted == old(posted)[1..] && Inv([d])
    {
      hide OwnedAre, IsChain, ReadyOk, Loose, Distinct, Reversed, Pool.Valid;
      PostedToHand(Now([]), all);
      LooseSplit(posted, 1);
      d := posted[0];
      assert posted[..1] == [d];
      posted := posted[1..];
    }

    method PushQueue(d: Desc)
      requires Inv([d])
      modifies `rxQueue
      ensures Inv([]) && rxQueue == old(rxQueue) + [d]
    {
      hide OwnedAre, IsChain, ReadyOk, Loose, Distinct, Reversed, Pool.Valid;
      HandToQueue(Now([d]), all);
      LooseConcat(rxQueue, [d]);
      NothingLoose();
      rxQueue := rxQueue + [d];
    }

    method PushFront(d: Desc)
      requires Inv([d])
      modifies `rxQueue
      ensures Inv([]) && rxQueue == [d] + old(rxQueue)
    {
      hide OwnedAre, IsChain, ReadyOk, Loose, Distinct, Reversed, Pool.Valid;
      HandToQueue(Now([d]), all);
      LooseConcat([d], rxQueue);
      NothingLoose();
      rxQueue := [d] + rxQueue;
    }

    method RotateQueue(d: Desc) returns (oldest: Desc)
      requires Inv([d])
      modifies `rxQueue
      ensures Inv([oldest]) && [oldest] + rxQueue == old(rxQueue) + [d] && rxQueue == (old(rxQueue) + [d])[1..]
    {
      hide Inv, Mine;
      PushQueue(d);
      oldest := PopQueue();
    }

    // ---------- completions ----------

    /** The bound on the debt, which needs a compensation level that brings buffers at all. */
    ghost predicate InBound()
      reads `debt
    {
      cfg.batch > 0 && cfg.level > 0 && debt <= DebtBound(cfg)
    }

    /** A buffer has just been taken off the queue pair and is not yet accounted for. */
    ghost predicate OneOff()
      reads `debt, `posted, `unpaid, `filled
    {
      debt >= 0 && |posted| + 1 + debt + unpaid == filled
    }

    /** The buffer of the next completion would be posted again: there is nothing to repay with, and the
        debt is large enough. */
    ghost predicate Short()
      reads `debt, `rxPool, gpool`free
    {
      && debt + 1 >= cfg.batch && rxPool == [] && |gpool.free| < cfg.level
      && (cfg.keepFull || debt + 1 + MAX_POLL_BATCH > cfg.wrNum)
    }

    /** A full batch will still be owed although the global list can fill the pool once more: what there
        is at hand is too little. */
    ghost predicate Behind()
      reads `debt, `rxPool, gpool`free
    {
      debt + 1 - Means() >= cfg.batch && |gpool.free| >= if rxPool == [] then 2 * cfg.level else cfg.level
    }

    ghost function Owed(): Books
      reads `posted, `rxPool, `debt
    {
      Books(posted, rxPool, debt)
    }

    /** One more buffer is owed to the queue pair, and a full batch of debt is repaid; says whether the
        buffer in hand was posted again. Afterwards less than a batch is owed or the pool is empty, and
        in the latter case the global list cannot fill it either, unless the manager is behind. */
    method Owe(d: Desc) returns (dropped: bool)
      requires Inv([d]) && OneOff()
      modifies `rxPool, `posted, `debt, `drops, gpool, Mine()
      ensures Inv(if dropped then [] else [d]) && Balanced()
      ensures old(posted) <= posted && (dropped ==> posted == old(posted) + [d])
      ensures old(InBound()) ==> InBound()
      ensures (dropped <==> old(Short())) && debt <= old(debt) + 1
      ensures drops == old(drops) + if dropped then 1 else 0
      ensures old(debt) + 1 < cfg.batch ==>
                debt == old(debt) + 1 && posted == old(posted) && InStock() == old(InStock())
      ensures old(debt) + 1 >= cfg.batch ==>
                if dropped then debt == old(debt) && InStock() == old(InStock())
                else Repaid(old(InStock()), old(posted), old(debt) + 1, cfg.level, InStock(), posted, debt)
      ensures cfg.batch > 0 ==> debt < cfg.batch || rxPool == []
      ensures cfg.batch > 0 ==> (debt < cfg.batch || (rxPool == [] && |gpool.free| < cfg.level) <==> !old(Behind()))
    {
      hide Inv, Mine;
      debt := debt + 1;
      dropped := false;
      if debt >= cfg.batch {
        dropped := CompensateSuccess(d);
      }
    }

    /** A successful completion: its buffer is owed to the queue pair, a full batch of debt is repaid,
        and the packet is handed over unless its buffer was posted again. */
    method Deliver(d: Desc, taken: bool) returns (ghost fate: Fate)
      requires Inv([d]) && OneOff()
      modifies `rxPool, `posted, `debt, `drops, `delivered, gpool, Mine()
      ensures Inv([]) && Balanced() && Mine() <= old(Mine())
      ensures old(posted) <= posted
      ensures old(InBound()) ==> InBound()
      ensures (fate.Again? <==> old(Short())) && debt <= old(debt) + 1
      ensures if fate.Again? then posted == old(posted) + [d] else HandFate(taken, fate)
      ensures fate.Back? ==> d in rxPool || d in gpool.free
      ensures delivered == old(delivered) + GivenOne(d, fate)
      ensures drops == old(drops) + if fate.Again? then 1 else 0
      ensures PaidOne(old(Owed()), Owed(), d, true, cfg.batch)
    {
      hide Inv, Mine, Balanced, OneOff, InBound, Short, GivenOne, Behind, Repaid;
      var dropped := Owe(d);
      fate := Again;
      AgainGivesNothing(d, delivered);
      if !dropped {
        HandIsMine(d);
        fate := ProcessRecvBuffer(d, taken);
      }
    }

    /** A completion that is given up: with an error, or while the ring is being recycled. */
    method GiveUp(d: Desc) returns (ghost fate: Fate)
      requires Inv([d]) && OneOff()
      modifies `rxPool, `delivered, `unpaid, gpool, Mine()
      ensures Inv([]) && Balanced() && Mine() <= old(Mine())
      ensures unpaid == old(unpaid) + 1
      ensures HandFate(false, fate) && delivered == old(delivered) + GivenOne(d, fate)
      ensures fate.Back? ==> d in rxPool || d in gpool.free
      ensures PaidOne(old(Owed()), Owed(), d, false, cfg.batch)
    {
      hide Inv, Mine;
      unpaid := unpaid + 1;
      HandIsMine(d);
      fate := ProcessRecvBuffer(d, false);
    }

    /** UDP packets found while draining wait in the software queue; the oldest one is the victim
        when a buffer has to be posted again. */
    method Enqueue(d: Desc) returns (victim: bool)
      requires Inv([d]) && OneOff()
      modifies `rxPool, `rxQueue, `posted, `debt, `drops, gpool, Mine()
      ensures Inv([]) && Balanced()
      ensures old(posted) <= posted
      ensures old(InBound()) ==> InBound()
      ensures victim <==> old(Short())
      ensures rxQueue == (old(rxQueue) + [d])[if victim then 1 else 0..]
      ensures victim ==> posted == old(posted) + (old(rxQueue) + [d])[..1]
      ensures drops == old(drops) + if victim then 1 else 0
      ensures PaidOne(old(Owed()), Owed(), d, true, cfg.batch)
    {
      hide Inv, Mine, Balanced, OneOff, InBound, Short, Behind, Repaid;
      var oldest := RotateQueue(d);
      victim := Owe(oldest);
      if !victim {
        PushFront(oldest);
      }
    }

    /** The device completes the next posted buffer. */
    method Complete(w: Wc)
      requires |cqe| < |posted|
      modifies `cqe
      ensures cqe == old(cqe) + [w] && |cqe| <= |posted|
    {
      cqe := cqe + [w];
    }

    /** At most `max` completions, oldest first. */
    method Poll(max: nat) returns (wcs: seq<Wc>)
      modifies `cqe
      ensures |wcs| == (if max < |old(cqe)| then max else |old(cqe)|) && wcs + cqe == old(cqe)
    {
      var k := if max < |cqe| then max else |cqe|;
      wcs, cqe := cqe[..k], cqe[k..];
    }

    /** One completion, for the buffer posted first. */
    method DealWithOne(w: Wc) returns (ghost fate: Fate)
      requires Inv([]) && Balanced() && posted != []
      modifies `rxPool, `posted, `debt, `drops, `delivered, `unpaid, gpool, Mine()
      ensures Inv([]) && Balanced() && Mine() <= old(Mine())
      ensures old(InBound()) ==> InBound()
      ensures DealtOne(old(Tallied()), Tallied(), old(posted), posted, w, fate, cfg.batch)
      ensures fate.Again? ==> old(Short())
      ensures Paying(old(Owed()), Owed(), 1, if w.ok then 1 else 0, cfg.batch)
    {
      hide Inv, Mine, InBound, GivenOne, PaidOne, Paying;
      var d := PopPosted();
      assert [d] == old(posted)[..1];
      ghost var b := Owed();
      if w.ok {
        fate := Deliver(d, w.taken);
      } else {
        fate := GiveUp(d);
      }
      PaidOneIs(b, Owed(), old(posted), w.ok, cfg.batch);
    }

    /** The completions of one poll, in order, and what becomes of their packets. */
    method DealWith(wcs: seq<Wc>) returns (ghost fates: seq<Fate>)
      requires Inv([]) && Balanced() && |wcs| + |cqe| <= |posted|
      modifies `rxPool, `posted, `debt, `drops, `delivered, `unpaid, gpool, Mine()
      ensures Inv([]) && Balanced() && |cqe| <= |posted| && Mine() <= old(Mine())
      ensures old(InBound()) ==> InBound()
      ensures Dealt(old(Tallied()), Tallied(), old(posted), posted, wcs, |wcs|, fates, cfg.batch)
      ensures Paying(old(Owed()), Owed(), |wcs|, Oks(wcs), cfg.batch)
    {
      hide Inv, Mine, Balanced, InBound, Dealt, Paying, Oks;
      fates := [];
      ghost var start, t, b := posted, Tallied(), Owed();
      NoneDealt(t, start, wcs, cfg.batch);
      NonePaying(b, cfg.batch);
      NoneOk(wcs);
      for i := 0 to |wcs|
        invariant Inv([]) && Balanced() && Mine() <= old(Mine()) && |start| - i <= |posted|
        invariant old(InBound()) ==> InBound()
        invariant Dealt(t, Tallied(), start, posted, wcs, i, fates, cfg.batch)
        invariant Paying(b, Owed(), i, Oks(wcs[..i]), cfg.batch)
      {
        ghost var t', b', before := Tallied(), Owed(), posted;
        ghost var fate := DealWithOne(wcs[i]);
        DealtNext(t, t', Tallied(), start, before, posted, wcs, i, fates, fate, cfg.batch);
        PayingNext(b, b', Owed(), wcs, i, cfg.batch);
        fates := fates + [fate];
      }
      assert wcs[..|wcs|] == wcs;
    }

    /** poll_and_process_element_rx: the software queue first, then one poll, or a chance to repay
        when there is nothing to poll. `queued` and `polled` say what becomes of the packets taken off
        the queue and off the queue pair. */
    method PollRx(taken: seq<bool>)
      returns (processed: nat, ghost queued: seq<Fate>, ghost polled: seq<Fate>)
      requires Inv([]) && Balanced() && |cqe| <= |posted| && cfg.pollMax > 0 && |taken| >= |rxQueue|
      modifies `rxPool, `rxQueue, `posted, `debt, `drops, `delivered, `unpaid, `cqe, `wceCounter, `wasDrained
      modifies gpool, Mine()
      ensures Inv([]) && Balanced() && |cqe| <= |posted| && Mine() <= old(Mine())
      ensures old(InBound()) ==> InBound()
      ensures |queued| == (if cfg.pollMax < |old(rxQueue)| then cfg.pollMax else |old(rxQueue)|)
      ensures rxQueue == old(rxQueue)[|queued|..] && processed == |queued| + |polled|
      ensures |queued| == cfg.pollMax ==> polled == [] && cqe == old(cqe) && posted == old(posted) && debt == old(debt)
      ensures |queued| < cfg.pollMax ==>
                && |polled| == (if cfg.pollMax < |old(cqe)| then cfg.pollMax else |old(cqe)|)
                && cqe == old(cqe)[|polled|..]
      ensures forall i | 0 <= i < |queued| :: HandFate(taken[i], queued[i])
      ensures |polled| <= |old(cqe)| && forall i | 0 <= i < |polled| :: PollFate(old(cqe)[i], polled[i])
      ensures delivered == old(delivered) + Given(old(rxQueue)[..|queued|], queued) +
              Given(old(posted)[..|polled|], polled)
      ensures drops == old(drops) + multiset(polled)[Again]
      ensures forall i | 0 <= i < |polled| && polled[i].Again? ::
                old(posted)[i] in posted && old(debt) + i + 1 >= cfg.batch
      ensures AllOk(old(cqe)) ==> |posted| + debt == |old(posted)| + old(debt)
      ensures polled != [] ==> PaidUp(old(posted), old(debt), |polled|, Oks(old(cqe)[..|polled|]))
      ensures |queued| < cfg.pollMax && polled == [] ==> debt == 0 || rxPool == []
      ensures wceCounter == old(wceCounter) + |polled|
      ensures wasDrained == (old(wasDrained) || 0 < |polled| < cfg.pollMax)
    {
      hide Inv, Mine, InBound, PollFate, HandFate, Given, Dealt, Oks;
      processed, queued := ProcessRecvQueue(taken);
      polled := [];
      if processed >= cfg.pollMax {
        NoneGiven(posted, delivered);
        return;
      }
      var n;
      ghost var t, start := Tallied(), posted;
      n, polled := PollOnce();
      DealtMeans(t, Tallied(), start, posted, old(cqe), n, polled, cfg.batch);
      processed := processed + n;
    }

    /** After n completions, `oks` of them good: as long as no full batch was owed nothing was posted and
        the debt is one more for each good one; after a good one less than a batch is owed, or the pool has
        nothing but buffers they brought back. */
    ghost predicate PaidUp(start: seq<Desc>, was: int, n: nat, oks: nat)
      reads `posted, `rxPool, `debt
    {
      && n <= |start| && (was + oks < cfg.batch ==> debt == was + oks && posted == start[n..])
      && (oks > 0 && cfg.batch > 0 ==> debt < cfg.batch || forall d | d in rxPool :: d in start[..n])
    }

    /** One poll, or a chance to repay when there is nothing to poll. */
    method PollOnce() returns (n: nat, ghost fates: seq<Fate>)
      requires Inv([]) && Balanced() && |cqe| <= |posted|
      modifies `rxPool, `posted, `debt, `drops, `delivered, `unpaid, `cqe, `wceCounter, `wasDrained, gpool, Mine()
      ensures Inv([]) && Balanced() && |cqe| <= |posted| && Mine() <= old(Mine())
      ensures old(InBound()) ==> InBound()
      ensures n == (if cfg.pollMax < |old(cqe)| then cfg.pollMax else |old(cqe)|) && cqe == old(cqe)[n..]
      ensures Dealt(old(Tallied()), Tallied(), old(posted), posted, old(cqe), n, fates, cfg.batch)
      ensures n > 0 ==> Paying(old(Owed()), Owed(), n, Oks(old(cqe)[..n]), cfg.batch)
      ensures n == 0 && old(debt) == 0 ==> InStock() == old(InStock()) && posted == old(posted)
      ensures n == 0 && old(debt) != 0 ==>
                Repaid(old(InStock()), old(posted), old(debt), cfg.level, InStock(), posted, debt)
      ensures wceCounter == old(wceCounter) + n && wasDrained == (old(wasDrained) || 0 < n < cfg.pollMax)
    {
      hide Inv, Mine, InBound, Dealt, Paying, Repaid, Oks;
      ghost var t, start := Tallied(), posted;
      var wcs := Poll(cfg.pollMax);
      assert wcs == old(cqe)[..|wcs|];
      n, fates := |wcs|, [];
      if n > 0 {
        wceCounter := wceCounter + n;
        if n < cfg.pollMax {
          wasDrained := true;
        }
        fates := DealWith(wcs);
        DealtOf(t, Tallied(), start, posted, wcs, old(cqe), fates, cfg.batch);
      } else {
        NoneDealt(t, start, old(cqe), cfg.batch);
        CompensateFailed();
        DealtPaid(t, Tallied(), start, posted, old(cqe), cfg.batch);
      }
    }

    lemma GivenIsOurs(d: Desc)
      requires Inv([]) && d in delivered
      ensures d in all
    {
      Counts(Now([]), all, d);
    }

    lemma BalanceIs()
      requires Balanced()
      ensures |posted| + debt + Tallied().unpaid == filled
    {
    }

    ghost function Tallied(): Tally
      reads `delivered, `rxQueue, `drops, `unpaid, `debt
    {
      Tally(delivered, rxQueue, drops, unpaid, debt)
    }

    /** One completion while draining. While the ring is recycled every packet is dropped and its buffer
        reclaimed without becoming debt. */
    method DrainOne(w: Wc, recycle: bool) returns (ghost fate: Fate, victim: bool)
      requires Inv([]) && Balanced() && posted != []
      modifies `rxPool, `rxQueue, `posted, `debt, `drops, `delivered, `unpaid, gpool, Mine()
      ensures Inv([]) && Balanced() && Mine() <= old(Mine())
      ensures old(InBound()) ==> InBound()
      ensures DrainedOne(old(Tallied()), Tallied(), old(posted)[0], w, recycle, fate, victim)
      ensures old(posted)[1..] <= posted
      ensures Paying(old(Owed()), Owed(), 1, if w.ok && !recycle then 1 else 0, cfg.batch)
    {
      hide Inv, Mine, InBound, DrainedOne, PaidOne, Paying;
      var d := PopPosted();
      ghost var b := Owed();
      fate, victim := Dispose(d, w, recycle);
      PaidOneIs(b, Owed(), old(posted), w.ok && !recycle, cfg.batch);
    }

    /** What becomes of the buffer of a completion while draining. */
    method Dispose(d: Desc, w: Wc, recycle: bool) returns (ghost fate: Fate, victim: bool)
      requires Inv([d]) && OneOff()
      modifies `rxPool, `rxQueue, `posted, `debt, `drops, `delivered, `unpaid, gpool, Mine()
      ensures Inv([]) && Balanced() && Mine() <= old(Mine())
      ensures old(InBound()) ==> InBound()
      ensures DrainedOne(old(Tallied()), Tallied(), d, w, recycle, fate, victim) && old(posted) <= posted
      ensures PaidOne(old(Owed()), Owed(), d, w.ok && !recycle, cfg.batch)
    {
      hide Inv, Mine, InBound, Balanced, OneOff, Short, GivenOne, PaidOne;
      AgainGivesNothing(d, delivered);
      victim := false;
      if !w.ok {
        fate := GiveUp(d);
      } else if recycle {
        drops := drops + 1;
        fate := GiveUp(d);
      } else if w.tcp {
        fate := Deliver(d, w.taken);
      } else {
        fate := Queued;
        victim := Enqueue(d);
      }
    }


    /** The completions of one poll while draining. */
    method DrainOff(wcs: seq<Wc>, recycle: bool) returns (ghost fates: seq<Fate>, ghost victims: nat)
      requires Inv([]) && Balanced() && |wcs| + |cqe| <= |posted|
      modifies `rxPool, `rxQueue, `posted, `debt, `drops, `delivered, `unpaid, gpool, Mine()
      ensures Inv([]) && Balanced() && |cqe| <= |posted| && Mine() <= old(Mine())
      ensures old(InBound()) ==> InBound()
      ensures Drained(old(Tallied()), Tallied(), old(posted)[..|wcs|], wcs, recycle, fates, victims)
      ensures old(posted)[|wcs|..] <= posted
      ensures Paying(old(Owed()), Owed(), |wcs|, Payable(wcs, recycle), cfg.batch)
    {
      hide Inv, Mine, Balanced, InBound, Drained, DrainedOne, Tallied, Paying, Payable;
      fates, victims := [], 0;
      ghost var start, t, b := posted, Tallied(), Owed();
      NoneDrained(t, start, wcs, recycle);
      NonePaying(b, cfg.batch);
      NonePayable(recycle);
      for i := 0 to |wcs|
        invariant Inv([]) && Balanced() && Mine() <= old(Mine()) && start[i..] <= posted
        invariant old(InBound()) ==> InBound()
        invariant Drained(t, Tallied(), start[..i], wcs[..i], recycle, fates, victims)
        invariant Paying(b, Owed(), i, Payable(wcs[..i], recycle), cfg.batch)
      {
        ghost var t', b', before := Tallied(), Owed(), posted;
        var fate, victim := DrainOne(wcs[i], recycle);
        FirstTaken(start, i, before, posted);
        PayableNext(b, b', Owed(), wcs, i, recycle, cfg.batch);
        DrainedNext(t, t', Tallied(), start, wcs, i, recycle, fates, victims, fate, victim);
        fates, victims := fates + [fate], victims + if victim then 1 else 0;
      }
      assert wcs[..|wcs|] == wcs;
    }

    /** One round of draining; 0 when there was nothing to poll. */
    method DrainRound(recycle: bool) returns (n: nat, ghost fates: seq<Fate>, ghost victims: nat)
      requires Inv([]) && Balanced() && |cqe| <= |posted|
      modifies `rxPool, `rxQueue, `posted, `debt, `drops, `delivered, `unpaid, `cqe, `wceCounter, `wasDrained
      modifies gpool, Mine()
      ensures Inv([]) && Balanced() && |cqe| <= |posted| && Mine() <= old(Mine())
      ensures old(InBound()) ==> InBound()
      ensures n <= |old(cqe)| && cqe == old(cqe)[n..] && wceCounter == old(wceCounter) + n
      ensures wasDrained == (n < MAX_POLL_BATCH || old(wasDrained)) && (n < MAX_POLL_BATCH ==> cqe == [])
      ensures Drained(old(Tallied()), Tallied(), old(posted)[..n], old(cqe)[..n], recycle, fates, victims)
      ensures old(posted)[n..] <= posted
      ensures Paying(old(Owed()), Owed(), n, Payable(old(cqe)[..n], recycle), cfg.batch)
    {
      hide Inv, Mine, Balanced, InBound, Drained, Tallied, Paying, Payable;
      NoneDrained(Tallied(), posted, cqe, recycle);
      NonePaying(Owed(), cfg.batch);
      NonePayable(recycle);
      fates, victims := [], 0;
      var wcs := Poll(MAX_POLL_BATCH);
      n := |wcs|;
      assert wcs == old(cqe)[..n];
      if n == 0 {
        wasDrained := true;
        return;
      }
      wceCounter := wceCounter + n;
      if n < MAX_POLL_BATCH {
        wasDrained := true;
      }
      fates, victims := DrainOff(wcs, recycle);
    }

    /** One round more. */
    method DrainOn(
      recycle: bool, ghost t: Tally, ghost b: Books, ghost start: seq<Desc>, ghost wcs: seq<Wc>, ghost total: nat,
      ghost fates: seq<Fate>, ghost victims: nat)
      returns (n: nat, ghost fates': seq<Fate>, ghost victims': nat)
      requires Inv([]) && Balanced() && |cqe| <= |posted|
      requires SoFar(t, Tallied(), start, posted, wcs, cqe, total, recycle, fates, victims)
      requires b.posted == start && total <= |wcs|
      requires Paying(b, Owed(), total, Payable(wcs[..total], recycle), cfg.batch)
      modifies `rxPool, `rxQueue, `posted, `debt, `drops, `delivered, `unpaid, `cqe, `wceCounter, `wasDrained
      modifies gpool, Mine()
      ensures Inv([]) && Balanced() && |cqe| <= |posted| && Mine() <= old(Mine())
      ensures old(InBound()) ==> InBound()
      ensures wceCounter == old(wceCounter) + n && |cqe| + n == |old(cqe)|
      ensures (wasDrained && !old(wasDrained)) || n == 0 ==> cqe == []
      ensures n == 0 ==> wasDrained
      ensures SoFar(t, Tallied(), start, posted, wcs, cqe, total + n, recycle, fates', victims')
      ensures total + n <= |wcs| && Paying(b, Owed(), total + n, Payable(wcs[..total + n], recycle), cfg.batch)
    {
      hide Inv, Mine, Balanced, InBound, Drained, Tallied, SoFar, Paying, Payable;
      ghost var t', b', before, left := Tallied(), Owed(), posted, cqe;
      ghost var more, sacrificed;
      n, more, sacrificed := DrainRound(recycle);
      Further(t, t', Tallied(), start, before, posted, wcs, left, cqe, total, n, recycle, fates, more, victims,
          sacrificed);
      PayableMore(t, t', start, before, wcs, left, total, n, recycle, fates, victims, b, b', Owed(), cfg.batch);
      fates', victims' := fates + more, victims + sacrificed;
    }

    /** The polling loop; `short` says that a poll brought nothing. */
    method DrainLoop(recycle: bool) returns (total: nat, short: bool, ghost fates: seq<Fate>, ghost victims: nat)
      requires Inv([]) && Balanced() && |cqe| <= |posted|
      modifies `rxPool, `rxQueue, `posted, `debt, `drops, `delivered, `unpaid, `cqe, `wceCounter, `wasDrained
      modifies gpool, Mine()
      ensures Inv([]) && Balanced() && |cqe| <= |posted| && Mine() <= old(Mine())
      ensures old(InBound()) ==> InBound()
      ensures cqe == [] || old(wceCounter) + total >= cfg.wceMax || old(wasDrained)
      ensures SoFar(old(Tallied()), Tallied(), old(posted), posted, old(cqe), cqe, total, recycle, fates, victims)
      ensures total <= |old(cqe)| && Paying(old(Owed()), Owed(), total, Payable(old(cqe)[..total], recycle), cfg.batch)
      ensures wceCounter == old(wceCounter) + total && (short ==> cqe == [] && wasDrained)
      ensures !short ==> wceCounter >= cfg.wceMax || wasDrained
    {
      hide Inv, Mine, Balanced, InBound, Drained, Tallied, SoFar, Paying, Payable;
      total, short, fates, victims := 0, false, [], 0;
      ghost var start, wcs, t, b := posted, cqe, Tallied(), Owed();
      Begun(t, start, wcs, recycle);
      NonePaying(b, cfg.batch);
      NonePayable(recycle);
      assert wcs[..0] == [];
      while cfg.wceMax > wceCounter && !wasDrained
        invariant Inv([]) && Balanced() && |cqe| <= |posted| && Mine() <= old(Mine())
        invariant old(InBound()) ==> InBound()
        invariant wceCounter == old(wceCounter) + total && (wasDrained ==> cqe == [] || old(wasDrained))
        invariant SoFar(t, Tallied(), start, posted, wcs, cqe, total, recycle, fates, victims)
        invariant total <= |wcs| && Paying(b, Owed(), total, Payable(wcs[..total], recycle), cfg.batch)
        decreases |cqe|
      {
        var n;
        n, fates, victims := DrainOn(recycle, t, b, start, wcs, total, fates, victims);
        total := total + n;
        if n == 0 {
          short := true;
          return;
        }
      }
    }

    /** drain_and_proccess: polls until the limit is reached or a poll comes back short. `short` says that
        a poll brought nothing; the counter and the flag are then left for the next call. */
    method Drain(recycle: bool) returns (total: nat, short: bool, ghost fates: seq<Fate>, ghost victims: nat)
      requires Inv([]) && Balanced() && |cqe| <= |posted|
      modifies `rxPool, `rxQueue, `posted, `debt, `drops, `delivered, `unpaid, `cqe, `wceCounter, `wasDrained
      modifies gpool, Mine()
      ensures Inv([]) && Balanced() && |cqe| <= |posted| && Mine() <= old(Mine())
      ensures old(InBound()) ==> InBound()
      ensures total <= |old(cqe)| && cqe == old(cqe)[total..]
      ensures cqe == [] || old(wceCounter) + total >= cfg.wceMax || (old(wasDrained) && !recycle)
      ensures Drained(old(Tallied()), Tallied(), old(posted)[..total], old(cqe)[..total], recycle, fates, victims)
      ensures !recycle && AllOk(old(cqe)) ==> |posted| + debt == |old(posted)| + old(debt)
      ensures PaidUp(old(posted), old(debt), total, Payable(old(cqe)[..total], recycle))
      ensures if short then cqe == [] && wasDrained && wceCounter == old(wceCounter) + total
              else wceCounter == 0 && !wasDrained
    {
      hide Inv, Mine, Balanced, InBound, Drained, Tallied, AllOk, SoFar, Payable;
      BalanceIs();
      ghost var start, wcs, t := posted, cqe, Tallied();
      if recycle {
        wasDrained := false;
      }
      total, short, fates, victims := DrainLoop(recycle);
      BalanceIs();
      Over(t, Tallied(), start, posted, wcs, cqe, total, recycle, fates, victims);
      if !short {
        wceCounter, wasDrained := 0, false;
      }
    }

    // ---------- buffers ready to be freed, and the end ----------

    /** reclaim_recv_single_buffer: a buffer nobody refers to any more joins the ready list at its end. */
    method ReclaimSingle(d: Desc) returns (left: int)
      requires Inv([]) && d in delivered && d.pbufRefs >= 0
      modifies `delivered, `ready, `rdyHead, `rdyTail, d, ready`next
      ensures Inv([])
      ensures left == d.pbufRefs == if old(d.pbufRefs) > 0 then old(d.pbufRefs) - 1 else 0
      ensures var freed := left == 0 && old(d.refs) <= 0;
              && ready == (if freed then old(ready) + [d] else old(ready))
              && delivered == (if freed then old(delivered) - multiset{d} else old(delivered))
    {
      hide OwnedAre, IsChain, ReadyOk, Loose, Distinct, Reversed, Pool.Valid;
      DeliveredPlaces(Now([]), [d], all);
      AloneIs(d, delivered);
      if d.pbufRefs != 0 {
        d.pbufRefs := d.pbufRefs - 1;
      }
      left := d.pbufRefs;
      if left == 0 && d.refs <= 0 {
        MakeReady(d);
      }
    }

    method MakeReady(d: Desc)
      requires Inv([]) && d in delivered && d.refs <= 0 && d.pbufRefs <= 0
      modifies `delivered, `ready, `rdyHead, `rdyTail, d`next, ready`next
      ensures Inv([]) && ready == old(ready) + [d] && delivered == old(delivered) - multiset{d}
    {
      hide OwnedAre, IsChain, ReadyOk, Loose, Distinct, Reversed, Pool.Valid;
      ReadyNext(Now([]), d, all);
      JoinReady(d);
      delivered := delivered - multiset{d};
    }

    /** The buffer is linked to the tail of the ready list. */
    method JoinReady(d: Desc)
      requires ReadyOk() && Distinct(ready) && d !in ready && d.refs <= 0 && d.pbufRefs <= 0
      modifies `ready, `rdyHead, `rdyTail, d`next, ready`next
      ensures ReadyOk() && ready == old(ready) + [d]
    {
      hide IsChain;
      LinkTail(d);
      ready := ready + [d];
      ChainGrown(rdyHead, old(ready), d);
    }

    method LinkTail(d: Desc)
      requires ReadyOk() && Distinct(ready) && d !in ready
      modifies `rdyHead, `rdyTail, d`next, ready`next
      ensures rdyHead == (if ready == [] then d else ready[0]) && rdyTail == d && d.next == null
      ensures ready != [] ==> ready[|ready| - 1].next == d
      ensures forall i | 0 <= i < |ready| - 1 :: ready[i].next == ready[i + 1]
    {
      assert forall i | 0 <= i < |ready| - 1 ::
          ready[i].next == Following(ready, i) == ready[i + 1] && ready[i] != rdyTail;
      hide IsChain;
      if rdyHead == null {
        rdyHead, rdyTail := d, d;
      } else {
        rdyTail.next := d;
        rdyTail := d;
      }
      rdyTail.next := null;
    }

    /** The ready list is reclaimed as one chain. */
    method ReclaimReady()
      requires Inv([])
      modifies `rxPool, `ready, `rdyHead, `rdyTail, `delivered, gpool, ready`next, ready`refs, ready`pbufRefs
      ensures Inv([]) && ready == [] && rdyHead == null && delivered == old(delivered)
      ensures InStock() == if old(rdyHead) == null then old(InStock())
                           else TakenBack(old(InStock()), old(ready), old(rdyHead.owner) == ring)
      ensures old(rdyHead) != null ==> old(rdyHead).refs <= 0 && old(rdyHead).pbufRefs == 0
    {
      hide Inv, IsChain, Reversed, TakenBack;
      ghost var chain := ready;
      MinusPlus(delivered, multiset(ready));
      var list := GiveUpReady();
      if list != null {
        Reclaim(list, chain);
      }
    }

    /** Empties the ready list; its buffers count as delivered until they are reclaimed. */
    method GiveUpReady() returns (list: Desc?)
      requires Inv([])
      modifies `ready, `rdyHead, `rdyTail, `delivered
      ensures Inv([]) && ready == [] && rdyHead == null && list == old(rdyHead) && (list == null <==> old(ready) == [])
      ensures delivered == old(delivered) + multiset(old(ready))
      ensures list != null ==> IsChain(list, old(ready)) && list in old(ready) && list.refs <= 0 && list.pbufRefs <= 0
    {
      hide OwnedAre, IsChain, ReadyOk, Loose, Distinct, Reversed, Pool.Valid;
      FirstReady();
      ReadyToDelivered(Now([]), all);
      list := rdyHead;
      delivered := delivered + multiset(ready);
      rdyHead, rdyTail, ready := null, null, [];
      NoneReady();
    }

    lemma FirstReady()
      requires ReadyOk()
      ensures IsChain(rdyHead, ready) && (rdyHead == null <==> ready == [])
      ensures rdyHead != null ==> rdyHead.refs <= 0 && rdyHead.pbufRefs <= 0 && rdyHead in ready
    {
    }

    lemma NoneReady()
      requires rdyHead == null && rdyTail == null && ready == []
      ensures ReadyOk()
    {
    }

    /** reclaim_recv_buffers on a chain given back by the ring. */
    method ReclaimBuffers(list: Desc, ghost chain: seq<Desc>)
      requires Inv([]) && IsChain(list, chain) && multiset(chain) <= delivered
      modifies `rxPool, `ready, `rdyHead, `rdyTail, `delivered, gpool, ready, chain, Mine()
      ensures Inv([]) && ready == []
      ensures var last, mine := old(list.refs) <= 1 && old(list.pbufRefs) <= 1, old(list.owner) == ring;
              var before := if old(rdyHead) == null then old(InStock())
                            else TakenBack(old(InStock()), old(ready), old(rdyHead.owner) == ring);
              && delivered == (if last then old(delivered) - multiset(chain) else old(delivered))
              && InStock() == Trimmed(if last then TakenBack(before, chain, mine) else before, cfg.level)
    {
      hide Inv, IsChain, Reversed, TakenBack, Trimmed, InStock;
      ChainApart(list, chain);
      ReclaimReady();
      Reclaim(list, chain);
      ReturnExtra([]);
    }

    lemma ChainApart(list: Desc, chain: seq<Desc>)
      requires Inv([]) && IsChain(list, chain) && multiset(chain) <= delivered
      ensures list in chain && Off(ready, chain) && forall d | d in chain :: d !in ready && d in all
    {
      DeliveredPlaces(Now([]), chain, all);
      FirstOf(list, chain);
    }

    /** What the destructor finds to put back: single buffers, of which the pool's j-th may come twice;
        the global list may be a circle by then. */
    ghost predicate Putable(j: int)
      reads `rxPool, `rxQueue, gpool, gpool.free`next, rxPool`next, rxQueue`next
    {
      && -1 <= j <= |rxPool| && gpool.members == all && gpool.Fits(rxPool, j)
      && Loose(rxQueue) && Distinct(rxQueue) && (forall d | d in rxQueue :: d in all)
      && Off(rxQueue, rxPool) && Off(rxQueue, gpool.free)
    }

    /** The buffers in the manager's pool and queue and on the global list. */
    ghost function Near(): set<Desc>
      reads `rxPool, `rxQueue, gpool`free
    {
      (set d | d in rxPool) + (set d | d in rxQueue) + set d | d in gpool.free
    }

    lemma AllPutable()
      requires Inv([])
      ensures Putable(|rxPool|) && Near() <= Mine()
    {
      hide OwnedAre, IsChain, ReadyOk, Pool.Valid;
      PoolPlaces(Now([]), all);
      QueuePlaces(Now([]), all);
      FreePlaces(Now([]), all);
      DistinctParts(gpool.free, rxPool);
      DistinctParts(gpool.free, rxQueue);
    }

    /** reclaim_recv_buffer_helper on a buffer that has been reclaimed already and is in the manager's
        pool or, when it belongs to another ring, on the global list. When nobody refers to it, it comes
        a second time: there are then two of it in the pool, or the global list is a circle. */
    method ReclaimAgain(d: Desc) returns (ghost j: int)
      requires Inv([]) && (if d.owner == ring then d in rxPool else d in gpool.free)
      modifies `rxPool, gpool, Near()
      ensures Putable(j) && Near() <= old(Near()) && rxQueue == old(rxQueue)
      ensures var last := old(d.refs) <= 1 && old(d.pbufRefs) <= 1;
              && rxPool == (if last && old(d.owner) == ring then old(rxPool) + [d] else old(rxPool))
              && (last && old(d.owner) == ring ==> 0 <= j < |old(rxPool)| && rxPool[j] == d && !Owns([]))
              && (last && old(d.owner) != ring ==> j == -1)
              && (!last ==> j == |rxPool|)
    {
      hide Inv, Putable, IsChain, Loose, Distinct, OwnedAre;
      AllPutable();
      j := |rxPool|;
      ghost var w := Now([]);
      if d.owner == ring { TwiceIs(d); }
      var refs, pbuf := d.refs, d.pbufRefs;
      d.refs := d.refs - 1;
      if refs <= 1 {
        d.pbufRefs := d.pbufRefs - 1;
        if pbuf <= 1 {
          if d.owner == ring {
            j := PushAgain(d);
            assert Now([]) == w.(pool := w.pool + [d]);
          } else {
            PutAgain(d);
            j := -1;
          }
        }
      }
    }

    lemma TwiceIs(d: Desc)
      requires Inv([]) && d in rxPool
      ensures !OwnedAre(Now([]).(pool := rxPool + [d]), all)
    {
      TwiceBreaks(Now([]), d, all);
    }

    method PushAgain(d: Desc) returns (ghost j: nat)
      requires Putable(|rxPool|) && d in rxPool
      modifies `rxPool, d`next, d`refs, d`pbufRefs
      ensures rxPool == old(rxPool) + [d] && j < |old(rxPool)| && rxPool[j] == d && Putable(j)
      ensures Near() <= old(Near())
    {
      hide Pool.Valid, Pool.Circular, IsChain, Distinct, Single;
      ghost var p := rxPool;
      j :| 0 <= j < |p| && p[j] == d;
      AloneIsChain(d);
      PushChain(d, [d]);
      SingleTwice(gpool.free, p, j);
    }

    method PutAgain(d: Desc)
      requires Putable(|rxPool|) && d in gpool.free
      modifies gpool, gpool.free`next, gpool.free`pbufRefs
      ensures Putable(-1) && Near() <= old(Near())
    {
      hide Pool.Valid, Pool.Circular, Distinct;
      gpool.FreeOnce();
      ghost var i :| 0 <= i < |gpool.free| && gpool.free[i] == d;
      var panic := gpool.PutAnywhere(d, i);
      SingleAlone(old(gpool.free), rxPool);
    }

    /** return_extra_buffers, whatever the last reclaim left behind. */
    method ReturnExtraAgain(ghost j: int) returns (ghost k: int)
      requires Putable(j)
      modifies `rxPool, gpool, Near()`next, Near()`pbufRefs
      ensures Putable(k) && Near() <= old(Near()) && rxQueue == old(rxQueue) && (j < |old(rxPool)| ==> k < |rxPool|)
    {
      hide Pool.Fits, Distinct;
      if |rxPool| < cfg.level * 2 {
        return j;
      }
      var extra := |rxPool| - cfg.level;
      k := Due(j, cfg.level, |rxPool|);
      var panic;
      rxPool, panic := gpool.PutBack(rxPool, extra, j);
      forall i | 0 <= i < |rxQueue| ensures rxQueue[i].next == null && rxQueue[i] !in gpool.free {
        assert rxQueue[i] !in old(gpool.Span(rxPool)) && rxQueue[i].next == old(rxQueue[i].next);
      }
    }

    lemma IfReady()
      requires Inv([])
      ensures rdyHead == null <==> ready == []
      ensures rdyHead != null ==> rdyHead in ready && rdyHead !in delivered
    {
      ReadyPlaces(Now([]), all);
    }

    /** The destructor's release of the ready list. It passes the head of that list to
        reclaim_recv_buffers, which reclaims the list on its own account first and then what it was
        given. */
    method ReleaseReady() returns (ghost j: int)
      requires Inv([])
      modifies `rxPool, `ready, `rdyHead, `rdyTail, `delivered, gpool, Mine(), ready
      ensures ready == [] && delivered == old(delivered) && rxQueue == old(rxQueue)
      ensures Putable(j) && (j < |rxPool| <==> old(ready) != [])
      ensures Near() <= old(Mine()) + set d | d in old(ready)
      ensures old(ready) == [] ==> Inv([]) && rxPool == old(rxPool) && gpool.free == old(gpool.free)
    {
      hide Inv, Putable, IsChain, Reversed, Near;
      IfReady();
      if rdyHead == null {
        AllPutable();
        return |rxPool|;
      }
      var again := rdyHead;
      ghost var s := ready;
      ReclaimReady();
      AllPutable();
      ReversedHas(s, again);
      assert again in old(rxPool) + s;
      j := ReclaimAgain(again);
      j := ReturnExtraAgain(j);
    }

    /** The rest of the destructor: queue and pool go back to the global list. */
    method PutAll(ghost j: int)
      requires Putable(j)
      modifies `rxPool, `rxQueue, gpool, Near()`next, Near()`pbufRefs
      ensures rxPool == [] && rxQueue == []
      ensures gpool.members == old(gpool.members)
      ensures j == |old(rxPool)| ==> gpool.Valid() && gpool.free == old(rxPool) + (old(rxQueue) + old(gpool.free))
      ensures j < |old(rxPool)| ==> gpool.Circular()
    {
      hide Pool.Valid, Pool.Circular, Loose, Distinct, Single;
      if |rxQueue| + |rxPool| > 0 {
        PutRxQueue(j);
        var panic;
        rxPool, panic := gpool.PutBack(rxPool, |rxPool|, j);
      }
    }

    method PutRxQueue(ghost j: int)
      requires Putable(j)
      modifies `rxQueue, gpool, gpool.Span(rxQueue)`next, gpool.Span(rxQueue)`pbufRefs
      ensures rxQueue == [] && gpool.Fits(rxPool, j) && (j >= 0 ==> gpool.free == old(rxQueue) + old(gpool.free))
      ensures gpool.Span([]) <= old(gpool.Span(rxQueue)) && gpool.members == old(gpool.members)
    {
      hide Pool.Valid, Pool.Circular, Loose, Distinct, Single, Pool.Span;
      ghost var free := gpool.free;
      QueueFits(j);
      var panic;
      rxQueue, panic := gpool.PutBack(rxQueue, |rxQueue|, if j < 0 then -1 else |rxQueue|);
      forall i | 0 <= i < |rxPool| && i != j ensures rxPool[i].next == null {
        assert rxPool[i].next == old(rxPool[i].next);
      }
    }

    lemma QueueFits(j: int)
      requires Putable(j)
      ensures gpool.Fits(rxQueue, if j < 0 then -1 else |rxQueue|)
      ensures forall i | 0 <= i < |rxPool| && i != j :: rxPool[i] !in gpool.Span(rxQueue)
      ensures Single(if j < 0 then [] else rxQueue + gpool.free, rxPool, j)
    {
      if j < 0 { gpool.CircleLinked(); }
    }

    /** When nothing comes twice, every buffer is still in one place. */
    method PutHome(ghost j: int)
      requires Putable(j) && (j == |rxPool| ==> Inv([]))
      modifies `rxPool, `rxQueue, gpool, Near()`next, Near()`pbufRefs
      ensures rxPool == [] && rxQueue == []
      ensures j == |old(rxPool)| ==> Inv([]) && gpool.free == old(rxPool) + (old(rxQueue) + old(gpool.free))
      ensures j < |old(rxPool)| ==> gpool.Circular()
    {
      hide OwnedAre, IsChain, ReadyOk, Loose, Distinct, Pool.Valid, Pool.Circular, Pool.Fits, Putable;
      ghost var w := Now([]);
      if j == |rxPool| {
        HomeIs(w, all);
        NothingLoose();
      }
      PutAll(j);
      assert j == |w.pool| ==> Now([]) == w.(free := w.pool + (w.queue + w.free), pool := [], queue := []);
    }

    /** The destructor. The global list is a chain afterwards, and every buffer accounted for, if and
        only if no buffer was ready to be freed. */
    method Destroy()
      requires Inv([])
      modifies `rxPool, `rxQueue, `ready, `rdyHead, `rdyTail, `delivered, gpool, Mine(), ready
      ensures rxPool == [] && rxQueue == [] && ready == [] && delivered == old(delivered)
      ensures (exists s :: IsChain(gpool.head, s)) <==> old(ready) == []
      ensures old(ready) == [] ==>
                && Inv([]) && gpool.free == old(rxPool) + (old(rxQueue) + old(gpool.free))
                && |gpool.free| + |posted| + |delivered| == |all| && gpool.n <= gpool.created
      ensures old(ready) != [] ==> gpool.Circular()
    {
      hide Inv, Near, Pool.Valid, Pool.Circular, Loose, Distinct, Off, Pool.Fits, IsChain;
      ghost var j := ReleaseReady();
      ghost var w := Now([]);
      PutHome(j);
      if j == |w.pool| {
        ListEnds();
        AllAccounted();
        FreeCount([]);
      } else {
        gpool.CircularNeverEnds();
      }
    }

    lemma ListEnds()
      requires Inv([])
      ensures IsChain(gpool.head, gpool.free)
    {
    }

    lemma AllAccounted()
      requires Inv([])
      ensures |gpool.free| + |rxPool| + |rxQueue| + |posted| + |ready| + |delivered| == |all|
    {
      assert |multiset(all)| == |all|;
    }
  }

  /** A run that ends with a circle: one packet is received, delivered and given back, and the manager is
      destroyed. */
  method RunToCircle() returns (cq: Cq)
    ensures cq.gpool.Circular() && forall s :: !IsChain(cq.gpool.head, s)
  {
    hide Cq.Inv, Cq.Balanced, Cq.InBound, IsChain, Pool.Circular;
    var d;
    cq, d := ReceiveOne();
    d.refs, d.pbufRefs := 0, 1;
    var left := cq.ReclaimSingle(d);
    cq.Destroy();
  }

  method ReceiveOne() returns (cq: Cq, d: Desc)
    ensures cq.Inv([]) && d in cq.delivered && cq.ready == [] && d in cq.all
    ensures fresh(cq) && fresh(cq.gpool) && fresh(cq.all)
  {
    hide Cq.Inv, Cq.Balanced, Cq.InBound, IsChain, Pool.Linked;
    var pool := new Pool(1);
    cq := new Cq(pool, Config(2, 1, 1, false, 1, 1), 0);
    cq.AddQpRx();
    cq.Complete(Wc(true, true, true));
    d := cq.posted[0];
    var n, queued, polled := cq.PollRx([]);
    cq.GivenIsOurs(d);
  }

  /** Pool and queue back on the global list. */
  lemma HomeIs(w: Where, all: set<Desc>)
    requires OwnedAre(w, all)
    ensures OwnedAre(w.(free := w.pool + (w.queue + w.free), pool := [], queue := []), all)
    ensures forall d | d in w.posted || d in w.ready :: d !in w.pool && d !in w.queue && d !in w.free
  {
    hide OwnedAre;
    QueueToFree(w, all);
    var w' := w.(free := w.queue + w.free, queue := []);
    PoolToFree(w', 0, all);
    assert w'.pool[0..] == w.pool && w'.pool[..0] == [];
    forall d | d in w.posted || d in w.ready ensures d !in w.pool && d !in w.queue && d !in w.free {
      Counts(w, all, d);
    }
  }

  lemma ReversedHas(s: seq<Desc>, d: Desc)
    ensures d in Reversed(s) <==> d in s
  {
    assert d in Reversed(s) <==> d in multiset(Reversed(s));
  }

  lemma AloneIsChain(d: Desc)
    requires d.next == null
    ensures IsChain(d, [d]) && Distinct([d])
  {
  }

  /** The j-th buffer is in the queue once more, at its end. */
  lemma SingleTwice(s: seq<Desc>, queue: seq<Desc>, j: nat)
    requires Single(s, queue, |queue|) && j < |queue|
    ensures Single(s, queue + [queue[j]], j)
  {
    var more := queue + [queue[j]];
    assert more[j + 1..][|queue| - j - 1] == queue[j];
  }

  lemma SingleAlone(s: seq<Desc>, queue: seq<Desc>)
    requires Single(s, queue, |queue|)
    ensures Single([], queue, -1)
  {
  }

  /** A delivered buffer may join the ready list. */
  lemma ReadyNext(w: Where, d: Desc, all: set<Desc>)
    requires OwnedAre(w, all) && d in w.delivered
    ensures OwnedAre(w.(ready := w.ready + [d], delivered := w.delivered - multiset{d}), all)
    ensures Distinct(w.ready) && d in all && d !in w.ready && d !in w.pool && d !in w.queue && d !in w.posted &&
            d !in w.free
    ensures Off(w.pool, w.ready) && Off(w.queue, w.ready) && Off(w.posted, w.ready) && Off(w.free, w.ready)
  {
    hide OwnedAre, Distinct;
    Counts(w, all, d);
    ReadyPlaces(w, all);
    DeliveredToReady(w, d, all);
  }

  /** The manager's pool and the global list. */
  datatype Stock = Stock(pool: seq<Desc>, free: seq<Desc>)

  /** A chain comes back: to the pool when it is the manager's own, otherwise to the global list. */
  function TakenBack(s: Stock, chain: seq<Desc>, mine: bool): Stock {
    if mine then s.(pool := s.pool + chain) else s.(free := Reversed(chain) + s.free)
  }

  /** A pool of at least twice the level shrinks to it. */
  function Trimmed(s: Stock, level: nat): Stock {
    if |s.pool| < 2 * level then s else Stock(s.pool[..level], s.pool[level..] + s.free)
  }

  lemma ChainGrown(head: Desc?, s: seq<Desc>, d: Desc)
    requires head == (if s == [] then d else s[0]) && d.next == null && (s != [] ==> s[|s| - 1].next == d)
    requires forall i | 0 <= i < |s| - 1 :: s[i].next == s[i + 1]
    ensures IsChain(head, s + [d])
  {
    var t := s + [d];
    forall i | 0 <= i < |t| ensures t[i].next == Following(t, i) {
      if i < |s| {
        assert t[i] == s[i];
      }
    }
  }

  lemma AreLoose(s: seq<Desc>)
    requires forall d | d in s :: d.next == null
    ensures Loose(s)
  {
  }

  /** Where the buffers are. */
  datatype Where = Where(
    free: seq<Desc>, pool: seq<Desc>, queue: seq<Desc>, posted: seq<Desc>, ready: seq<Desc>, delivered: M,
    hand: seq<Desc>)

  ghost predicate OwnedAre(w: Where, all: set<Desc>) {
    Total(multiset(w.free), multiset(w.pool), multiset(w.queue), multiset(w.posted), multiset(w.ready), w.delivered,
          multiset(w.hand))
    == multiset(all)
  }

  ghost predicate Off(s: seq<Desc>, t: seq<Desc>) {
    forall i | 0 <= i < |s| :: s[i] !in t
  }

  lemma FirstOf(list: Desc, chain: seq<Desc>)
    requires IsChain(list, chain)
    ensures list in chain
  {
  }

  lemma LooseConcat(s: seq<Desc>, t: seq<Desc>)
    requires Loose(s) && Loose(t)
    ensures Loose(s + t)
  {
  }

  lemma LooseSplit(s: seq<Desc>, k: nat)
    requires Loose(s) && k <= |s|
    ensures Loose(s[..k]) && Loose(s[k..])
  {
  }

  lemma FreeToPool(w: Where, k: nat, all: set<Desc>)
    requires k <= |w.free| && OwnedAre(w, all)
    ensures OwnedAre(w.(free := w.free[k..], pool := w.pool + w.free[..k]), all)
  {
    SplitAt(w.free, k);
  }

  lemma NothingLoose()
    ensures Loose([])
  {
  }

  lemma PoolToPosted(w: Where, k: nat, all: set<Desc>)
    requires k <= |w.pool| && OwnedAre(w, all)
    ensures OwnedAre(w.(pool := w.pool[k..], posted := w.posted + w.pool[..k]), all)
  {
    SplitAt(w.pool, k);
  }

  lemma HandToPosted(w: Where, all: set<Desc>)
    requires OwnedAre(w, all)
    ensures OwnedAre(w.(posted := w.posted + w.hand, hand := []), all)
  {
  }

  lemma AloneIs(d: Desc, m: M)
    ensures Reversed([d]) == [d] && multiset([d]) == multiset{d} && m + multiset{d} - multiset{d} == m
  {
  }

  lemma HandToDelivered(w: Where, all: set<Desc>)
    requires OwnedAre(w, all)
    ensures OwnedAre(w.(delivered := w.delivered + multiset(w.hand), hand := []), all)
  {
  }

  lemma HandToQueue(w: Where, all: set<Desc>)
    requires OwnedAre(w, all)
    ensures OwnedAre(w.(queue := w.queue + w.hand, hand := []), all)
    ensures OwnedAre(w.(queue := w.hand + w.queue, hand := []), all)
  {
  }

  lemma QueueToHand(w: Where, all: set<Desc>)
    requires OwnedAre(w, all) && w.queue != [] && w.hand == []
    ensures OwnedAre(w.(queue := w.queue[1..], hand := w.queue[..1]), all)
  {
    SplitAt(w.queue, 1);
  }

  lemma PostedToHand(w: Where, all: set<Desc>)
    requires OwnedAre(w, all) && w.posted != [] && w.hand == []
    ensures OwnedAre(w.(posted := w.posted[1..], hand := w.posted[..1]), all)
  {
    SplitAt(w.posted, 1);
  }

  lemma DeliveredToReady(w: Where, d: Desc, all: set<Desc>)
    requires OwnedAre(w, all) && d in w.delivered
    ensures OwnedAre(w.(ready := w.ready + [d], delivered := w.delivered - multiset{d}), all)
  {
    assert w.delivered - multiset{d} + multiset{d} == w.delivered;
  }

  lemma ReadyToDelivered(w: Where, all: set<Desc>)
    requires OwnedAre(w, all)
    ensures OwnedAre(w.(ready := [], delivered := w.delivered + multiset(w.ready)), all)
  {
  }

  lemma MinusPlus(m: M, c: M)
    ensures m + c - c == m && m + multiset{} == m
  {
  }

  lemma FreeToPosted(w: Where, k: nat, all: set<Desc>)
    requires k <= |w.free| && OwnedAre(w, all)
    ensures OwnedAre(w.(free := w.free[k..], posted := w.posted + w.free[..k]), all)
  {
    SplitAt(w.free, k);
  }

  lemma PoolToFree(w: Where, k: nat, all: set<Desc>)
    requires k <= |w.pool| && OwnedAre(w, all)
    ensures OwnedAre(w.(free := w.pool[k..] + w.free, pool := w.pool[..k]), all)
  {
    SplitAt(w.pool, k);
  }

  lemma QueueToFree(w: Where, all: set<Desc>)
    requires OwnedAre(w, all)
    ensures OwnedAre(w.(free := w.queue + w.free, queue := []), all)
  {
  }

  lemma Counts(w: Where, all: set<Desc>, d: Desc)
    requires OwnedAre(w, all)
    ensures multiset(w.free)[d] + multiset(w.pool)[d] + multiset(w.queue)[d] + multiset(w.posted)[d]
            + multiset(w.ready)[d] + w.delivered[d] + multiset(w.hand)[d] == if d in all then 1 else 0
    ensures d in w.free <==> multiset(w.free)[d] > 0
    ensures d in w.pool <==> multiset(w.pool)[d] > 0
    ensures d in w.queue <==> multiset(w.queue)[d] > 0
    ensures d in w.posted <==> multiset(w.posted)[d] > 0
    ensures d in w.ready <==> multiset(w.ready)[d] > 0
    ensures d in w.hand <==> multiset(w.hand)[d] > 0
  {
    Exclusive(multiset(w.free), multiset(w.pool), multiset(w.queue), multiset(w.posted), multiset(w.ready),
              w.delivered, multiset(w.hand), all, d);
  }

  /** Free buffers are nowhere else. */
  lemma FreePlaces(w: Where, all: set<Desc>)
    requires OwnedAre(w, all)
    ensures Off(w.pool, w.free) && Off(w.queue, w.free) && Off(w.posted, w.free) && Off(w.ready, w.free) &&
            Off(w.hand, w.free)
    ensures forall d | d in w.free :: d in all && d !in w.delivered && d !in w.ready
  {
    forall d: Desc
      ensures d in w.free ==> && d in all && d !in w.delivered && d !in w.ready && d !in w.pool && d !in w.queue
                              && d !in w.posted && d !in w.hand
    {
      Counts(w, all, d);
      hide OwnedAre;
    }
  }

  /** Buffers of the manager's pool are nowhere else, and each is there once. */
  lemma PoolPlaces(w: Where, all: set<Desc>)
    requires OwnedAre(w, all)
    ensures Off(w.free, w.pool) && Off(w.queue, w.pool) && Off(w.posted, w.pool) && Off(w.ready, w.pool) &&
            Off(w.hand, w.pool)
    ensures Distinct(w.free + w.pool) && forall d | d in w.pool :: d in all && d !in w.delivered && d !in w.ready
  {
    forall d: Desc
      ensures d in w.pool ==> && d in all && d !in w.delivered && d !in w.ready && d !in w.free && d !in w.queue
                              && d !in w.posted && d !in w.hand
      ensures multiset(w.free + w.pool)[d] <= 1
    {
      Counts(w, all, d);
      hide OwnedAre;
      assert multiset(w.free + w.pool)[d] == multiset(w.free)[d] + multiset(w.pool)[d];
    }
    CountsDistinct(w.free + w.pool);
  }

  /** The same for the software queue. */
  lemma QueuePlaces(w: Where, all: set<Desc>)
    requires OwnedAre(w, all)
    ensures Off(w.free, w.queue) && Off(w.pool, w.queue) && Off(w.posted, w.queue) && Off(w.ready, w.queue) &&
            Off(w.hand, w.queue)
    ensures Distinct(w.free + w.queue) && forall d | d in w.queue :: d in all && d !in w.delivered && d !in w.ready
  {
    PoolPlaces(w.(pool := w.queue, queue := w.pool), all);
  }

  ghost function Elsewhere(free: seq<Desc>, all: set<Desc>): set<Desc> {
    set d | d in all && d !in free
  }

  lemma FreeAndElsewhere(free: seq<Desc>, all: set<Desc>)
    requires Distinct(free) && forall d | d in free :: d in all
    ensures OwnedAre(Where(free, [], [], [], [], multiset(Elsewhere(free, all)), []), all)
  {
    var here := set d | d in free;
    OneEach(free, here);
    hide Distinct;
    assert multiset(here) + multiset(Elsewhere(free, all)) == multiset(all);
  }

  lemma OneEach(s: seq<Desc>, all: set<Desc>)
    requires Distinct(s) && forall d :: d in s <==> d in all
    ensures multiset(s) == multiset(all)
  {
    if s != [] {
      var front, last := s[..|s| - 1], s[|s| - 1];
      assert s == front + [last];
      OneEach(front, all - {last});
    }
  }

  /** Delivered buffers are nowhere else, and each is there once. */
  lemma DeliveredPlaces(w: Where, chain: seq<Desc>, all: set<Desc>)
    requires OwnedAre(w, all) && multiset(chain) <= w.delivered
    ensures Off(w.pool, chain) && Off(w.queue, chain) && Off(w.posted, chain) && Off(w.ready, chain) &&
            Off(w.hand, chain)
    ensures Off(w.free, chain) && Distinct(w.free + chain) && Distinct(chain) && forall d | d in chain :: d in all
  {
    forall d: Desc
      ensures d in chain ==> && d in all && d !in w.ready && d !in w.free && d !in w.pool && d !in w.queue
                             && d !in w.posted && d !in w.hand
      ensures multiset(w.free + chain)[d] <= 1 && multiset(chain)[d] <= 1
    {
      Counts(w, all, d);
      hide OwnedAre;
      assert d in chain <==> multiset(chain)[d] > 0;
      assert multiset(chain)[d] <= w.delivered[d];
      assert multiset(w.free + chain)[d] == multiset(w.free)[d] + multiset(chain)[d];
    }
    CountsDistinct(w.free + chain);
    CountsDistinct(chain);
  }

  /** Buffers ready to be freed are nowhere else, and each is there once. */
  lemma ReadyPlaces(w: Where, all: set<Desc>)
    requires OwnedAre(w, all)
    ensures Off(w.free, w.ready) && Off(w.pool, w.ready) && Off(w.queue, w.ready) && Off(w.posted, w.ready) &&
            Off(w.hand, w.ready)
    ensures Distinct(w.ready) && forall d | d in w.ready :: d in all && d !in w.delivered
  {
    forall d: Desc
      ensures d in w.ready ==> && d in all && d !in w.delivered && d !in w.pool && d !in w.free && d !in w.queue
                               && d !in w.posted && d !in w.hand
      ensures multiset(w.ready)[d] <= 1
    {
      Counts(w, all, d);
      hide OwnedAre;
    }
    CountsDistinct(w.ready);
  }

  /** A buffer that comes to the manager's pool a second time is in two places. */
  lemma TwiceBreaks(w: Where, d: Desc, all: set<Desc>)
    requires OwnedAre(w, all) && d in w.pool
    ensures !OwnedAre(w.(pool := w.pool + [d]), all)
  {
    Counts(w, all, d);
    var w' := w.(pool := w.pool + [d]);
    assert multiset(w'.pool)[d] == multiset(w.pool)[d] + 1;
    if OwnedAre(w', all) {
      Counts(w', all, d);
    }
  }

  lemma DeliveredToPool(w: Where, chain: seq<Desc>, all: set<Desc>)
    requires OwnedAre(w, all) && multiset(chain) <= w.delivered
    ensures OwnedAre(w.(pool := w.pool + chain, delivered := w.delivered - multiset(chain)), all)
  {
    assert w.delivered - multiset(chain) + multiset(chain) == w.delivered;
  }

  lemma DeliveredToFree(w: Where, chain: seq<Desc>, all: set<Desc>)
    requires OwnedAre(w, all) && multiset(chain) <= w.delivered
    ensures OwnedAre(w.(free := Reversed(chain) + w.free, delivered := w.delivered - multiset(chain)), all)
  {
    assert w.delivered - multiset(chain) + multiset(chain) == w.delivered;
  }
}

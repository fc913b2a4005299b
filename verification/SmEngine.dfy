/**
 Running a state machine to completion (lock_in_process, unlock_in_process and process_event in
 src/state_machine/sm.cpp, with the FIFO of sm_fifo.cpp). Callbacks may post events while one is
 being handled; those wait in the FIFO.

 What callbacks post is given by a script: the n-th callback invocation of the run posts the events
 of its n-th entry, in order, and nothing beyond the end. Every run in which callbacks post finitely
 many events follows some script.
 */
module SmEngine {
  import opened SmTable

  datatype Event = Event(ev: int, data: nat)

  datatype Kind = Notified | Left | Moved | Entered

  /** A callback invocation with the info it is shown. */
  datatype Call = Call(kind: Kind, action: Action, old_: int, new_: int, event: Event)

  datatype Config = Config(table: seq<StateInfo>, events: nat, notify: Action)

  type Script = seq<seq<Event>>

  predicate Illegal(e: Event, events: nat) {
    e.ev > events || e.ev < 0
  }

  /** The table covers every legal event, except the one number the range check lets through. */
  ghost predicate WellFormed(c: Config) {
    && Closed(c.table)
    && forall st | 0 <= st < |c.table| :: |c.table[st].events| == c.events
  }

  /** Of the events the range test lets through, all but the number `events` itself have a cell in the
      table, and that number is let through. */
  lemma RangeTest(c: Config, st: int, e: Event)
    requires WellFormed(c) && 0 <= st < |c.table|
    ensures !Illegal(e, c.events) ==> (0 <= e.ev < |c.table[st].events| <==> e.ev != c.events)
    ensures !Illegal(Event(c.events, e.data), c.events)
  {
  }

  ghost predicate Proper(es: seq<Event>, events: nat) {
    forall e | e in es :: e.ev != events
  }

  ghost predicate ProperScript(script: Script, events: nat) {
    forall n | 0 <= n < |script| :: Proper(script[n], events)
  }

  function Posts(script: Script, n: nat): seq<Event> {
    if n < |script| then script[n] else []
  }

  /** Number of events the script still posts from its n-th entry on. */
  function Remaining(script: Script, n: nat): (k: nat)
    decreases |script| - n
  {
    if n >= |script| then 0 else |script[n]| + Remaining(script, n + 1)
  }

  /** All events posted by invocations a, a + 1, ..., b - 1. */
  function PostedBetween(script: Script, a: nat, b: nat): seq<Event>
    requires a <= b
  {
    if a == b then [] else PostedBetween(script, a, b - 1) + Posts(script, b - 1)
  }

  // ---------- a plain queue machine ----------

  datatype World = World(state: int, calls: nat, trace: seq<Call>)

  function Fire(w: World, wanted: bool, call: Call): World {
    if wanted && call.action.Func? then World(w.state, w.calls + 1, w.trace + [call]) else w
  }

  /** Handles one event, start to end: notification, leave, transition and entry callbacks, then the
      change of state. */
  function HandleOne(c: Config, w: World, e: Event): World
    requires WellFormed(c) && 0 <= w.state < |c.table| && e.ev != c.events
  {
    if Illegal(e, c.events) then w
    else
      var row := c.table[w.state];
      var next := row.events[e.ev].next;
      var moves := next != w.state && next != STAY;
      var w1 := Fire(w, true, Call(Notified, c.notify, w.state, next, e));
      var w2 := Fire(w1, moves, Call(Left, row.leave, w.state, next, e));
      var w3 := Fire(w2, true, Call(Moved, row.events[e.ev].trans, w.state, next, e));
      var w4 := Fire(w3, moves, Call(Entered, if moves then c.table[next].entry else Null, w.state, next, e));
      if moves then w4.(state := next) else w4
  }

  lemma HandleOneFacts(c: Config, w: World, e: Event)
    requires WellFormed(c) && 0 <= w.state < |c.table| && e.ev != c.events
    ensures var w' := HandleOne(c, w, e);
            0 <= w'.state < |c.table| && w.calls <= w'.calls && w.trace <= w'.trace
  {
  }

  lemma {:induction false} RemainingSplit(script: Script, a: nat, b: nat)
    requires a <= b
    ensures |PostedBetween(script, a, b)| + Remaining(script, b) == Remaining(script, a)
  {
    if a < b {
      RemainingSplit(script, a, b - 1);
    }
  }

  lemma {:induction false} PostedProper(script: Script, events: nat, a: nat, b: nat)
    requires a <= b && ProperScript(script, events)
    ensures Proper(PostedBetween(script, a, b), events)
  {
    if a < b {
      PostedProper(script, events, a, b - 1);
    }
  }

  lemma {:induction false} PostedConcat(script: Script, a: nat, b: nat, c: nat)
    requires a <= b <= c
    ensures PostedBetween(script, a, b) + PostedBetween(script, b, c) == PostedBetween(script, a, c)
  {
    if b < c {
      PostedConcat(script, a, b, c - 1);
    }
  }

  ghost predicate Ready(c: Config, script: Script, w: World, queue: seq<Event>) {
    WellFormed(c) && ProperScript(script, c.events) && 0 <= w.state < |c.table| && Proper(queue, c.events)
  }

  /** What is left to do once the first event of the queue has been handled. */
  function Rest(c: Config, script: Script, w: World, queue: seq<Event>): (r: (World, seq<Event>))
    requires Ready(c, script, w, queue) && queue != []
    ensures Ready(c, script, r.0, r.1)
    ensures |r.1| + Remaining(script, r.0.calls) < |queue| + Remaining(script, w.calls)
    ensures w.calls <= r.0.calls && r.1 == queue[1..] + PostedBetween(script, w.calls, r.0.calls)
  {
    var w' := HandleOne(c, w, queue[0]);
    HandleOneFacts(c, w, queue[0]);
    PostedProper(script, c.events, w.calls, w'.calls);
    RemainingSplit(script, w.calls, w'.calls);
    (w', queue[1..] + PostedBetween(script, w.calls, w'.calls))
  }

  /** The queue machine: handle the first event, append what its callbacks posted, repeat. */
  function Drain(c: Config, script: Script, w: World, queue: seq<Event>): (r: World)
    requires Ready(c, script, w, queue)
    ensures 0 <= r.state < |c.table| && r.calls >= w.calls
    decreases |queue| + Remaining(script, w.calls)
  {
    if queue == [] then w
    else
      var (w', queue') := Rest(c, script, w, queue);
      Drain(c, script, w', queue')
  }

  /** The events handled, in order. */
  ghost function Handled(c: Config, script: Script, w: World, queue: seq<Event>): seq<Event>
    requires Ready(c, script, w, queue)
    decreases |queue| + Remaining(script, w.calls)
  {
    if queue == [] then []
    else
      var (w', queue') := Rest(c, script, w, queue);
      [queue[0]] + Handled(c, script, w', queue')
  }

  /** Events are handled in the order of their submission: first those already queued, then
      everything the callbacks post, in the order they post it. */
  lemma {:induction false} SubmissionOrder(c: Config, script: Script, w: World, queue: seq<Event>)
    requires Ready(c, script, w, queue)
    ensures Handled(c, script, w, queue) ==
            queue + PostedBetween(script, w.calls, Drain(c, script, w, queue).calls)
    decreases |queue| + Remaining(script, w.calls)
  {
    if queue == [] {
      assert PostedBetween(script, w.calls, w.calls) == [];
    } else {
      hide Remaining, PostedBetween, HandleOne, Ready;
      var (w', queue') := Rest(c, script, w, queue);
      var end := Drain(c, script, w, queue).calls;
      SubmissionOrder(c, script, w', queue');
      PostedConcat(script, w.calls, w'.calls, end);
      Joined(queue, PostedBetween(script, w.calls, w'.calls), PostedBetween(script, w'.calls, end));
    }
  }

  lemma Joined<T>(q: seq<T>, p1: seq<T>, p2: seq<T>)
    requires q != []
    ensures [q[0]] + (q[1..] + p1 + p2) == q + (p1 + p2)
  {
  }

  ghost function Flatten(blocks: seq<seq<Call>>): seq<Call> {
    if blocks == [] then [] else blocks[0] + Flatten(blocks[1..])
  }

  /** The callbacks invoked for each handled event. */
  ghost function Blocks(c: Config, script: Script, w: World, queue: seq<Event>): seq<seq<Call>>
    requires Ready(c, script, w, queue)
    decreases |queue| + Remaining(script, w.calls)
  {
    if queue == [] then []
    else
      var (w', queue') := Rest(c, script, w, queue);
      HandleOneFacts(c, w, queue[0]);
      [w'.trace[|w.trace|..]] + Blocks(c, script, w', queue')
  }

  ghost predicate AllFor(calls: seq<Call>, e: Event) {
    forall k | k in calls :: k.event == e
  }

  /** Between w and w' only callbacks for e were invoked. */
  ghost predicate Grew(w: World, w': World, e: Event) {
    w.trace <= w'.trace && AllFor(w'.trace[|w.trace|..], e)
  }

  lemma FireGrew(w: World, w': World, wanted: bool, call: Call)
    requires Grew(w, w', call.event)
    ensures Grew(w, Fire(w', wanted, call), call.event)
  {
    var w'' := Fire(w', wanted, call);
    if w'' != w' {
      assert w''.trace[|w.trace|..] == w'.trace[|w.trace|..] + [call];
    }
  }

  lemma BlockOf(c: Config, w: World, e: Event)
    requires WellFormed(c) && 0 <= w.state < |c.table| && e.ev != c.events
    ensures Grew(w, HandleOne(c, w, e), e)
  {
    assert Grew(w, w, e);
    if !Illegal(e, c.events) {
      hide Fire, AllFor;
      var row := c.table[w.state];
      var next := row.events[e.ev].next;
      var moves := next != w.state && next != STAY;
      var call1 := Call(Notified, c.notify, w.state, next, e);
      var call2 := Call(Left, row.leave, w.state, next, e);
      var call3 := Call(Moved, row.events[e.ev].trans, w.state, next, e);
      var call4 := Call(Entered, if moves then c.table[next].entry else Null, w.state, next, e);
      FireGrew(w, w, true, call1);
      FireGrew(w, Fire(w, true, call1), moves, call2);
      FireGrew(w, Fire(Fire(w, true, call1), moves, call2), true, call3);
      FireGrew(w, Fire(Fire(Fire(w, true, call1), moves, call2), true, call3), moves, call4);
    }
  }

  /** The trace grew by the blocks, one for each handled event, in order. */
  ghost predicate OneBlockEach(from: seq<Call>, to: seq<Call>, blocks: seq<seq<Call>>, handled: seq<Event>) {
    && |blocks| == |handled|
    && to == from + Flatten(blocks)
    && forall i | 0 <= i < |blocks| :: AllFor(blocks[i], handled[i])
  }

  lemma BlockFirst(
    t: seq<Call>, t1: seq<Call>, t2: seq<Call>, b: seq<Call>, bs: seq<seq<Call>>, e: Event, es: seq<Event>)
    requires t1 == t + b && AllFor(b, e) && OneBlockEach(t1, t2, bs, es)
    ensures OneBlockEach(t, t2, [b] + bs, [e] + es)
  {
    hide AllFor;
    assert ([b] + bs)[1..] == bs;
  }

  /** The callbacks of one event are never interleaved with those of another: the trace is one block
      per handled event, in order. */
  lemma {:induction false} NoOverlap(c: Config, script: Script, w: World, queue: seq<Event>)
    requires Ready(c, script, w, queue)
    ensures OneBlockEach(w.trace, Drain(c, script, w, queue).trace, Blocks(c, script, w, queue),
            Handled(c, script, w, queue))
    decreases |queue| + Remaining(script, w.calls)
  {
    if queue != [] {
      var (w', queue') := Rest(c, script, w, queue);
      BlockOf(c, w, queue[0]);
      var block := w'.trace[|w.trace|..];
      assert w'.trace == w.trace + block;
      hide Remaining, PostedBetween, HandleOne, OneBlockEach, Ready;
      NoOverlap(c, script, w', queue');
      BlockFirst(w.trace, w'.trace, Drain(c, script, w', queue').trace, block, Blocks(c, script, w', queue'),
                 queue[0], Handled(c, script, w', queue'));
    }
  }

  // ---------- what the table says of a run ----------

  /** Where an event leads from a state: to the next state of its cell, nowhere for STAY, and nowhere
      when the event is out of range. */
  function NextState(c: Config, st: int, e: Event): (next: int)
    requires WellFormed(c) && 0 <= st < |c.table| && e.ev != c.events
    ensures 0 <= next < |c.table|
  {
    if Illegal(e, c.events) then st
    else
      assert Inside(c.table[st].events[e.ev].next, |c.table|);
      if c.table[st].events[e.ev].next == STAY then st else c.table[st].events[e.ev].next
  }

  /** The state after a sequence of events. */
  function StateAfter(c: Config, st: int, es: seq<Event>): (next: int)
    requires WellFormed(c) && 0 <= st < |c.table| && Proper(es, c.events)
    ensures 0 <= next < |c.table|
    decreases |es|
  {
    if es == [] then st else StateAfter(c, NextState(c, st, es[0]), es[1..])
  }

  /** The callbacks that are due for an event in a state: notification and transition always, leave and
      entry when the state changes, each with the action of its row and unless that is NULL. */
  ghost predicate Due(c: Config, st: int, e: Event, k: Call)
    requires WellFormed(c) && 0 <= st < |c.table| && e.ev != c.events
  {
    && !Illegal(e, c.events) && k.action.Func?
    && k.event == e && k.old_ == st && k.new_ == c.table[st].events[e.ev].next
    && match k.kind
       case Notified => k.action == c.notify
       case Left => NextState(c, st, e) != st && k.action == c.table[st].leave
       case Moved => k.action == c.table[st].events[e.ev].trans
       case Entered => NextState(c, st, e) != st && k.action == c.table[NextState(c, st, e)].entry
  }

  function Rank(kind: Kind): nat {
    match kind
    case Notified => 0
    case Left => 1
    case Moved => 2
    case Entered => 3
  }

  /** Exactly the callbacks that are due, each once: notification, leave, transition, entry. */
  ghost predicate BlockIs(c: Config, st: int, e: Event, block: seq<Call>)
    requires WellFormed(c) && 0 <= st < |c.table| && e.ev != c.events
  {
    && (forall k :: k in block <==> Due(c, st, e, k))
    && forall i, j | 0 <= i < j < |block| :: Rank(block[i].kind) < Rank(block[j].kind)
  }

  function One(wanted: bool, call: Call): seq<Call> {
    if wanted && call.action.Func? then [call] else []
  }

  lemma FireOne(w: World, wanted: bool, call: Call)
    ensures var w' := Fire(w, wanted, call);
            && w'.trace == w.trace + One(wanted, call) && w'.state == w.state
            && w'.calls == w.calls + |One(wanted, call)|
  {
  }

  lemma FourIn(a: seq<Call>, b: seq<Call>, c: seq<Call>, d: seq<Call>, k: Call)
    ensures k in a + b + c + d <==> k in a || k in b || k in c || k in d
  {
  }

  lemma FourRanked(a: seq<Call>, b: seq<Call>, c: seq<Call>, d: seq<Call>)
    requires |a| <= 1 && |b| <= 1 && |c| <= 1 && |d| <= 1
    requires forall k | k in a :: k.kind == Notified
    requires forall k | k in b :: k.kind == Left
    requires forall k | k in c :: k.kind == Moved
    requires forall k | k in d :: k.kind == Entered
    ensures var all := a + b + c + d;
            forall i, j | 0 <= i < j < |all| :: Rank(all[i].kind) < Rank(all[j].kind)
  {
  }

  /** The callbacks of one event, one after the other. */
  lemma HandleOneParts(c: Config, w: World, e: Event, row: StateInfo, next: int, moves: bool)
    requires WellFormed(c) && 0 <= w.state < |c.table| && 0 <= e.ev < c.events && row == c.table[w.state]
    requires next == row.events[e.ev].next && moves == (next != w.state && next != STAY)
    ensures var w' := HandleOne(c, w, e);
            var block := One(true, Call(Notified, c.notify, w.state, next, e))
                         + One(moves, Call(Left, row.leave, w.state, next, e))
                         + One(true, Call(Moved, row.events[e.ev].trans, w.state, next, e))
                         + One(moves, Call(Entered, if moves then c.table[next].entry else Null, w.state, next, e));
            && w' == World(if moves then next else w.state, w.calls + |block|, w.trace + block)
  {
    hide Fire, One;
    var k1 := Call(Notified, c.notify, w.state, next, e);
    var k2 := Call(Left, row.leave, w.state, next, e);
    var k3 := Call(Moved, row.events[e.ev].trans, w.state, next, e);
    var k4 := Call(Entered, if moves then c.table[next].entry else Null, w.state, next, e);
    FireFour(w, k1, k2, k3, k4, moves);
  }

  lemma FireFour(w: World, k1: Call, k2: Call, k3: Call, k4: Call, moves: bool)
    ensures var w' := Fire(Fire(Fire(Fire(w, true, k1), moves, k2), true, k3), moves, k4);
            var block := One(true, k1) + One(moves, k2) + One(true, k3) + One(moves, k4);
            w' == World(w.state, w.calls + |block|, w.trace + block)
  {
    hide Fire, One;
    var w1 := Fire(w, true, k1);
    var w2 := Fire(w1, moves, k2);
    var w3 := Fire(w2, true, k3);
    FireOne(w, true, k1);
    FireOne(w1, moves, k2);
    FireOne(w2, true, k3);
    FireOne(w3, moves, k4);
    FourAppended(w.trace, One(true, k1), One(moves, k2), One(true, k3), One(moves, k4));
  }

  lemma FourAppended(t: seq<Call>, a: seq<Call>, b: seq<Call>, c: seq<Call>, d: seq<Call>)
    ensures t + a + b + c + d == t + (a + b + c + d)
  {
  }

  /** Handling one event appends its callbacks, counts them, and ends in the state the table says. */
  lemma HandleOneIs(c: Config, w: World, e: Event)
    requires WellFormed(c) && 0 <= w.state < |c.table| && e.ev != c.events
    ensures var w' := HandleOne(c, w, e);
            && w'.state == NextState(c, w.state, e) && w.trace <= w'.trace
            && w'.calls - w.calls == |w'.trace| - |w.trace|
            && BlockIs(c, w.state, e, w'.trace[|w.trace|..])
  {
    if !Illegal(e, c.events) {
      var row := c.table[w.state];
      var next := row.events[e.ev].next;
      var moves := next != w.state && next != STAY;
      HandleOneParts(c, w, e, row, next, moves);
      hide HandleOne;
      DueIs(c, w.state, e, row, next, moves);
      hide One, BlockIs;
      var block := One(true, Call(Notified, c.notify, w.state, next, e))
                   + One(moves, Call(Left, row.leave, w.state, next, e))
                   + One(true, Call(Moved, row.events[e.ev].trans, w.state, next, e))
                   + One(moves, Call(Entered, if moves then c.table[next].entry else Null, w.state, next, e));
      assert (w.trace + block)[|w.trace|..] == block;
    }
  }

  lemma DueIs(c: Config, st: int, e: Event, row: StateInfo, next: int, moves: bool)
    requires WellFormed(c) && 0 <= st < |c.table| && 0 <= e.ev < c.events && row == c.table[st]
    requires next == row.events[e.ev].next && moves == (next != st && next != STAY)
    ensures var block := One(true, Call(Notified, c.notify, st, next, e))
                         + One(moves, Call(Left, row.leave, st, next, e))
                         + One(true, Call(Moved, row.events[e.ev].trans, st, next, e))
                         + One(moves, Call(Entered, if moves then c.table[next].entry else Null, st, next, e));
            BlockIs(c, st, e, block)
  {
    var a := One(true, Call(Notified, c.notify, st, next, e));
    var b := One(moves, Call(Left, row.leave, st, next, e));
    var m := One(true, Call(Moved, row.events[e.ev].trans, st, next, e));
    var d := One(moves, Call(Entered, if moves then c.table[next].entry else Null, st, next, e));
    FourRanked(a, b, m, d);
    assert NextState(c, st, e) == if moves then next else st;
    forall k ensures k in a + b + m + d <==> Due(c, st, e, k) {
      FourIn(a, b, m, d, k);
    }
  }

  /** Every block of a run is the one the table says, for the event and for the state the events before
      it led to. */
  ghost predicate BlocksAre(c: Config, st: int, es: seq<Event>, blocks: seq<seq<Call>>)
    requires WellFormed(c) && 0 <= st < |c.table| && Proper(es, c.events)
  {
    && |blocks| == |es|
    && forall i | 0 <= i < |es| ::
         Proper(es[..i], c.events) && BlockIs(c, StateAfter(c, st, es[..i]), es[i], blocks[i])
  }

  lemma {:induction false} HandledProper(c: Config, script: Script, w: World, queue: seq<Event>)
    requires Ready(c, script, w, queue)
    ensures Proper(Handled(c, script, w, queue), c.events)
    decreases |queue| + Remaining(script, w.calls)
  {
    if queue != [] {
      var (w', queue') := Rest(c, script, w, queue);
      HandledProper(c, script, w', queue');
    }
  }

  /** A whole run by the table alone: it ends in the state the handled events lead to, every event has
      exactly its callbacks in their order, and the count of callbacks is the length of the trace. */
  lemma {:induction false} RunByTable(c: Config, script: Script, w: World, queue: seq<Event>)
    requires Ready(c, script, w, queue)
    ensures var es, end := Handled(c, script, w, queue), Drain(c, script, w, queue);
            && Proper(es, c.events) && end.state == StateAfter(c, w.state, es)
            && BlocksAre(c, w.state, es, Blocks(c, script, w, queue))
            && end.calls - w.calls == |end.trace| - |w.trace|
    decreases |queue| + Remaining(script, w.calls)
  {
    HandledProper(c, script, w, queue);
    if queue != [] {
      var (w', queue') := Rest(c, script, w, queue);
      HandleOneIs(c, w, queue[0]);
      hide HandleOne, PostedBetween, Remaining, Ready, BlockIs, WellFormed;
      RunByTable(c, script, w', queue');
      BlocksFirst(c, w.state, queue[0], Handled(c, script, w', queue'), w'.trace[|w.trace|..],
                  Blocks(c, script, w', queue'));
    }
  }

  lemma BlocksFirst(c: Config, st: int, e: Event, es: seq<Event>, b: seq<Call>, bs: seq<seq<Call>>)
    requires WellFormed(c) && 0 <= st < |c.table| && e.ev != c.events && Proper(es, c.events)
    requires BlockIs(c, st, e, b) && BlocksAre(c, NextState(c, st, e), es, bs)
    ensures Proper([e] + es, c.events) && BlocksAre(c, st, [e] + es, [b] + bs)
    ensures StateAfter(c, st, [e] + es) == StateAfter(c, NextState(c, st, e), es)
  {
    hide BlockIs;
    var all, blocks := [e] + es, [b] + bs;
    assert all[1..] == es;
    forall i | 0 <= i < |all|
      ensures Proper(all[..i], c.events) && BlockIs(c, StateAfter(c, st, all[..i]), all[i], blocks[i])
    {
      if i > 0 {
        assert all[..i][1..] == es[..i - 1] && all[..i][0] == e;
        assert BlockIs(c, StateAfter(c, NextState(c, st, e), es[..i - 1]), es[i - 1], bs[i - 1]);
      }
    }
  }

  /** What the table says of handling `es`: where it ends, and which callbacks were invoked in which
      order. */
  ghost predicate TableSays(c: Config, w: World, end: World, es: seq<Event>) {
    && WellFormed(c) && 0 <= w.state < |c.table| && Proper(es, c.events)
    && exists blocks ::
         && BlocksAre(c, w.state, es, blocks)
         && end == World(StateAfter(c, w.state, es), w.calls + |Flatten(blocks)|, w.trace + Flatten(blocks))
  }

  lemma RunIs(c: Config, script: Script, w: World, queue: seq<Event>)
    requires Ready(c, script, w, queue)
    ensures var es, end := Handled(c, script, w, queue), Drain(c, script, w, queue);
            TableSays(c, w, end, es)
  {
    RunByTable(c, script, w, queue);
    NoOverlap(c, script, w, queue);
    hide Handled, Drain, Blocks, BlocksAre, StateAfter;
    var blocks := Blocks(c, script, w, queue);
    assert OneBlockEach(w.trace, Drain(c, script, w, queue).trace, blocks, Handled(c, script, w, queue));
  }

  /** The table built from accepted lines, read up to the end or up to the first refused line, is one
      the machine can run on exactly when no line that decides a cell has a stray next state. */
  lemma CompiledIsWellFormed(
    table: seq<StateInfo>, lines: seq<Line>, n: nat, states: nat, events: nat, d: Defaults, notify: Action)
    requires n <= |lines| && Means(table, lines, n, states, events, d)
    requires forall i | 0 <= i < n :: !Refused(lines, i, states, events, d)
    ensures WellFormed(Config(table, events, notify)) <==> NoStrayNext(lines, n)
  {
    CompiledIsClosed(table, lines, n, states, events, d);
    forall st | 0 <= st < |table| ensures |table[st].events| == events {
      assert RowMeans(table[st], lines, n, st, events, d);
    }
  }

  /** Every callback of the trace is shown states of the machine. */
  ghost predicate InsideAll(trace: seq<Call>, states: nat) {
    forall k | 0 <= k < |trace| :: 0 <= trace[k].old_ < states && Inside(trace[k].new_, states)
  }

  lemma FireInside(w: World, wanted: bool, call: Call, states: nat)
    requires InsideAll(w.trace, states) && 0 <= call.old_ < states && Inside(call.new_, states)
    ensures InsideAll(Fire(w, wanted, call).trace, states)
  {
  }

  lemma HandleInside(c: Config, w: World, e: Event)
    requires WellFormed(c) && 0 <= w.state < |c.table| && e.ev != c.events && InsideAll(w.trace, |c.table|)
    ensures InsideAll(HandleOne(c, w, e).trace, |c.table|)
  {
    hide InsideAll;
    if !Illegal(e, c.events) {
      var row, n := c.table[w.state], |c.table|;
      var next := row.events[e.ev].next;
      var moves := next != w.state && next != STAY;
      var w1 := Fire(w, true, Call(Notified, c.notify, w.state, next, e));
      var w2 := Fire(w1, moves, Call(Left, row.leave, w.state, next, e));
      var w3 := Fire(w2, true, Call(Moved, row.events[e.ev].trans, w.state, next, e));
      hide Fire;
      FireInside(w, true, Call(Notified, c.notify, w.state, next, e), n);
      FireInside(w1, moves, Call(Left, row.leave, w.state, next, e), n);
      FireInside(w2, true, Call(Moved, row.events[e.ev].trans, w.state, next, e), n);
      FireInside(w3, moves, Call(Entered, if moves then c.table[next].entry else Null, w.state, next, e), n);
    }
  }

  lemma {:induction false} RunInside(c: Config, script: Script, w: World, queue: seq<Event>)
    requires Ready(c, script, w, queue) && InsideAll(w.trace, |c.table|)
    ensures InsideAll(Drain(c, script, w, queue).trace, |c.table|)
    decreases |queue| + Remaining(script, w.calls)
  {
    if queue != [] {
      var (w', queue') := Rest(c, script, w, queue);
      HandleInside(c, w, queue[0]);
      hide InsideAll, HandleOne;
      RunInside(c, script, w', queue');
    }
  }

  /** Every run on a compiled table stays inside the machine, from any of its states, whatever is
      posted: so does every state a callback is shown. */
  lemma CompiledRunInside(
    table: seq<StateInfo>, lines: seq<Line>, n: nat, states: nat, events: nat, d: Defaults, notify: Action,
    script: Script, start: int, queue: seq<Event>)
    requires n <= |lines| && Means(table, lines, n, states, events, d)
    requires forall i | 0 <= i < n :: !Refused(lines, i, states, events, d)
    requires NoStrayNext(lines, n) && 0 <= start < states
    requires ProperScript(script, events) && Proper(queue, events)
    ensures var c, w := Config(table, events, notify), World(start, 0, []);
            && Ready(c, script, w, queue)
            && 0 <= Drain(c, script, w, queue).state < states
            && InsideAll(Drain(c, script, w, queue).trace, states)
  {
    CompiledIsWellFormed(table, lines, n, states, events, d, notify);
    RunInside(Config(table, events, notify), script, World(start, 0, []), queue);
  }

  lemma DrainStep(c: Config, script: Script, w: World, e: Event, queue: seq<Event>)
    requires Ready(c, script, w, queue) && e.ev != c.events
    ensures var w' := HandleOne(c, w, e);
            && w.calls <= w'.calls
            && Ready(c, script, w', queue + PostedBetween(script, w.calls, w'.calls))
            && Drain(c, script, w, [e] + queue) ==
                Drain(c, script, w', queue + PostedBetween(script, w.calls, w'.calls))
            && |queue + PostedBetween(script, w.calls, w'.calls)| + Remaining(script, w'.calls)
               == |queue| + Remaining(script, w.calls)
  {
    var all := [e] + queue;
    assert all[0] == e && all[1..] == queue;
    var r := Rest(c, script, w, all);
    RemainingSplit(script, w.calls, r.0.calls);
  }

  // ---------- the engine ----------

  class Machine {
    const cfg: Config
    const script: Script

    var state: int
    var inProcess: bool
    var fifo: seq<Event>
    var calls: nat
    var trace: seq<Call>

    ghost function Now(): World
      reads `state, `calls, `trace
    {
      World(state, calls, trace)
    }

    ghost predicate Valid()
      reads this
    {
      Ready(cfg, script, Now(), fifo)
    }

    constructor (cfg: Config, script: Script, start: int)
      requires WellFormed(cfg) && ProperScript(script, cfg.events) && 0 <= start < |cfg.table|
      ensures Valid() && !inProcess && fifo == [] && Now() == World(start, 0, [])
      ensures this.cfg == cfg && this.script == script
    {
      this.cfg, this.script := cfg, script;
      state, inProcess, fifo, calls, trace := start, false, [], 0, [];
    }

    /** lock_in_process: -1 when an event is being handled and this one has to wait. */
    method LockInProcess(e: Event) returns (rc: int)
      requires Valid() && e.ev != cfg.events
      modifies `inProcess, `fifo
      ensures Valid() && inProcess
      ensures rc == (if old(inProcess) then -1 else 0)
      ensures fifo == if old(inProcess) then old(fifo) + [e] else old(fifo)
    {
      if !inProcess {
        inProcess := true;
        return 0;
      }
      fifo := fifo + [e];
      rc := -1;
    }

    /** A callback, and the events it posts. */
    method Callback(wanted: bool, call: Call, ghost queued: seq<Event>, ghost from: nat)
      requires Valid() && inProcess
      requires from <= calls && fifo == queued + PostedBetween(script, from, calls)
      modifies this
      ensures Valid() && inProcess && Now() == Fire(old(Now()), wanted, call)
      ensures from <= calls && fifo == queued + PostedBetween(script, from, calls)
      ensures |fifo| + Remaining(script, calls) == old(|fifo| + Remaining(script, calls))
      decreases 1, |fifo| + Remaining(script, calls), 1
    {
      if !wanted || call.action.Null? {
        return;
      }
      RemainingSplit(script, calls, calls + 1);
      var posts := Posts(script, calls);
      calls, trace := calls + 1, trace + [call];
      var i := 0;
      while i < |posts|
        invariant 0 <= i <= |posts| && Valid() && inProcess && Now() == Fire(old(Now()), wanted, call)
        invariant fifo == old(fifo) + posts[..i]
      {
        var rc := ProcessEvent(posts[i]);
        i := i + 1;
      }
    }

    /** unlock_in_process: clears the flag, and handles the next event in turn. */
    method UnlockInProcess()
      requires Valid() && inProcess
      modifies this
      ensures Valid() && !inProcess && fifo == []
      ensures Now() == Drain(cfg, script, old(Now()), old(fifo))
      decreases 1, |fifo| + Remaining(script, calls), 1
    {
      inProcess := false;
      if fifo != [] {
        var e := fifo[0];
        fifo := fifo[1..];
        assert [e] + fifo == old(fifo);
        var rc := ProcessEvent(e);
      }
    }

    /** process_event. From inside a callback it only queues; from outside it returns when the event
        and all that it led to have been handled, exactly as the queue machine does: in the state the
        table leads to, with the callbacks that were due. */
    method ProcessEvent(e: Event) returns (rc: int)
      requires Valid() && e.ev != cfg.events
      modifies this
      ensures Valid()
      ensures old(inProcess) ==> rc == 0 && inProcess && fifo == old(fifo) + [e] && Now() == old(Now())
      ensures !old(inProcess) ==> !inProcess && fifo == [] && rc == if Illegal(e, cfg.events) then -1 else 0
      ensures !old(inProcess) ==> Now() == Drain(cfg, script, old(Now()), [e] + old(fifo))
      ensures !old(inProcess) ==> TableSays(cfg, old(Now()), Now(), Handled(cfg, script, old(Now()), [e] + old(fifo)))
      decreases if inProcess then 0 else 1, |fifo| + Remaining(script, calls), 3
    {
      var locked := LockInProcess(e);
      if locked == -1 {
        return 0;
      }
      DrainStep(cfg, script, Now(), e, fifo);
      RunIs(cfg, script, Now(), [e] + fifo);
      if Illegal(e, cfg.events) {
        assert fifo + PostedBetween(script, calls, calls) == fifo;
        UnlockInProcess();
        return -1;
      }
      HandleEvent(e);
      UnlockInProcess();
      return 0;
    }

    /** The callbacks of one event and the change of state. */
    method HandleEvent(e: Event)
      requires Valid() && inProcess && e.ev != cfg.events && !Illegal(e, cfg.events)
      modifies this
      ensures Valid() && inProcess && Now() == HandleOne(cfg, old(Now()), e)
      ensures calls >= old(calls) && fifo == old(fifo) + PostedBetween(script, old(calls), calls)
      decreases 1, |fifo| + Remaining(script, calls), 2
    {
      ghost var queued, from := fifo, calls;
      assert fifo == queued + PostedBetween(script, from, calls);
      hide PostedBetween, Remaining;
      var row := cfg.table[state];
      var next := row.events[e.ev].next;
      var moves := next != state && next != STAY;
      Callback(true, Call(Notified, cfg.notify, state, next, e), queued, from);
      Callback(moves, Call(Left, row.leave, state, next, e), queued, from);
      Callback(true, Call(Moved, row.events[e.ev].trans, state, next, e), queued, from);
      if moves {
        Callback(true, Call(Entered, cfg.table[next].entry, state, next, e), queued, from);
        state := next;
      }
    }

  }
}

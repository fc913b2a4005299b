/**
 Compiling a state machine's sparse table into a dense one (process_sparse_table in
 src/state_machine/sm.cpp).
 */
module SmTable {

  const ERROR := -1
  const NO_ST := -2
  const STAY := -3
  const ENTRY := -4
  const LEAVE := -5

  /** A function pointer: NULL, or the number of a callback. */
  datatype Action = Null | Func(id: nat)

  /** A line of the user's table. A line with state NO_ST ends it. */
  datatype Line = Line(state: int, event: int, next: int, action: Action)

  datatype EventInfo = EventInfo(next: int, trans: Action)

  datatype StateInfo = StateInfo(entry: Action, leave: Action, events: seq<EventInfo>)

  datatype Defaults = Defaults(entry: Action, leave: Action, trans: Action)

  // ---------- what a sparse table means ----------

  /** The last of the first n lines for a state and an event, or -1. */
  function LastLine(lines: seq<Line>, n: nat, st: int, ev: int): (i: int)
    requires n <= |lines|
    ensures -1 <= i < n
    ensures i >= 0 ==> lines[i].state == st && lines[i].event == ev
    ensures forall j | i < j < n :: lines[j].state != st || lines[j].event != ev
  {
    if n == 0 then -1
    else if lines[n - 1].state == st && lines[n - 1].event == ev then n - 1
    else LastLine(lines, n - 1, st, ev)
  }

  function ActionOf(lines: seq<Line>, n: nat, st: int, ev: int, default: Action): Action
    requires n <= |lines|
  {
    var i := LastLine(lines, n, st, ev);
    if i < 0 then default else lines[i].action
  }

  function NextOf(lines: seq<Line>, n: nat, st: int, ev: int): int
    requires n <= |lines|
  {
    var i := LastLine(lines, n, st, ev);
    if i < 0 then STAY else lines[i].next
  }

  /** The dense table says of every state and event what the last matching line of the first n says,
      or the default. */
  ghost predicate Means(table: seq<StateInfo>, lines: seq<Line>, n: nat, states: nat, events: nat, d: Defaults)
    requires n <= |lines|
  {
    && |table| == states
    && forall st | 0 <= st < states :: RowMeans(table[st], lines, n, st, events, d)
  }

  ghost predicate RowMeans(row: StateInfo, lines: seq<Line>, n: nat, st: int, events: nat, d: Defaults)
    requires n <= |lines|
  {
    && row.entry == ActionOf(lines, n, st, ENTRY, d.entry)
    && row.leave == ActionOf(lines, n, st, LEAVE, d.leave)
    && |row.events| == events
    && forall ev | 0 <= ev < events ::
         row.events[ev] == EventInfo(NextOf(lines, n, st, ev), ActionOf(lines, n, st, ev, d.trans))
  }

  /** A line the compiler refuses: a state, event or next state out of range, or a transition given
      again after one whose action is not the default. */
  predicate Refused(lines: seq<Line>, i: nat, states: nat, events: nat, d: Defaults)
    requires i < |lines|
  {
    var l := lines[i];
    || !(0 <= l.state < states)
    || (l.event != ENTRY && l.event != LEAVE &&
        (!(0 <= l.event < events) || l.next >= states || ActionOf(lines, i, l.state, l.event, d.trans) != d.trans))
  }

  ghost predicate EndsAt(lines: seq<Line>, end: nat) {
    end < |lines| && lines[end].state == NO_ST && forall i | 0 <= i < end :: lines[i].state != NO_ST
  }

  lemma AllDefault(table: seq<StateInfo>, lines: seq<Line>, states: nat, events: nat, d: Defaults)
    requires table == seq(states, _ => StateInfo(d.entry, d.leave, seq(events, _ => EventInfo(STAY, d.trans))))
    ensures Means(table, lines, 0, states, events, d)
  {
  }

  /** One accepted line more. */
  lemma AddLine(table: seq<StateInfo>, lines: seq<Line>, i: nat, states: nat, events: nat, d: Defaults, row: StateInfo)
    requires i < |lines| && Means(table, lines, i, states, events, d) && !Refused(lines, i, states, events, d)
    requires var l := lines[i]; var was := table[l.state];
             row == if l.event == ENTRY then was.(entry := l.action)
                    else if l.event == LEAVE then was.(leave := l.action)
                    else was.(events := was.events[l.event := EventInfo(l.next, l.action)])
    ensures Means(table[lines[i].state := row], lines, i + 1, states, events, d)
  {
    var l := lines[i];
    var table' := table[l.state := row];
    forall st | 0 <= st < states ensures RowMeans(table'[st], lines, i + 1, st, events, d) {
      assert RowMeans(table[st], lines, i, st, events, d);
    }
  }

  /** process_sparse_table. Returns 0 exactly when no line before the end of the table is refused,
      and then the dense table has the meaning of the whole sparse one; otherwise it has the
      meaning of the lines before the first one refused. */
  method Compile(lines: seq<Line>, states: nat, events: nat, d: Defaults, ghost end: nat)
    returns (rc: int, table: seq<StateInfo>, ghost read: nat)
    requires EndsAt(lines, end)
    ensures rc == 0 || rc == ERROR
    ensures rc == 0 <==> forall i | 0 <= i < end :: !Refused(lines, i, states, events, d)
    ensures rc == 0 ==> read == end
    ensures rc != 0 ==> read < end && Refused(lines, read, states, events, d)
    ensures read <= end && (forall i | 0 <= i < read :: !Refused(lines, i, states, events, d))
    ensures Means(table, lines, read, states, events, d)
  {
    hide ActionOf, NextOf;
    table := seq(states, _ => StateInfo(d.entry, d.leave, seq(events, _ => EventInfo(STAY, d.trans))));
    AllDefault(table, lines, states, events, d);
    var line := 0;
    while lines[line].state != NO_ST
      invariant 0 <= line <= end
      invariant Means(table, lines, line, states, events, d)
      invariant forall i | 0 <= i < line :: !Refused(lines, i, states, events, d)
      decreases end - line
    {
      var l := lines[line];
      read := line;
      if l.state < 0 || l.state >= states {
        assert Refused(lines, line, states, events, d);
        return ERROR, table, read;
      }
      assert RowMeans(table[l.state], lines, line, l.state, events, d);
      var row := table[l.state];
      if l.event == ENTRY {
        row := row.(entry := l.action);
      } else if l.event == LEAVE {
        row := row.(leave := l.action);
      } else {
        if l.event < 0 || l.event >= events {
          assert Refused(lines, line, states, events, d);
          return ERROR, table, read;
        }
        if l.next >= states {
          assert Refused(lines, line, states, events, d);
          return ERROR, table, read;
        }
        if row.events[l.event].trans != d.trans {
          assert Refused(lines, line, states, events, d);
          return ERROR, table, read;
        }
        row := row.(events := row.events[l.event := EventInfo(l.next, l.action)]);
      }
      AddLine(table, lines, line, states, events, d, row);
      table := table[l.state := row];
      line := line + 1;
    }
    rc, read := 0, line;
  }

  predicate InRange(l: Line, states: nat, events: nat) {
    0 <= l.state < states && (l.event == ENTRY || l.event == LEAVE || (0 <= l.event < events && l.next < states))
  }

  predicate SameCell(l: Line, m: Line) {
    l.state == m.state && l.event == m.event && l.event != ENTRY && l.event != LEAVE
  }

  /** A table is accepted exactly when every line is in range and no transition is given again once a
      line has given it an action other than the default. */
  lemma AcceptedIs(lines: seq<Line>, n: nat, states: nat, events: nat, d: Defaults)
    requires n <= |lines|
    ensures (forall i | 0 <= i < n :: !Refused(lines, i, states, events, d)) <==>
            && (forall i | 0 <= i < n :: InRange(lines[i], states, events))
            && (forall i, j | 0 <= i < j < n && SameCell(lines[i], lines[j]) :: lines[i].action == d.trans)
  {
    if forall i | 0 <= i < n :: !Refused(lines, i, states, events, d) {
      forall i, j | 0 <= i < j < n && SameCell(lines[i], lines[j]) ensures lines[i].action == d.trans {
        GivenOnce(lines, n, states, events, d, i, j);
      }
      assert forall i | 0 <= i < n :: !Refused(lines, i, states, events, d) ==> InRange(lines[i], states, events);
    }
    if && (forall i | 0 <= i < n :: InRange(lines[i], states, events))
       && (forall i, j | 0 <= i < j < n && SameCell(lines[i], lines[j]) :: lines[i].action == d.trans) {
      forall j | 0 <= j < n ensures !Refused(lines, j, states, events, d) {
        var l := lines[j];
        var i := LastLine(lines, j, l.state, l.event);
        assert InRange(l, states, events);
        if i >= 0 && l.event != ENTRY && l.event != LEAVE {
          assert SameCell(lines[i], lines[j]);
        }
      }
    }
  }

  /** Any two lines for one cell are joined by lines that are each the last before the next. */
  lemma {:induction false} GivenOnce(
    lines: seq<Line>, n: nat, states: nat, events: nat, d: Defaults, i: nat, j: nat)
    requires n <= |lines| && i < j < n && SameCell(lines[i], lines[j])
    requires forall i | 0 <= i < n :: !Refused(lines, i, states, events, d)
    ensures lines[i].action == d.trans
    decreases j
  {
    var k := LastLine(lines, j, lines[j].state, lines[j].event);
    assert !Refused(lines, j, states, events, d);
    if k != i {
      GivenOnce(lines, n, states, events, d, i, k);
    }
  }

  /** Next states stay inside the machine. */
  predicate Closed(table: seq<StateInfo>) {
    forall st, ev | 0 <= st < |table| && 0 <= ev < |table[st].events| :: Inside(table[st].events[ev].next, |table|)
  }

  predicate Inside(next: int, states: nat) {
    next == STAY || 0 <= next < states
  }

  /** The line decides a cell of the table: it names an event and no later line is for the same cell. */
  predicate Governs(lines: seq<Line>, n: nat, i: nat)
    requires i < n <= |lines|
  {
    lines[i].event >= 0 && LastLine(lines, n, lines[i].state, lines[i].event) == i
  }

  /** The compiler refuses next states that are too large, and no negative ones. */
  ghost predicate NoStrayNext(lines: seq<Line>, n: nat)
    requires n <= |lines|
  {
    forall i | 0 <= i < n && Governs(lines, n, i) :: lines[i].next == STAY || lines[i].next >= 0
  }

  /** The table built from accepted lines is closed exactly when no line that decides a cell has a
      negative next state other than STAY. */
  lemma CompiledIsClosed(table: seq<StateInfo>, lines: seq<Line>, n: nat, states: nat, events: nat, d: Defaults)
    requires n <= |lines| && Means(table, lines, n, states, events, d)
    requires forall i | 0 <= i < n :: !Refused(lines, i, states, events, d)
    ensures Closed(table) <==> NoStrayNext(lines, n)
  {
    if NoStrayNext(lines, n) {
      forall st, ev | 0 <= st < |table| && 0 <= ev < |table[st].events|
        ensures Inside(table[st].events[ev].next, |table|)
      {
        assert RowMeans(table[st], lines, n, st, events, d);
        var i := LastLine(lines, n, st, ev);
        if i >= 0 {
          assert !Refused(lines, i, states, events, d) && Governs(lines, n, i);
        }
      }
    }
    if Closed(table) {
      forall i | 0 <= i < n && Governs(lines, n, i) ensures lines[i].next == STAY || lines[i].next >= 0 {
        var l := lines[i];
        assert !Refused(lines, i, states, events, d);
        assert RowMeans(table[l.state], lines, n, l.state, events, d);
        assert Inside(table[l.state].events[l.event].next, |table|);
      }
    }
  }
}

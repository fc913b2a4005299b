/**
 The daemon's hash table (tools/daemon/hash.c): open addressing over a fixed array, with a pointer to
 the entry found last. Values are pointers, 0 being NULL.
 */
module HashTable {

  const KEY_INVALID: nat := 0xFFFF_FFFF

  datatype Entry = Entry(key: nat, value: nat)

  predicate Occupied(e: Entry) {
    e.key != KEY_INVALID
  }

  // ---------- what the array holds ----------

  function Weight(e: Entry): nat {
    if Occupied(e) then 1 else 0
  }

  function PointerOf(e: Entry): multiset<nat> {
    if e.value != 0 then multiset{e.value} else multiset{}
  }

  /** Number of occupied entries. */
  ghost function Used(t: seq<Entry>): (n: nat)
    ensures n <= |t|
  {
    if t == [] then 0 else Used(t[..|t| - 1]) + Weight(t[|t| - 1])
  }

  /** The pointers held, with repetitions. */
  ghost function Pointers(t: seq<Entry>): multiset<nat> {
    if t == [] then multiset{} else Pointers(t[..|t| - 1]) + PointerOf(t[|t| - 1])
  }

  /** The same, in array order. */
  ghost function PointerList(t: seq<Entry>): seq<nat> {
    if t == [] then []
    else PointerList(t[..|t| - 1]) + if t[|t| - 1].value != 0 then [t[|t| - 1].value] else []
  }

  lemma {:induction false} UpdateUsed(t: seq<Entry>, i: nat, e: Entry)
    requires i < |t|
    ensures Used(t[i := e]) + Weight(t[i]) == Used(t) + Weight(e)
    ensures Pointers(t[i := e]) + PointerOf(t[i]) == Pointers(t) + PointerOf(e)
  {
    var front, z := t[..|t| - 1], PointerOf(t[|t| - 1]);
    if i < |t| - 1 {
      UpdateUsed(front, i, e);
      assert t[i := e][..|t| - 1] == front[i := e];
      Rearrange(Pointers(front[i := e]), PointerOf(t[i]), Pointers(front), PointerOf(e), z);
    } else {
      assert t[i := e][..|t| - 1] == front;
    }
  }

  lemma Rearrange(a: multiset<nat>, b: multiset<nat>, c: multiset<nat>, d: multiset<nat>, z: multiset<nat>)
    requires a + b == c + d
    ensures (a + z) + b == (c + z) + d
  {
    assert (a + z) + b == (a + b) + z;
    assert (c + z) + d == (c + d) + z;
  }

  /** Full means that no entry is free. */
  lemma {:induction false} FullMeans(t: seq<Entry>)
    ensures Used(t) == |t| <==> forall i | 0 <= i < |t| :: Occupied(t[i])
  {
    if t != [] {
      var front := t[..|t| - 1];
      FullMeans(front);
      assert forall i | 0 <= i < |front| :: Occupied(front[i]) == Occupied(t[i]);
    }
  }

  lemma {:induction false} EmptyTable(t: seq<Entry>)
    requires forall i | 0 <= i < |t| :: t[i] == Entry(KEY_INVALID, 0)
    ensures Used(t) == 0 && Pointers(t) == multiset{}
  {
    if t != [] {
      EmptyTable(t[..|t| - 1]);
    }
  }

  lemma {:induction false} PointersListed(t: seq<Entry>)
    ensures multiset(PointerList(t)) == Pointers(t)
  {
    if t != [] {
      PointersListed(t[..|t| - 1]);
    }
  }

  /** Free entries hold no pointer, so there are no more pointers than occupied entries; those after
      position i are at most as many as the occupied entries after it. */
  lemma {:induction false} PointersBelow(t: seq<Entry>, i: nat)
    requires i <= |t| && forall e | e in t :: !Occupied(e) ==> e.value == 0
    ensures |PointerList(t[..i])| <= |PointerList(t)| && Used(t[..i]) <= Used(t)
    ensures |PointerList(t)| - |PointerList(t[..i])| <= Used(t) - Used(t[..i])
    ensures PointerList(t[..i]) <= PointerList(t)
    decreases |t|
  {
    if i < |t| {
      var front := t[..|t| - 1];
      PointersBelow(front, i);
      assert front[..i] == t[..i];
      assert t[|t| - 1] in t;
    } else {
      assert t[..i] == t;
    }
  }

  // ---------- the map it stands for ----------

  ghost predicate Represents(t: seq<Entry>, m: map<nat, nat>) {
    && (forall i | 0 <= i < |t| && Occupied(t[i]) :: t[i].key in m && m[t[i].key] == t[i].value)
    && (forall k | k in m :: k != KEY_INVALID && Holds(t, k))
    && (forall i, j | 0 <= i < j < |t| && Occupied(t[i]) :: t[i].key != t[j].key)
    && (forall i | 0 <= i < |t| && !Occupied(t[i]) :: t[i].value == 0)
  }

  ghost predicate Holds(t: seq<Entry>, k: nat) {
    exists i :: 0 <= i < |t| && t[i].key == k
  }

  lemma PutEntry(t: seq<Entry>, m: map<nat, nat>, i: nat, key: nat, value: nat)
    requires Represents(t, m) && i < |t| && key != KEY_INVALID
    requires if key in m then t[i].key == key else !Occupied(t[i])
    ensures Represents(t[i := Entry(key, value)], m[key := value])
  {
    var t', m' := t[i := Entry(key, value)], m[key := value];
    forall k | k in m' ensures k != KEY_INVALID && Holds(t', k) {
      if k == key {
        assert t'[i].key == k;
      } else {
        var j :| 0 <= j < |t| && t[j].key == k;
        assert t'[j].key == k;
      }
    }
  }

  lemma ClearEntry(t: seq<Entry>, m: map<nat, nat>, i: nat)
    requires Represents(t, m) && i < |t| && Occupied(t[i])
    ensures Represents(t[i := Entry(KEY_INVALID, 0)], m - {t[i].key})
  {
    var t', m' := t[i := Entry(KEY_INVALID, 0)], m - {t[i].key};
    forall k | k in m' ensures k != KEY_INVALID && Holds(t', k) {
      var j :| 0 <= j < |t| && t[j].key == k;
      assert t'[j].key == k;
    }
  }

  /** The slot `attempts` places after `start`, going round. */
  function Probe(start: nat, attempts: nat, size: nat): nat {
    if start + attempts < size then start + attempts else start + attempts - size
  }

  lemma NextSlot(i: nat, size: nat)
    requires i < size
    ensures (i + 1) % size == if i + 1 == size then 0 else i + 1
  {
  }

  /** A whole round of probes meets every slot. */
  lemma ProbesCover(start: nat, size: nat, s: nat)
    requires start < size && s < size
    ensures exists a :: 0 <= a < size && Probe(start, a, size) == s
  {
    var a := if s >= start then s - start else s - start + size;
    assert Probe(start, a, size) == s;
  }

  /** The array, its count and the pointers given to the free function (when `frees`) agree with the
      map and with the pointers stored so far. */
  ghost predicate Consistent(
    t: seq<Entry>, count: nat, m: map<nat, nat>, frees: bool, freed: multiset<nat>, stored: multiset<nat>)
  {
    && Represents(t, m)
    && count == Used(t) == |m|
    && (frees ==> freed + Pointers(t) == stored)
  }

  function Released(e: Entry, frees: bool): multiset<nat> {
    if frees then PointerOf(e) else multiset{}
  }

  lemma Account(
    freed: multiset<nat>, stored: multiset<nat>, p: multiset<nat>, p': multiset<nat>, gone: multiset<nat>,
    come: multiset<nat>)
    requires freed + p == stored && p' + gone == p + come
    ensures (freed + gone) + p' == stored + come
  {
    assert (freed + gone) + p' == freed + (p' + gone);
    assert stored + come == freed + (p + come);
  }

  lemma KeysGrow(m: map<nat, nat>, key: nat, value: nat)
    ensures |m[key := value]| == if key in m then |m| else |m| + 1
  {
    assert m[key := value].Keys == m.Keys + {key};
  }

  lemma StoreKeeps(
    t: seq<Entry>, count: nat, m: map<nat, nat>, frees: bool, freed: multiset<nat>, stored: multiset<nat>,
    i: nat, key: nat, value: nat)
    requires Consistent(t, count, m, frees, freed, stored) && i < |t| && key != KEY_INVALID
    requires if key in m then t[i].key == key else !Occupied(t[i])
    ensures Consistent(t[i := Entry(key, value)], if Occupied(t[i]) then count else count + 1, m[key := value],
                       frees, freed + Released(t[i], frees), stored + PointerOf(Entry(key, value)))
  {
    hide Represents, Used, Pointers;
    var e := Entry(key, value);
    PutEntry(t, m, i, key, value);
    UpdateUsed(t, i, e);
    KeysGrow(m, key, value);
    if frees {
      Account(freed, stored, Pointers(t), Pointers(t[i := e]), PointerOf(t[i]), PointerOf(e));
    }
  }

  lemma ClearKeeps(
    t: seq<Entry>, count: nat, m: map<nat, nat>, frees: bool, freed: multiset<nat>, stored: multiset<nat>, i: nat)
    requires Consistent(t, count, m, frees, freed, stored) && i < |t| && Occupied(t[i])
    ensures count > 0
    ensures Consistent(t[i := Entry(KEY_INVALID, 0)], count - 1, m - {t[i].key},
                       frees, freed + Released(t[i], frees), stored)
  {
    var e := Entry(KEY_INVALID, 0);
    ClearEntry(t, m, i);
    UpdateUsed(t, i, e);
    if frees {
      Account(freed, stored, Pointers(t), Pointers(t[i := e]), PointerOf(t[i]), multiset{});
      assert stored + multiset{} == stored;
    }
    assert (m - {t[i].key}).Keys == m.Keys - {t[i].key};
  }

  lemma EntryIs(
    t: seq<Entry>, count: nat, m: map<nat, nat>, frees: bool, freed: multiset<nat>, stored: multiset<nat>, i: nat)
    requires Consistent(t, count, m, frees, freed, stored) && i < |t|
    ensures Occupied(t[i]) ==> t[i].key in m && t[i].value == m[t[i].key]
    ensures !Occupied(t[i]) ==> PointerOf(t[i]) == multiset{} && t[i] == Entry(KEY_INVALID, 0)
  {
  }

  /** What storing under a key releases: the value it had. */
  lemma OldValue(
    t: seq<Entry>, count: nat, m: map<nat, nat>, frees: bool, freed: multiset<nat>, stored: multiset<nat>, i: nat,
        key: nat)
    requires Consistent(t, count, m, frees, freed, stored) && i < |t| && key != KEY_INVALID
    requires if key in m then t[i].key == key else !Occupied(t[i])
    ensures Released(t[i], frees) == if key in m then Released(Entry(key, m[key]), frees) else multiset{}
  {
    EntryIs(t, count, m, frees, freed, stored, i);
    hide Consistent;
  }

  /** Where the probing for `wanted` ends: at an entry with that key, or nowhere if there is none. */
  method ProbeFor(table: array<Entry>, start: nat, wanted: nat) returns (idx: int)
    requires start < table.Length
    ensures -1 <= idx < table.Length
    ensures if idx >= 0 then table[idx].key == wanted else forall s | 0 <= s < table.Length :: table[s].key != wanted
  {
    idx := start;
    var attempts := 0;
    while table[idx].key != wanted
      invariant 0 <= attempts < table.Length && 0 <= idx < table.Length
      invariant idx == Probe(start, attempts, table.Length)
      invariant forall a | 0 <= a < attempts :: table[Probe(start, a, table.Length)].key != wanted
      decreases table.Length - attempts
    {
      if attempts >= table.Length - 1 {
        forall s | 0 <= s < table.Length ensures table[s].key != wanted {
          ProbesCover(start, table.Length, s);
        }
        return -1;
      }
      NextSlot(idx, table.Length);
      attempts := attempts + 1;
      idx := (idx + 1) % table.Length;
    }
  }

  class Hash {
    const table: array<Entry>
    /** Index of the entry found last, or -1. */
    var last: int
    var count: nat
    /** Whether a free function was given, and the pointers it has been called with. */
    const frees: bool
    ghost var freed: multiset<nat>

    ghost var m: map<nat, nat>
    /** Every pointer stored so far. */
    ghost var stored: multiset<nat>

    ghost predicate Valid()
      reads this, table
    {
      && -1 <= last < table.Length
      && Consistent(table[..], count, m, frees, freed, stored)
    }

    /** hash_create on an accepted size. */
    constructor (size: nat, frees: bool)
      ensures Valid() && m == map[] && stored == multiset{} && freed == multiset{}
      ensures table.Length == size && this.frees == frees && fresh(table)
    {
      table := new Entry[size](_ => Entry(KEY_INVALID, 0));
      last, count, m, stored, freed := -1, 0, map[], multiset{}, multiset{};
      this.frees := frees;
      new;
      EmptyTable(table[..]);
    }

    /** hash_find. A hit on the cached entry skips the probing; otherwise the probing goes once
        round, and for an existing key it does not stop at free entries. Asked for the key that marks
        free entries, it finds one of those. The probing starts at the key modulo the size. */
    method Find(key: nat, add: bool) returns (idx: int)
      requires Valid() && table.Length > 0 && (add ==> key !in m)
      modifies this`last
      ensures Valid() && -1 <= idx < table.Length && KEY_INVALID !in m
      ensures !add && key != KEY_INVALID ==> if key in m then idx >= 0 && table[idx].key == key else idx == -1
      ensures add || key == KEY_INVALID ==>
                if count < table.Length then idx >= 0 && !Occupied(table[idx]) else idx == -1
    {
      WhatIsHeld(table[..], count, m, frees, freed, stored, key);
      hide Consistent;
      if last >= 0 && table[last].key == key {
        return last;
      }
      idx := ProbeFor(table, key % table.Length, if add then KEY_INVALID else key);
      last := if idx >= 0 then idx else last;
    }

    /** hash_get */
    method Get(key: nat) returns (value: nat)
      requires Valid() && table.Length > 0
      modifies this`last
      ensures Valid()
      ensures value == if key in m then m[key] else 0
    {
      hide Used, Pointers;
      var idx := Find(key, false);
      value := if idx >= 0 then table[idx].value else 0;
    }

    /** hash_put. A full table refuses everything, even a new value for a key it holds. The key that
        marks free entries is taken for one of them: the count goes up for an entry that stays free. */
    method Put(key: nat, value: nat) returns (r: nat)
      requires Valid()
      modifies this, table
      ensures Valid() <==> key != KEY_INVALID || old(count) == table.Length
      ensures old(count) == table.Length ==>
                r == 0 && m == old(m) && freed == old(freed) && stored == old(stored) && table[..] == old(table[..])
      ensures old(count) < table.Length && key != KEY_INVALID ==>
                && r == value && m == old(m)[key := value]
                && stored == old(stored) + PointerOf(Entry(key, value))
                && freed == old(freed) + if key in old(m) then Released(Entry(key, old(m)[key]), frees) else multiset{}
      ensures old(count) < table.Length && key == KEY_INVALID ==>
                && r == value && m == old(m) && count == old(count) + 1
                && count != Used(table[..])
    {
      hide Consistent;
      if count >= table.Length {
        CountInRange(table[..], count, m, frees, freed, stored);
        return 0;
      }
      var idx := Find(key, false);
      if idx < 0 {
        idx := Find(key, true);
      }
      if key == KEY_INVALID {
        MarkKeyBreaks(table[..], count, m, frees, freed, stored, idx, value);
        count := count + 1;
        table[idx] := Entry(key, value);
        assert table[..] == old(table[..])[idx := Entry(key, value)];
        Counted(table[..], count, m, frees, freed, stored);
      } else {
        StoreAt(idx, key, value);
      }
      r := value;
    }

    method StoreAt(idx: nat, key: nat, value: nat)
      requires Valid() && key != KEY_INVALID && idx < table.Length
      requires if key in m then table[idx].key == key else !Occupied(table[idx])
      modifies table, this`count, this`freed, this`stored, this`m
      ensures Valid() && m == old(m)[key := value]
      ensures stored == old(stored) + PointerOf(Entry(key, value))
      ensures freed == old(freed) + if key in old(m) then Released(Entry(key, old(m)[key]), frees) else multiset{}
    {
      hide Consistent, Released, PointerOf, Occupied;
      StoreKeeps(table[..], count, m, frees, freed, stored, idx, key, value);
      OldValue(table[..], count, m, frees, freed, stored, idx, key);
      freed := freed + Released(table[idx], frees);
      stored := stored + PointerOf(Entry(key, value));
      m := m[key := value];
      if !Occupied(table[idx]) {
        count := count + 1;
      }
      table[idx] := Entry(key, value);
      assert table[..] == old(table[..])[idx := Entry(key, value)];
    }

    /** hash_del */
    method Del(key: nat)
      requires Valid() && table.Length > 0
      modifies this, table
      ensures Valid() && m == old(m) - {key} && stored == old(stored)
      ensures freed == old(freed) + if key in old(m) then Released(Entry(key, old(m)[key]), frees) else multiset{}
    {
      hide Consistent;
      var idx := Find(key, false);
      if key == KEY_INVALID {
        if idx >= 0 {
          EntryIs(table[..], count, m, frees, freed, stored, idx);
          table[idx] := Entry(KEY_INVALID, 0);
          assert table[..] == old(table[..]);
        }
        assert m - {key} == m;
      } else if idx >= 0 {
        Clear(idx);
      }
    }

    method Clear(idx: nat)
      requires Valid() && idx < table.Length && Occupied(table[idx])
      modifies table, this`count, this`freed, this`m
      ensures Valid() && old(table[idx]).key in old(m) && m == old(m) - {old(table[idx]).key}
      ensures freed == old(freed) + Released(Entry(old(table[idx]).key, old(m)[old(table[idx]).key]), frees)
    {
      hide Consistent;
      ClearKeeps(table[..], count, m, frees, freed, stored, idx);
      EntryIs(table[..], count, m, frees, freed, stored, idx);
      freed := freed + Released(table[idx], frees);
      m := m - {table[idx].key};
      count := count - 1;
      table[idx] := Entry(KEY_INVALID, 0);
      assert table[..] == old(table[..])[idx := Entry(KEY_INVALID, 0)];
    }

    /** hash_destroy: every pointer stored and not yet freed is freed now, once. */
    method Destroy()
      requires Valid()
      modifies this, table
      ensures frees ==> freed == stored
      ensures stored == old(stored) && forall i | 0 <= i < table.Length :: !Occupied(table[i])
    {
      hide Consistent;
      ghost var c, left := count, m;
      for i := 0 to table.Length
        invariant Consistent(table[..], c, left, frees, freed, stored) && stored == old(stored)
        invariant forall j | 0 <= j < i :: !Occupied(table[j])
      {
        if Occupied(table[i]) {
          ClearKeeps(table[..], c, left, frees, freed, stored, i);
          freed := freed + Released(table[i], frees);
          c, left := c - 1, left - {table[i].key};
          ghost var before := table[..];
          table[i] := Entry(KEY_INVALID, 0);
          assert table[..] == before[i := Entry(KEY_INVALID, 0)];
        }
      }
      NothingLeft(table[..], c, left, frees, freed, stored);
    }

    /** The walk of clean_process over a process's sockets: it stops after as many non-NULL values as
        the table has entries, and still sees every one of them, once and in array order. */
    method Walk() returns (visited: seq<nat>)
      requires Valid()
      ensures visited == PointerList(table[..])
      ensures multiset(visited) == Pointers(table[..])
    {
      FreeHoldsNothing(table[..], count, m, frees, freed, stored);
      hide Consistent, Used, PointerList, Pointers;
      visited := [];
      ListFirst(table[..]);
      var i, j := 0, 0;
      while i < table.Length && j < count
        invariant 0 <= i <= table.Length && j == |visited|
        invariant visited == PointerList(table[..i])
      {
        ListNext(table[..], i);
        var value := table[i].value;
        if value != 0 {
          j := j + 1;
          visited := visited + [value];
        }
        i := i + 1;
      }
      assert table[..][..i] == table[..i];
      AllSeen(table[..], i, count);
    }
  }

  lemma ListFirst(t: seq<Entry>)
    ensures PointerList(t[..0]) == []
  {
  }

  lemma ListNext(t: seq<Entry>, i: nat)
    requires i < |t|
    ensures PointerList(t[..i + 1]) == PointerList(t[..i]) + if t[i].value != 0 then [t[i].value] else []
  {
    assert t[..i + 1][..i] == t[..i];
  }

  /** A walk that stops at the end, or after as many pointers as entries are occupied, has seen all. */
  lemma AllSeen(t: seq<Entry>, i: nat, count: nat)
    requires i <= |t| && count == Used(t) && forall e | e in t :: !Occupied(e) ==> e.value == 0
    requires i == |t| || count <= |PointerList(t[..i])|
    ensures PointerList(t[..i]) == PointerList(t) && multiset(PointerList(t)) == Pointers(t)
  {
    assert PointerList([]) == [] && Used([]) == 0;
    hide Used, PointerList, Pointers, Occupied;
    PointersListed(t);
    if i == |t| {
      assert t[..i] == t;
    } else {
      PointersBelow(t, i);
      PointersBelow(t, 0);
      assert t[..0] == [];
    }
  }

  lemma WhatIsHeld(
    t: seq<Entry>, count: nat, m: map<nat, nat>, frees: bool, freed: multiset<nat>, stored: multiset<nat>, key: nat)
    requires Consistent(t, count, m, frees, freed, stored)
    ensures KEY_INVALID !in m && count <= |t|
    ensures count < |t| <==> exists i :: 0 <= i < |t| && t[i].key == KEY_INVALID
    ensures key != KEY_INVALID ==> (key in m <==> exists i :: 0 <= i < |t| && t[i].key == key)
  {
    FullMeans(t);
    hide Used, Pointers;
  }

  lemma Counted(
    t: seq<Entry>, count: nat, m: map<nat, nat>, frees: bool, freed: multiset<nat>, stored: multiset<nat>)
    ensures Consistent(t, count, m, frees, freed, stored) ==> count == Used(t)
  {
  }

  lemma CountInRange(
    t: seq<Entry>, count: nat, m: map<nat, nat>, frees: bool, freed: multiset<nat>, stored: multiset<nat>)
    requires Consistent(t, count, m, frees, freed, stored)
    ensures count <= |t|
  {
  }

  lemma MarkKeyBreaks(
    t: seq<Entry>, count: nat, m: map<nat, nat>, frees: bool, freed: multiset<nat>, stored: multiset<nat>,
    i: nat, value: nat)
    requires Consistent(t, count, m, frees, freed, stored) && i < |t| && !Occupied(t[i])
    ensures count + 1 != Used(t[i := Entry(KEY_INVALID, value)])
  {
    UpdateUsed(t, i, Entry(KEY_INVALID, value));
  }

  lemma NothingLeft(
    t: seq<Entry>, count: nat, m: map<nat, nat>, frees: bool, freed: multiset<nat>, stored: multiset<nat>)
    requires Consistent(t, count, m, frees, freed, stored) && forall i | 0 <= i < |t| :: !Occupied(t[i])
    ensures frees ==> freed == stored
  {
    EmptyTable(t);
  }

  lemma FreeHoldsNothing(
    t: seq<Entry>, count: nat, m: map<nat, nat>, frees: bool, freed: multiset<nat>, stored: multiset<nat>)
    requires Consistent(t, count, m, frees, freed, stored)
    ensures count == Used(t) && forall e | e in t :: !Occupied(e) ==> e.value == 0
  {
  }

  /** check_prime: no divisor is missed by stopping half way. (0 and 1 are accepted.) */
  method CheckPrime(value: nat) returns (r: bool)
    ensures r <==> forall d | 2 <= d < value :: value % d != 0
  {
    var i := 2;
    while i <= value / 2
      invariant 2 <= i
      invariant forall d | 2 <= d < i :: d < value ==> value % d != 0
    {
      if value % i == 0 {
        return false;
      }
      i := i + 1;
    }
    forall d | 2 <= d < value ensures value % d != 0 {
      if d > value / 2 {
        LargeDivisor(value, d);
      }
    }
    return true;
  }

  lemma LargeDivisor(value: nat, d: nat)
    requires value / 2 < d < value
    ensures value % d == value - d
  {
    assert value < 2 * d;
  }
}

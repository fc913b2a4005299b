/**
 What every run of add_flow and del_flow keeps.

 Each add that raised reference counts is recorded as a claim saying how deep it got; a complete
 add (depth 4) is a live flow. The invariant ties every counter, list and bit of the table to the
 set of outstanding claims.
 */
module FlowInvariant {
  import opened Words
  import opened Bitmap
  import opened NodeIds
  import opened FlowTable
  import opened Options

  const MAP_BITS := 2048

  datatype Claim = Claim(seqno: nat, ifId: nat, depth: nat, kind: int, ip: nat, bkt: nat, ht: int, id: int)

  // ---------- lists of elements with distinct keys, each holding its share of the claims ----------

  /** The claims of C that `at` sends to key k. */
  function On<K(==)>(C: set<Claim>, at: Claim -> Option<K>, k: K): set<Claim> {
    set c | c in C && at(c) == Some(k)
  }

  ghost predicate HasKey<T, K>(s: seq<T>, key: T -> K, k: K) {
    exists i :: 0 <= i < |s| && key(s[i]) == k
  }

  ghost predicate ListOk<T, K>(
    s: seq<T>, C: set<Claim>, key: T -> K, at: Claim -> Option<K>, ok: (T, set<Claim>) -> bool)
  {
    && (forall i, j | 0 <= i < j < |s| :: key(s[i]) != key(s[j]))
    && (forall i | 0 <= i < |s| :: ok(s[i], On(C, at, key(s[i]))))
    && (forall c | c in C && at(c).Some? :: HasKey(s, key, at(c).value))
  }

  lemma OnAdd<K>(C: set<Claim>, at: Claim -> Option<K>, k: K, c: Claim)
    ensures On(C + {c}, at, k) == if at(c) == Some(k) then On(C, at, k) + {c} else On(C, at, k)
    ensures On(C - {c}, at, k) == if at(c) == Some(k) then On(C, at, k) - {c} else On(C, at, k)
  {
  }

  /** An element that takes one more claim, in place or at the end of the list. */
  lemma ListPut<T, K>(
    s: seq<T>, C: set<Claim>, key: T -> K, at: Claim -> Option<K>, ok: (T, set<Claim>) -> bool,
    j: nat, x: T, c: Claim)
    requires ListOk(s, C, key, at, ok)
    requires at(c) == Some(key(x)) && ok(x, On(C + {c}, at, key(x)))
    requires j <= |s| && if j < |s| then key(s[j]) == key(x) else !HasKey(s, key, key(x))
    ensures ListOk(if j < |s| then s[j := x] else s + [x], C + {c}, key, at, ok)
  {
    var s' := if j < |s| then s[j := x] else s + [x];
    forall i | 0 <= i < |s'| ensures ok(s'[i], On(C + {c}, at, key(s'[i]))) {
      OnAdd(C, at, key(s'[i]), c);
    }
    forall d | d in C + {c} && at(d).Some? ensures HasKey(s', key, at(d).value) {
      if d in C {
        var i :| 0 <= i < |s| && key(s[i]) == at(d).value;
        assert key(s'[i]) == at(d).value;
      } else {
        assert key(s'[j]) == at(d).value;
      }
    }
  }

  /** A claim that did not reach the list. */
  lemma ListSkip<T, K>(
    s: seq<T>, C: set<Claim>, key: T -> K, at: Claim -> Option<K>, ok: (T, set<Claim>) -> bool, c: Claim)
    requires ListOk(s, C, key, at, ok) && at(c) == None
    ensures ListOk(s, C + {c}, key, at, ok)
  {
    forall i | 0 <= i < |s| ensures ok(s[i], On(C + {c}, at, key(s[i]))) {
      OnAdd(C, at, key(s[i]), c);
    }
  }

  /** An element that gives up one claim and stays. */
  lemma ListTake<T, K>(
    s: seq<T>, C: set<Claim>, key: T -> K, at: Claim -> Option<K>, ok: (T, set<Claim>) -> bool,
    j: nat, x: T, c: Claim)
    requires ListOk(s, C, key, at, ok)
    requires j < |s| && key(x) == key(s[j]) && at(c) == Some(key(x)) && ok(x, On(C - {c}, at, key(x)))
    ensures ListOk(s[j := x], C - {c}, key, at, ok)
  {
    var s' := s[j := x];
    forall i | 0 <= i < |s'| ensures ok(s'[i], On(C - {c}, at, key(s'[i]))) {
      OnAdd(C, at, key(s'[i]), c);
    }
    forall d | d in C - {c} && at(d).Some? ensures HasKey(s', key, at(d).value) {
      var i :| 0 <= i < |s| && key(s[i]) == at(d).value;
      assert key(s'[i]) == at(d).value;
    }
  }

  /** An element that gives up its last claim and goes. */
  lemma ListDrop<T, K>(
    s: seq<T>, C: set<Claim>, key: T -> K, at: Claim -> Option<K>, ok: (T, set<Claim>) -> bool,
    j: nat, c: Claim)
    requires ListOk(s, C, key, at, ok)
    requires j < |s| && at(c) == Some(key(s[j])) && On(C - {c}, at, key(s[j])) == {}
    ensures ListOk(RemoveAt(s, j), C - {c}, key, at, ok)
  {
    var s' := RemoveAt(s, j);
    forall i | 0 <= i < |s'| ensures ok(s'[i], On(C - {c}, at, key(s'[i]))) {
      OnAdd(C, at, key(s'[i]), c);
    }
    forall d | d in C - {c} && at(d).Some? ensures HasKey(s', key, at(d).value) {
      assert d !in On(C - {c}, at, key(s[j]));
      var i :| 0 <= i < |s| && key(s[i]) == at(d).value;
      assert s'[if i < j then i else i - 1] == s[i];
    }
  }

  // ---------- the invariant, level by level; C holds the claims on the element itself ----------

  function AtNode(c: Claim): Option<int> {
    if c.depth >= 4 then Some(c.id) else None
  }

  ghost predicate NodesOk(nodes: seq<Node>, C: set<Claim>) {
    && Ascending(nodes)
    && (forall i | 0 <= i < |nodes| :: nodes[i].ref == 1 && |On(C, AtNode, nodes[i].id)| == 1)
    && (forall c | c in C && c.depth >= 4 :: InUse(nodes, c.id))
  }

  ghost predicate BucketOk(b: Bucket, C: set<Claim>) {
    b.ref == |C| && NodesOk(b.nodes, C)
  }

  function BucketKey(b: Bucket): nat {
    b.bkt
  }

  function AtBucket(c: Claim): Option<nat> {
    if c.depth >= 3 then Some(c.bkt) else None
  }

  /** A bucket in a list is never without a claim. */
  ghost predicate BucketLive(b: Bucket, C: set<Claim>) {
    b.ref > 0 && b.bkt < 0x100 && BucketOk(b, C)
  }

  ghost predicate TableOk(t: Table, C: set<Claim>) {
    && t.ref == |C|
    && (forall c | c in C :: c.ht == t.ht && c.depth >= 3)
    && ListOk(t.buckets, C, BucketKey, AtBucket, BucketLive)
  }

  function TableKey(t: Table): (int, nat) {
    (t.kind, t.ip)
  }

  function AtTable(c: Claim): Option<(int, nat)> {
    if c.depth >= 2 then Some((c.kind, c.ip)) else None
  }

  ghost predicate TableLive(t: Table, C: set<Claim>) {
    t.ref > 0 && 1 <= t.kind <= 4 && TableOk(t, C)
  }

  // Who owns each table id.

  function TableIds(tables: seq<Table>): set<int> {
    set t | t in tables :: t.ht
  }

  function PendingIds(pending: seq<Pending>): set<int> {
    set p | p in pending :: p.htid
  }

  /** Ids taken by adds that failed before their table existed; nothing gives them back. */
  function LostIds(C: set<Claim>): set<int> {
    set c | c in C && c.depth == 1 :: c.ht
  }

  ghost predicate IdsOk(ctx: Ctx, tables: seq<Table>, C: set<Claim>) {
    var T, P, L := TableIds(tables), PendingIds(ctx.pending), LostIds(C);
    && |ctx.ht| * WIDTH == MAP_BITS
    && (forall b: nat | b < MAP_BITS :: Bit(ctx.ht, b) <==> b == 0 || b in T || b in P || b in L)
    && (forall b | b in T || b in P || b in L :: 0 < b < MAP_BITS)
    && T !! P && T !! L && P !! L
    && (forall i, j | 0 <= i < j < |tables| :: tables[i].ht != tables[j].ht)
    && DistinctIds(ctx.pending)
    && (forall c, d | c in C && d in C && c.depth == 1 && d.depth == 1 && c.ht == d.ht :: c == d)
  }

  // Which kernel table serves each priority.

  function Used(s: PrioSlot): nat {
    if s.prio != 0 then 1 else 0
  }

  ghost predicate PriosOk(prios: seq<PrioSlot>) {
    && |prios| == PRIO_SLOTS
    && (forall i | 0 <= i < |prios| :: 0 <= prios[i].prio <= 4 && 0 <= prios[i].id)
    && (forall i, j | 0 <= i < j < |prios| && prios[i].prio != 0 && prios[j].prio != 0 ::
          prios[i].prio != prios[j].prio && prios[i].id != prios[j].id)
    && (forall i | 0 <= i < |prios| && prios[i].prio != 0 ::
          prios[i].id < Used(prios[0]) + Used(prios[1]) + Used(prios[2]) + Used(prios[3]))
  }

  ghost predicate Serves(prios: seq<PrioSlot>, prio: int, krn: int) {
    exists i :: 0 <= i < |prios| && prios[i].prio == prio && krn == KERNEL_HT + prios[i].id
  }

  ghost predicate KernelTablesOk(ctx: Ctx, tables: seq<Table>) {
    PriosOk(ctx.prios) && forall t | t in tables :: Serves(ctx.prios, t.kind, t.krn)
  }

  ghost predicate IfaceOk(e: Iface, C: set<Claim>) {
    && e.ref == |C|
    && (forall c | c in C :: c.depth == 1 || c.depth == 3 || c.depth == 4)
    && ListOk(e.tables, C, TableKey, AtTable, TableLive)
    && IdsOk(e.ctx, e.tables, C)
    && KernelTablesOk(e.ctx, e.tables)
  }

  function IfaceKey(e: Iface): nat {
    e.ifId
  }

  function AtIface(c: Claim): Option<nat> {
    Some(c.ifId)
  }

  ghost predicate IfaceLive(e: Iface, C: set<Claim>) {
    e.ref > 0 && IfaceOk(e, C)
  }

  ghost predicate Inv(ifs: seq<Iface>, C: set<Claim>) {
    ListOk(ifs, C, IfaceKey, AtIface, IfaceLive)
  }

  // ---------- kernel tables ----------

  lemma FreeSlotExists(prios: seq<PrioSlot>, prio: int)
    requires PriosOk(prios) && 1 <= prio <= 4
    requires IndexOfPrio(prios, prio) == |prios|
    ensures FreeSlot(prios, |prios|) >= 0
  {
    assert prios[0].prio != prio && prios[1].prio != prio && prios[2].prio != prio && prios[3].prio != prio;
  }

  lemma {:induction false} MaxAttained(prios: seq<PrioSlot>, n: nat)
    requires n <= |prios|
    ensures MaxSlotId(prios, n) == -1 ||
            exists i :: 0 <= i < n && prios[i].prio != 0 && prios[i].id == MaxSlotId(prios, n)
  {
    if n > 0 {
      MaxAttained(prios, n - 1);
    }
  }

  lemma RecordPrio(prios: seq<PrioSlot>, prio: int)
    requires PriosOk(prios) && 1 <= prio <= 4
    requires IndexOfPrio(prios, prio) == |prios|
    ensures PriosOk(KernelTable(prios, prio).0)
  {
    FreeSlotExists(prios, prio);
    MaxBelow(prios);
    assert forall i | 0 <= i < |prios| :: prios[i].prio != prio;
    hide PriosOk, IndexOfPrio;
    SlotTaken(prios, FreeSlot(prios, |prios|), PrioSlot(prio, MaxSlotId(prios, |prios|) + 1));
  }

  function UsedSlots(prios: seq<PrioSlot>): nat
    requires |prios| == PRIO_SLOTS
  {
    Used(prios[0]) + Used(prios[1]) + Used(prios[2]) + Used(prios[3])
  }

  /** The largest id in use is below the number of slots in use. */
  lemma MaxBelow(prios: seq<PrioSlot>)
    requires PriosOk(prios)
    ensures MaxSlotId(prios, |prios|) < UsedSlots(prios)
  {
    MaxAttained(prios, |prios|);
    hide MaxSlotId;
  }

  /** A free slot is given to a new priority with a new id. */
  lemma SlotTaken(prios: seq<PrioSlot>, free: nat, slot: PrioSlot)
    requires PriosOk(prios) && free < |prios| && prios[free].prio == 0 && 1 <= slot.prio <= 4
    requires forall i | 0 <= i < |prios| :: prios[i].prio != slot.prio
    requires forall i | 0 <= i < |prios| && prios[i].prio != 0 :: prios[i].id < slot.id
    requires 0 <= slot.id <= UsedSlots(prios)
    ensures PriosOk(prios[free := slot])
  {
    assert UsedSlots(prios[free := slot]) == UsedSlots(prios) + 1;
  }

  /** A priority keeps the kernel table it was given, a new one gets a table of its own, and the
      four ingress priorities never run out of slots. */
  lemma KernelTableKept(prios: seq<PrioSlot>, prio: int)
    requires PriosOk(prios) && 1 <= prio <= 4
    ensures var (prios', krn) := KernelTable(prios, prio);
            && PriosOk(prios')
            && Serves(prios', prio, krn)
            && KERNEL_HT <= krn < KERNEL_HT + PRIO_SLOTS
            && (forall q, x | q != 0 && Serves(prios, q, x) :: Serves(prios', q, x))
  {
    var i := IndexOfPrio(prios, prio);
    if i == |prios| {
      FreeSlotExists(prios, prio);
      RecordPrio(prios, prio);
      MaxBelow(prios);
      hide PriosOk, Serves;
      var free := FreeSlot(prios, |prios|);
      OthersServed(prios, free, PrioSlot(prio, MaxSlotId(prios, |prios|) + 1));
      FewSlots(prios, free);
    } else {
      assert prios[i].prio == prio;
    }
  }

  /** Taking a free slot leaves every other assignment. */
  lemma OthersServed(prios: seq<PrioSlot>, free: nat, slot: PrioSlot)
    requires free < |prios| && prios[free].prio == 0
    ensures Serves(prios[free := slot], slot.prio, KERNEL_HT + slot.id)
    ensures forall q, x | q != 0 && Serves(prios, q, x) :: Serves(prios[free := slot], q, x)
  {
    var prios' := prios[free := slot];
    assert prios'[free] == slot;
    forall q, x | q != 0 && Serves(prios, q, x) ensures Serves(prios', q, x) {
      var j :| 0 <= j < |prios| && prios[j].prio == q && x == KERNEL_HT + prios[j].id;
      assert prios'[j] == prios[j];
    }
  }

  lemma FewSlots(prios: seq<PrioSlot>, free: nat)
    requires |prios| == PRIO_SLOTS && free < |prios| && prios[free].prio == 0
    ensures UsedSlots(prios) < PRIO_SLOTS
  {
  }

  /** Two priorities never share a kernel table, and no priority has two. */
  lemma KernelTableUnique(prios: seq<PrioSlot>, q: int, r: int, x: int, y: int)
    requires PriosOk(prios) && q != 0 && r != 0
    requires Serves(prios, q, x) && Serves(prios, r, y)
    ensures q == r <==> x == y
  {
    var i :| 0 <= i < |prios| && prios[i].prio == q && x == KERNEL_HT + prios[i].id;
    var j :| 0 <= j < |prios| && prios[j].prio == r && y == KERNEL_HT + prios[j].id;
    assert i == j || i < j || j < i;
  }

  // ---------- table ids ----------

  /** Taking the lowest free id. */
  lemma TakeId(ctx: Ctx, tables: seq<Table>, C: set<Claim>)
    requires IdsOk(ctx, tables, C) && FirstZero(ctx.ht) >= 0
    ensures var h := FirstZero(ctx.ht);
            && 0 < h < MAP_BITS
            && h !in TableIds(tables) && h !in PendingIds(ctx.pending) && h !in LostIds(C)
  {
    assert Bit(ctx.ht, 0);
  }

  ghost predicate DistinctIds(pending: seq<Pending>) {
    forall i, j | 0 <= i < j < |pending| :: pending[i].htid != pending[j].htid
  }

  lemma PendingIdsCons(p: Pending, rest: seq<Pending>)
    ensures PendingIds([p] + rest) == {p.htid as int} + PendingIds(rest)
  {
    var all := [p] + rest;
    forall x | x in rest ensures x in all {
      var i :| 0 <= i < |rest| && rest[i] == x;
      assert all[i + 1] == x;
    }
    assert all[0] == p;
  }

  /** Retrying the pending list removes exactly the ids the kernel let go ... */
  lemma DistinctCons(p: Pending, pending: seq<Pending>)
    requires DistinctIds(pending) && p.htid !in PendingIds(pending)
    ensures DistinctIds([p] + pending)
  {
    assert forall i | 0 <= i < |pending| :: pending[i] in pending;
  }

  lemma {:induction false} FreePendingList(ctx: Ctx, freed: set<nat>)
    requires DistinctIds(ctx.pending)
    ensures var ctx' := FreePending(ctx, freed);
            && |ctx'.ht| == |ctx.ht| && ctx'.prios == ctx.prios
            && PendingIds(ctx'.pending) == PendingIds(ctx.pending) - freed
            && DistinctIds(ctx'.pending)
    decreases |ctx.pending|
  {
    if ctx.pending != [] {
      var p, cut := ctx.pending[0], ctx.(pending := ctx.pending[1..]);
      FreePendingList(cut, freed);
      assert ctx.pending == [p] + cut.pending;
      PendingIdsCons(p, cut.pending);
      var rest := FreePending(cut, freed);
      PendingIdsCons(p, rest.pending);
      assert p.htid !in PendingIds(cut.pending);
      assert FreePending(ctx, freed) == if p.htid in freed then rest.(ht := FreeHtid(rest.ht, p.htid))
                                        else rest.(pending := [p] + rest.pending);
      hide FreePending;
      DistinctCons(p, rest.pending);
    }
  }

  /** ... and makes exactly those ids available. */
  lemma {:induction false} FreePendingBits(ctx: Ctx, freed: set<nat>)
    requires forall p | p in ctx.pending :: p.htid < WIDTH * |ctx.ht|
    ensures var ctx' := FreePending(ctx, freed);
            && |ctx'.ht| == |ctx.ht|
            && forall b: nat | b < WIDTH * |ctx.ht| ::
                  Bit(ctx'.ht, b) <==> Bit(ctx.ht, b) && !(b in freed && b in PendingIds(ctx.pending))
    decreases |ctx.pending|
  {
    if ctx.pending != [] {
      var p, cut := ctx.pending[0], ctx.(pending := ctx.pending[1..]);
      FreePendingBits(cut, freed);
      assert ctx.pending == [p] + cut.pending;
      PendingIdsCons(p, cut.pending);
    }
  }

  lemma FreePendingIds(ctx: Ctx, tables: seq<Table>, C: set<Claim>, freed: set<nat>)
    requires IdsOk(ctx, tables, C)
    ensures IdsOk(FreePending(ctx, freed), tables, C)
    ensures FreePending(ctx, freed).prios == ctx.prios
  {
    assert forall p | p in ctx.pending :: p.htid in PendingIds(ctx.pending);
    FreePendingList(ctx, freed);
    FreePendingBits(ctx, freed);
  }

  // ---------- adding, level by level ----------

  lemma AddBucket(b: Bucket, C: set<Claim>, ht: int, k: Answers, c: Claim)
    requires BucketOk(b, C) && c !in C
    requires var p := AddToBucket(b, ht, k); c.depth == p.depth && c.id == p.id
    ensures BucketOk(AddToBucket(b, ht, k).elem, C + {c})
  {
    if c.depth >= 4 {
      SlotForIsFresh(b.nodes);
      InsertNode(b.nodes, SlotFor(b.nodes), C, c);
    } else {
      forall i | 0 <= i < |b.nodes| ensures |On(C + {c}, AtNode, b.nodes[i].id)| == 1 {
        OnAdd<int>(C, AtNode, b.nodes[i].id, c);
      }
    }
  }

  lemma InsertNode(nodes: seq<Node>, s: Slot, C: set<Claim>, c: Claim)
    requires NodesOk(nodes, C) && c !in C && c.depth >= 4
    requires s.pos <= |nodes| && 0 <= s.id == c.id && !InUse(nodes, s.id) && Ascending(Insert(nodes, s))
    ensures NodesOk(Insert(nodes, s), C + {c})
  {
    hide Ascending, Insert, On;
    var nodes' := Insert(nodes, s);
    forall i | 0 <= i < |nodes'|
      ensures nodes'[i].ref == 1 && |On(C + {c}, AtNode, nodes'[i].id)| == 1
    {
      InsertedNode(nodes, s, C, c, i);
    }
    forall d | d in C + {c} && d.depth >= 4 ensures InUse(nodes', d.id) {
      InsertedUse(nodes, s, d.id);
    }
  }

  lemma InsertedUse(nodes: seq<Node>, s: Slot, id: int)
    requires s.pos <= |nodes| && 0 <= s.id && (InUse(nodes, id) || id == s.id)
    ensures InUse(Insert(nodes, s), id)
  {
    var nodes' := Insert(nodes, s);
    if id == s.id {
      assert nodes'[s.pos].id == id;
    } else {
      var i :| 0 <= i < |nodes| && nodes[i].id == id;
      assert nodes'[if i < s.pos then i else i + 1] == nodes[i];
    }
  }

  lemma InsertedNode(nodes: seq<Node>, s: Slot, C: set<Claim>, c: Claim, i: nat)
    requires NodesOk(nodes, C) && c !in C && c.depth >= 4
    requires s.pos <= |nodes| && 0 <= s.id == c.id && !InUse(nodes, s.id) && i < |Insert(nodes, s)|
    ensures var x := Insert(nodes, s)[i]; x.ref == 1 && |On(C + {c}, AtNode, x.id)| == 1
  {
    var x := Insert(nodes, s)[i];
    OnAdd<int>(C, AtNode, x.id, c);
    if i == s.pos {
      assert On(C, AtNode, s.id) == {};
    } else {
      var k := if i < s.pos then i else i - 1;
      assert x == nodes[k] && InUse(nodes, x.id);
    }
  }

  /** The bucket an add finds or creates. */
  lemma BucketFor(t: Table, C: set<Claim>, bkt: nat)
    requires TableOk(t, C)
    ensures var j := IndexOfBucket(t.buckets, bkt);
            && j <= |t.buckets|
            && BucketOk(if j < |t.buckets| then t.buckets[j] else Bucket(bkt, 0, []), On(C, AtBucket, bkt))
            && if j < |t.buckets| then BucketKey(t.buckets[j]) == bkt else !HasKey(t.buckets, BucketKey, bkt)
  {
    var j := IndexOfBucket(t.buckets, bkt);
    if j == |t.buckets| {
      assert !HasKey(t.buckets, BucketKey, bkt);
      assert On(C, AtBucket, bkt) == {};
    } else {
      assert BucketLive(t.buckets[j], On(C, AtBucket, BucketKey(t.buckets[j])));
    }
  }

  lemma AddTable(t: Table, C: set<Claim>, f: Flow, k: Answers, c: Claim)
    requires TableOk(t, C) && c !in C
    requires var p := AddToTable(t, f, t.ht, k); c.depth == p.depth && c.id == p.id && c.ht == p.ht
    requires c.bkt == GetBkt(f)
    ensures TableOk(AddToTable(t, f, t.ht, k).elem, C + {c})
  {
    hide ListOk, NodesOk, AddToBucket, AddToTable, IndexOfBucket;
    var j, D := IndexOfBucket(t.buckets, c.bkt), On(C, AtBucket, c.bkt);
    BucketFor(t, C, c.bkt);
    AddTableIs(t, f, t.ht, k);
    var b := if j < |t.buckets| then t.buckets[j] else Bucket(c.bkt, 0, []);
    AddBucket(b, D, t.ht, k, c);
    OnAdd(C, AtBucket, c.bkt, c);
    ListPut(t.buckets, C, BucketKey, AtBucket, BucketLive, j, AddToBucket(b, t.ht, k).elem, c);
  }

  /** The ids after a table took a claim, after a new table, and after a failed one. */
  lemma IdsSameTables(ctx: Ctx, tables: seq<Table>, tables': seq<Table>, C: set<Claim>, C': set<Claim>)
    requires IdsOk(ctx, tables, C)
    requires |tables'| == |tables| && forall i | 0 <= i < |tables| :: tables'[i].ht == tables[i].ht
    requires LostIds(C') == LostIds(C) && forall c | c in C' && c.depth == 1 :: c in C
    ensures IdsOk(ctx, tables', C')
  {
    assert TableIds(tables') == TableIds(tables) by {
      forall i | 0 <= i < |tables| ensures tables[i].ht in TableIds(tables') && tables'[i].ht in TableIds(tables) {
        assert tables[i] in tables && tables'[i] in tables';
      }
    }
  }

  lemma IdsNewTable(ctx: Ctx, tables: seq<Table>, t: Table, C: set<Claim>, c: Claim)
    requires IdsOk(ctx, tables, C) && FirstZero(ctx.ht) >= 0
    requires t.ht == FirstZero(ctx.ht) && c.depth != 1
    ensures IdsOk(ctx.(ht := SetBit(ctx.ht, t.ht)), tables + [t], C + {c})
  {
    TakeId(ctx, tables, C);
    assert TableIds(tables + [t]) == TableIds(tables) + {t.ht as int} by {
      assert (tables + [t])[|tables|] == t;
      forall x | x in tables ensures x in tables + [t] {}
    }
    assert LostIds(C + {c}) == LostIds(C);
    forall i | 0 <= i < |tables| ensures tables[i].ht != t.ht {
      assert tables[i].ht in TableIds(tables);
    }
  }

  lemma IdsFailedTable(ctx: Ctx, tables: seq<Table>, C: set<Claim>, c: Claim)
    requires IdsOk(ctx, tables, C) && FirstZero(ctx.ht) >= 0
    requires c.ht == FirstZero(ctx.ht) && c.depth == 1 && c !in C
    ensures IdsOk(ctx.(ht := SetBit(ctx.ht, c.ht)), tables, C + {c})
  {
    TakeId(ctx, tables, C);
    assert LostIds(C + {c}) == LostIds(C) + {c.ht};
    forall d | d in C && d.depth == 1 ensures d.ht != c.ht {
      assert d.ht in LostIds(C);
    }
  }

  /** The claim an add of `f` with outcome `p` leaves behind. */
  ghost predicate Records<T>(c: Claim, f: Flow, p: Placed<T>) {
    && c.depth == p.depth && c.id == p.id && c.ht == p.ht
    && c.bkt == GetBkt(f) && c.kind == f.kind && c.ip == f.dstIp && c.ifId == f.ifId
  }

  /** Adding `f` needs a table id that is not there. */
  ghost predicate OutOfIds(e: Iface, f: Flow) {
    IndexOfTable(e.tables, f.kind, f.dstIp) == |e.tables| && FirstZero(e.ctx.ht) < 0
  }

  lemma PutTable(tables: seq<Table>, C: set<Claim>, f: Flow, k: Answers, c: Claim, j: nat, t: Table)
    requires ListOk(tables, C, TableKey, AtTable, TableLive) && c !in C && Ingress(f)
    requires j == IndexOfTable(tables, f.kind, f.dstIp)
    requires TableKey(t) == (f.kind, f.dstIp)
    requires if j < |tables| then t == tables[j] else t.ref == 0 && t.buckets == []
    requires Records(c, f, AddToTable(t, f, t.ht, k))
    ensures var t' := AddToTable(t, f, t.ht, k).elem;
            ListOk(if j < |tables| then tables[j := t'] else tables + [t'], C + {c}, TableKey, AtTable, TableLive)
  {
    var D := On(C, AtTable, TableKey(t));
    assert TableOk(t, D) by {
      if j == |tables| {
        assert !HasKey(tables, TableKey, TableKey(t));
        assert D == {};
      } else {
        assert TableLive(t, D);
      }
    }
    AddTable(t, D, f, k, c);
    OnAdd(C, AtTable, TableKey(t), c);
    var t' := AddToTable(t, f, t.ht, k).elem;
    assert TableLive(t', On(C + {c}, AtTable, TableKey(t')));
    ListPut(tables, C, TableKey, AtTable, TableLive, j, t', c);
  }

  lemma AddIfaceTables(e: Iface, C: set<Claim>, f: Flow, k: Answers, c: Claim)
    requires ListOk(e.tables, C, TableKey, AtTable, TableLive) && c !in C && Ingress(f)
    requires Records(c, f, AddToIface(e, f, k))
    requires FirstZero(e.ctx.ht) < MAP_BITS && !OutOfIds(e, f)
    ensures ListOk(AddToIface(e, f, k).elem.tables, C + {c}, TableKey, AtTable, TableLive)
  {
    hide AddToTable, KernelTable;
    var j := IndexOfTable(e.tables, f.kind, f.dstIp);
    if c.depth == 1 {
      ListSkip(e.tables, C, TableKey, AtTable, TableLive, c);
    } else {
      var t := if j < |e.tables| then e.tables[j] else NewTable(f, GetHtid(e.ctx, GetPrio(f)));
      PutTable(e.tables, C, f, k, c, j, t);
    }
  }

  lemma AddIfaceIds(e: Iface, C: set<Claim>, f: Flow, k: Answers, c: Claim)
    requires IdsOk(e.ctx, e.tables, C) && c !in C
    requires Records(c, f, AddToIface(e, f, k))
    requires !OutOfIds(e, f)
    ensures var e' := AddToIface(e, f, k).elem; IdsOk(e'.ctx, e'.tables, C + {c})
  {
    hide IdsOk, AddToTable, GetHtid, FreePending;
    if IndexOfTable(e.tables, f.kind, f.dstIp) < |e.tables| {
      AddKnownIds(e, C, f, k, c);
    } else {
      AddNewIds(e, C, f, k, c);
    }
  }

  lemma AddKnownIds(e: Iface, C: set<Claim>, f: Flow, k: Answers, c: Claim)
    requires IdsOk(e.ctx, e.tables, C) && c !in C && Records(c, f, AddToIface(e, f, k))
    requires IndexOfTable(e.tables, f.kind, f.dstIp) < |e.tables|
    ensures var e' := AddToIface(e, f, k).elem; IdsOk(e'.ctx, e'.tables, C + {c})
  {
    hide AddToTable, FreePending;
    var e' := AddToIface(e, f, k).elem;
    assert LostIds(C + {c}) == LostIds(C);
    IdsSameTables(e.ctx, e.tables, e'.tables, C, C + {c});
    hide IdsOk;
    FreePendingIds(e.ctx, e'.tables, C + {c}, k.freed);
  }

  lemma AddNewIds(e: Iface, C: set<Claim>, f: Flow, k: Answers, c: Claim)
    requires IdsOk(e.ctx, e.tables, C) && c !in C && Records(c, f, AddToIface(e, f, k)) && !OutOfIds(e, f)
    requires IndexOfTable(e.tables, f.kind, f.dstIp) == |e.tables|
    ensures var e' := AddToIface(e, f, k).elem; IdsOk(e'.ctx, e'.tables, C + {c})
  {
    hide AddToTable, KernelTable, FreePending;
    var j := |e.tables|;
    var e' := AddToIface(e, f, k).elem;
    var g := GetHtid(e.ctx, GetPrio(f));
    TakeId(e.ctx, e.tables, C);
    if c.depth == 1 {
      IdsFailedTable(e.ctx, e.tables, C, c);
    } else {
      IdsNewTable(e.ctx, e.tables, e'.tables[j], C, c);
      assert IdsOk(g.ctx, e'.tables, C + {c});
      hide IdsOk;
      FreePendingIds(g.ctx, e'.tables, C + {c}, k.freed);
    }
  }

  /** An add that needs a table id when none is left goes on with -1 for one, in a table or lost;
      the ids are then accounted for by no set of claims with this one in it. */
  lemma ExhaustedIdsBreak(e: Iface, C: set<Claim>, f: Flow, k: Answers, c: Claim)
    requires OutOfIds(e, f) && Records(c, f, AddToIface(e, f, k))
    ensures var e' := AddToIface(e, f, k).elem; !IdsOk(e'.ctx, e'.tables, C + {c})
  {
    var e' := AddToIface(e, f, k).elem;
    if k.divisor && k.link {
      assert e'.tables[|e.tables|].ht in TableIds(e'.tables);
    } else {
      assert c in C + {c} && c.ht in LostIds(C + {c});
    }
  }

  lemma KernelSameTables(ctx: Ctx, ctx': Ctx, tables: seq<Table>, tables': seq<Table>)
    requires KernelTablesOk(ctx, tables) && ctx'.prios == ctx.prios
    requires |tables'| == |tables|
    requires forall i | 0 <= i < |tables| :: tables'[i].kind == tables[i].kind && tables'[i].krn == tables[i].krn
    ensures KernelTablesOk(ctx', tables')
  {
    forall t | t in tables' ensures Serves(ctx'.prios, t.kind, t.krn) {
      var i :| 0 <= i < |tables'| && tables'[i] == t;
      assert tables[i] in tables;
    }
  }

  lemma KernelNewTable(ctx: Ctx, ctx': Ctx, tables: seq<Table>, t: Table)
    requires KernelTablesOk(ctx, tables) && 1 <= t.kind <= 4
    requires KernelTable(ctx.prios, t.kind) == (ctx'.prios, t.krn)
    requires forall t | t in tables :: t.kind != 0
    ensures KernelTablesOk(ctx', tables) && KernelTablesOk(ctx', tables + [t])
  {
    hide PriosOk, Serves, KernelTable;
    KernelTableKept(ctx.prios, t.kind);
    forall x | x in tables + [t] ensures Serves(ctx'.prios, x.kind, x.krn) {
      assert x in tables || x == t;
    }
  }

  lemma AddIfaceKernel(e: Iface, f: Flow, k: Answers)
    requires KernelTablesOk(e.ctx, e.tables) && Ingress(f)
    requires DistinctIds(e.ctx.pending)
    requires forall t | t in e.tables :: t.kind != 0
    ensures var e' := AddToIface(e, f, k).elem; KernelTablesOk(e'.ctx, e'.tables)
  {
    hide KernelTablesOk, AddToTable;
    var j := IndexOfTable(e.tables, f.kind, f.dstIp);
    var e' := AddToIface(e, f, k).elem;
    if j < |e.tables| {
      FreePendingList(e.ctx, k.freed);
      KernelSameTables(e.ctx, e'.ctx, e.tables, e'.tables);
    } else {
      var g := GetHtid(e.ctx, GetPrio(f));
      FreePendingList(g.ctx, k.freed);
      assert KERNEL_HT <= g.krn < KERNEL_HT + PRIO_SLOTS by { KernelRange(e.ctx, e.tables, f.kind); }
      var t := NewTable(f, g);
      KernelNewTable(e.ctx, g.ctx, e.tables, t);
      if k.divisor && k.link {
        KernelSameTables(g.ctx, e'.ctx, e.tables + [t], e'.tables);
      }
    }
  }

  lemma KernelRange(ctx: Ctx, tables: seq<Table>, prio: int)
    requires KernelTablesOk(ctx, tables) && 1 <= prio <= 4
    ensures KERNEL_HT <= KernelTable(ctx.prios, prio).1 < KERNEL_HT + PRIO_SLOTS
  {
    KernelTableKept(ctx.prios, prio);
  }

  lemma IfaceFacts(e: Iface, C: set<Claim>)
    requires IfaceOk(e, C)
    ensures DistinctIds(e.ctx.pending) && FirstZero(e.ctx.ht) < MAP_BITS
    ensures forall t | t in e.tables :: t.kind != 0
  {
    hide KernelTablesOk, TableOk;
    forall t | t in e.tables ensures t.kind != 0 {
      assert TableLive(t, On(C, AtTable, TableKey(t)));
    }
  }

  lemma AddCounts(e: Iface, f: Flow, k: Answers)
    ensures var p := AddToIface(e, f, k);
            p.elem.ifId == e.ifId && p.elem.ref == e.ref + 1 && (p.depth == 1 || p.depth == 3 || p.depth == 4)
  {
  }

  lemma AddIface(e: Iface, C: set<Claim>, f: Flow, k: Answers, c: Claim)
    requires IfaceOk(e, C) && c !in C && Ingress(f)
    requires Records(c, f, AddToIface(e, f, k)) && !OutOfIds(e, f)
    ensures IfaceOk(AddToIface(e, f, k).elem, C + {c})
  {
    hide TableLive, IdsOk, KernelTablesOk, AddToIface, OutOfIds, DistinctIds;
    IfaceFacts(e, C);
    AddCounts(e, f, k);
    AddIfaceTables(e, C, f, k, c);
    AddIfaceIds(e, C, f, k, c);
    AddIfaceKernel(e, f, k);
  }

  lemma NewIfaceOk(ifId: nat)
    ensures IfaceOk(NewIface(ifId), {})
  {
  }

  /** The interface an add of `f` works on. */
  function Target(ifs: seq<Iface>, f: Flow): Iface {
    var i := IndexOfIface(ifs, f.ifId);
    if i < |ifs| then ifs[i] else NewIface(f.ifId)
  }

  /** An add that raised counters keeps the invariant, with its claim. */
  lemma AddKeepsInv(ifs: seq<Iface>, C: set<Claim>, f: Flow, k: Answers, c: Claim)
    requires Inv(ifs, C) && c !in C && Ingress(f)
    requires Records(c, f, AddFlow(ifs, f, k)) && c.depth > 0 && !OutOfIds(Target(ifs, f), f)
    ensures Inv(AddFlow(ifs, f, k).elem, C + {c})
  {
    hide IfaceOk, AddToIface, NewIface, OutOfIds, ListOk;
    var i := IndexOfIface(ifs, f.ifId);
    var e := Target(ifs, f);
    TargetOk(ifs, C, f);
    TargetRef(ifs, C, f);
    AddIface(e, On(C, AtIface, f.ifId), f, k, c);
    AddCounts(e, f, k);
    OnAdd(C, AtIface, f.ifId, c);
    ListPut(ifs, C, IfaceKey, AtIface, IfaceLive, i, AddToIface(e, f, k).elem, c);
  }

  lemma TargetOk(ifs: seq<Iface>, C: set<Claim>, f: Flow)
    requires Inv(ifs, C)
    ensures IfaceOk(Target(ifs, f), On(C, AtIface, f.ifId))
  {
    var i, D := IndexOfIface(ifs, f.ifId), On(C, AtIface, f.ifId);
    hide IfaceOk;
    if i == |ifs| {
      assert !HasKey(ifs, IfaceKey, f.ifId);
      assert D == {};
      NewIfaceOk(f.ifId);
    } else {
      assert IfaceLive(ifs[i], D);
    }
  }

  lemma TargetRef(ifs: seq<Iface>, C: set<Claim>, f: Flow)
    requires Inv(ifs, C)
    ensures Target(ifs, f).ref >= 0 && Target(ifs, f).ifId == f.ifId
    ensures var i := IndexOfIface(ifs, f.ifId);
            if i < |ifs| then IfaceKey(ifs[i]) == f.ifId else !HasKey(ifs, IfaceKey, f.ifId)
  {
    hide IfaceOk;
    var i := IndexOfIface(ifs, f.ifId);
    if i < |ifs| {
      assert IfaceLive(ifs[i], On(C, AtIface, IfaceKey(ifs[i])));
    }
  }

  // ---------- deleting, level by level ----------

  /** The node of a live flow is where its id says, and no other flow shares it. */
  lemma NodeOf(nodes: seq<Node>, C: set<Claim>, c: Claim)
    requires NodesOk(nodes, C) && c in C && c.depth >= 4
    ensures c.id >= 0 && IndexOfNode(nodes, c.id) < |nodes|
    ensures nodes[IndexOfNode(nodes, c.id)] == Node(c.id, 1)
    ensures On(C, AtNode, c.id) == {c}
  {
    var i :| 0 <= i < |nodes| && nodes[i].id == c.id;
    var D := On(C, AtNode, c.id);
    assert c in D && |D| == 1;
    assert |D - {c}| == 0;
  }

  lemma Inhabited(C: set<Claim>, id: int)
    requires |On(C, AtNode, id)| == 1
    ensures C != {}
  {
    assert On({}, AtNode, id) == {};
  }

  lemma DelBucket(b: Bucket, C: set<Claim>, c: Claim)
    requires BucketOk(b, C) && c in C && c.depth >= 4
    ensures c.id >= 0 && BucketOk(DelFromBucket(b, c.id), C - {c})
    ensures var b' := DelFromBucket(b, c.id); b'.ref <= 0 ==> b'.nodes == [] && C - {c} == {}
  {
    NodeOf(b.nodes, C, c);
    DelNode(b.nodes, C, c, IndexOfNode(b.nodes, c.id));
    var b' := DelFromBucket(b, c.id);
    assert b'.nodes == RemoveAt(b.nodes, IndexOfNode(b.nodes, c.id));
    hide IndexOfNode, DelFromBucket;
    if b'.nodes != [] {
      assert |On(C - {c}, AtNode, b'.nodes[0].id)| == 1;
      Inhabited(C - {c}, b'.nodes[0].id);
    }
  }

  /** The node of a claim goes with it. */
  lemma DelNode(nodes: seq<Node>, C: set<Claim>, c: Claim, n: nat)
    requires NodesOk(nodes, C) && c in C && c.depth >= 4 && On(C, AtNode, c.id) == {c}
    requires n < |nodes| && nodes[n].id == c.id
    ensures NodesOk(RemoveAt(nodes, n), C - {c})
  {
    RemoveKeepsAscending(nodes, n);
    var nodes' := RemoveAt(nodes, n);
    hide Ascending, InUse;
    forall i | 0 <= i < |nodes'|
      ensures nodes'[i].ref == 1 && |On(C - {c}, AtNode, nodes'[i].id)| == 1
    {
      LeftNode(nodes, C, c, n, i);
    }
    forall d | d in C - {c} && d.depth >= 4 ensures InUse(nodes', d.id) {
      assert d !in On(C, AtNode, c.id);
    }
  }

  lemma LeftNode(nodes: seq<Node>, C: set<Claim>, c: Claim, n: nat, i: nat)
    requires NodesOk(nodes, C) && c in C && c.depth >= 4 && n < |nodes| && nodes[n].id == c.id
    requires i < |RemoveAt(nodes, n)|
    ensures var x := RemoveAt(nodes, n)[i]; x.ref == 1 && |On(C - {c}, AtNode, x.id)| == 1
  {
    var k := if i < n then i else i + 1;
    assert RemoveAt(nodes, n)[i] == nodes[k] && nodes[k].id != c.id;
    OnAdd<int>(C, AtNode, nodes[k].id, c);
  }

  lemma DelTable(t: Table, C: set<Claim>, c: Claim)
    requires TableOk(t, C) && c in C && c.depth >= 4
    ensures c.id >= 0 && TableOk(DelFromTable(t, c.bkt, c.id), C - {c})
    ensures var t' := DelFromTable(t, c.bkt, c.id); t'.ref <= 0 ==> t'.buckets == [] && C - {c} == {}
  {
    hide NodesOk, DelFromBucket;
    var j, D := IndexOfBucket(t.buckets, c.bkt), On(C, AtBucket, c.bkt);
    BucketOfClaim(t, C, c);
    hide IndexOfBucket;
    DelBucket(t.buckets[j], D, c);
    OnAdd(C, AtBucket, c.bkt, c);
    var b' := DelFromBucket(t.buckets[j], c.id);
    assert b'.bkt == c.bkt;
    if b'.nodes == [] && b'.ref <= 0 {
      ListDrop(t.buckets, C, BucketKey, AtBucket, BucketLive, j, c);
    } else {
      ListTake(t.buckets, C, BucketKey, AtBucket, BucketLive, j, b', c);
    }
    TableClaims(DelFromTable(t, c.bkt, c.id), C - {c});
  }

  lemma BucketOfClaim(t: Table, C: set<Claim>, c: Claim)
    requires TableOk(t, C) && c in C && c.depth >= 3
    ensures var j := IndexOfBucket(t.buckets, c.bkt);
            j < |t.buckets| && t.buckets[j].bkt == c.bkt && BucketLive(t.buckets[j], On(C, AtBucket, c.bkt))
  {
    hide BucketLive;
    var j := IndexOfBucket(t.buckets, c.bkt);
    assert HasKey(t.buckets, BucketKey, AtBucket(c).value);
    var i :| 0 <= i < |t.buckets| && BucketKey(t.buckets[i]) == c.bkt;
    assert BucketKey(t.buckets[j]) == c.bkt;
  }

  lemma TableClaims(t: Table, C: set<Claim>)
    requires TableOk(t, C)
    ensures t.ref <= 0 ==> t.buckets == [] && C == {}
  {
    hide NodesOk;
    if t.buckets != [] {
      assert BucketLive(t.buckets[0], On(C, AtBucket, t.buckets[0].bkt));
      var d :| d in On(C, AtBucket, t.buckets[0].bkt);
      assert C != {};
    }
  }

  lemma IdsDropTable(ctx: Ctx, tables: seq<Table>, C: set<Claim>, C': set<Claim>, j: nat, prio: int)
    requires IdsOk(ctx, tables, C) && j < |tables|
    requires LostIds(C') == LostIds(C) && forall c | c in C' && c.depth == 1 :: c in C
    ensures IdsOk(ctx.(pending := [Pending(tables[j].ht, prio)] + ctx.pending), RemoveAt(tables, j), C')
  {
    var p, rest := Pending(tables[j].ht, prio), RemoveAt(tables, j);
    PendingIdsCons(p, ctx.pending);
    assert tables[j].ht in TableIds(tables);
    assert TableIds(rest) == TableIds(tables) - {tables[j].ht as int} by {
      forall i | 0 <= i < |tables| && i != j ensures tables[i] in rest {
        assert rest[if i < j then i else i - 1] == tables[i];
      }
    }
    forall i | 0 <= i < |ctx.pending| ensures ctx.pending[i].htid != p.htid {
      assert ctx.pending[i].htid in PendingIds(ctx.pending);
    }
  }

  lemma KernelDropTable(ctx: Ctx, ctx': Ctx, tables: seq<Table>, j: nat)
    requires KernelTablesOk(ctx, tables) && j < |tables| && ctx'.prios == ctx.prios
    ensures KernelTablesOk(ctx', RemoveAt(tables, j))
  {
    forall t | t in RemoveAt(tables, j) ensures t in tables {}
  }

  /** A stored flow as its owner keeps it: the handle written by add_flow. */
  predicate Stored(f: Flow, c: Claim) {
    && f.ifId == c.ifId && f.kind == c.kind && f.dstIp == c.ip
    && f.handle == HandleSet(c.ht, c.bkt, c.id)
  }

  /** Bucket and node of a live flow fit the fields of a handle. */
  lemma FieldsFit(t: Table, C: set<Claim>, c: Claim)
    requires TableOk(t, C) && c in C && c.depth >= 4
    ensures c.bkt < 0x100 && 0 <= c.id < 0x1000
  {
    var j := IndexOfBucket(t.buckets, c.bkt);
    assert j < |t.buckets| by { assert HasKey(t.buckets, BucketKey, c.bkt); }
    var D := On(C, AtBucket, c.bkt);
    assert BucketLive(t.buckets[j], D);
    NodeOf(t.buckets[j].nodes, D, c);
  }

  lemma StoredDecodes(t: Table, C: set<Claim>, f: Flow, c: Claim)
    requires TableOk(t, C) && c in C && c.depth >= 4 && Stored(f, c)
    ensures HandleBkt(f.handle) == c.bkt && HandleId(f.handle) == c.id
  {
    hide TableOk, HandleSet, HandleBkt, HandleId;
    FieldsFit(t, C, c);
    HandleRoundTrip(c.ht, c.bkt, c.id);
  }

  lemma DelIfaceTables(e: Iface, C: set<Claim>, f: Flow, c: Claim)
    requires ListOk(e.tables, C, TableKey, AtTable, TableLive)
    requires c in C && c.depth == 4 && Stored(f, c)
    ensures IndexOfTable(e.tables, f.kind, f.dstIp) < |e.tables|
    ensures var e' := DelFromIface(e, f);
            ListOk(e'.tables, C - {c}, TableKey, AtTable, TableLive) && (e'.tables != [] ==> C - {c} != {})
  {
    hide BucketLive, Ascending;
    var key := (f.kind, f.dstIp);
    var j := IndexOfTable(e.tables, f.kind, f.dstIp);
    assert j < |e.tables| by { assert HasKey(e.tables, TableKey, key); }
    var D := On(C, AtTable, key);
    assert TableLive(e.tables[j], D);
    StoredDecodes(e.tables[j], D, f, c);
    DelTable(e.tables[j], D, c);
    OnAdd(C, AtTable, key, c);
    var t' := DelFromTable(e.tables[j], c.bkt, c.id);
    if t'.buckets == [] && t'.ref <= 0 {
      ListDrop(e.tables, C, TableKey, AtTable, TableLive, j, c);
    } else {
      ListTake(e.tables, C, TableKey, AtTable, TableLive, j, t', c);
    }
    var e' := DelFromIface(e, f);
    if e'.tables != [] {
      assert TableLive(e'.tables[0], On(C - {c}, AtTable, TableKey(e'.tables[0])));
      var d :| d in On(C - {c}, AtTable, TableKey(e'.tables[0]));
      assert C - {c} != {};
    }
  }

  lemma DelIfaceIds(e: Iface, C: set<Claim>, f: Flow, c: Claim)
    requires IdsOk(e.ctx, e.tables, C) && c in C && c.depth == 4
    requires IndexOfTable(e.tables, f.kind, f.dstIp) < |e.tables|
    ensures var e' := DelFromIface(e, f); IdsOk(e'.ctx, e'.tables, C - {c})
  {
    hide IdsOk, DelFromTable;
    var e' := DelFromIface(e, f);
    assert LostIds(C - {c}) == LostIds(C);
    var j := IndexOfTable(e.tables, f.kind, f.dstIp);
    var t' := DelFromTable(e.tables[j], HandleBkt(f.handle), HandleId(f.handle));
    if t'.buckets == [] && t'.ref <= 0 {
      IdsDropTable(e.ctx, e.tables, C, C - {c}, j, GetPrio(f));
    } else {
      IdsSameTables(e.ctx, e.tables, e'.tables, C, C - {c});
    }
  }

  lemma DelIfaceKernel(e: Iface, f: Flow)
    requires KernelTablesOk(e.ctx, e.tables) && IndexOfTable(e.tables, f.kind, f.dstIp) < |e.tables|
    ensures var e' := DelFromIface(e, f); KernelTablesOk(e'.ctx, e'.tables)
  {
    hide KernelTablesOk, DelFromTable;
    var e' := DelFromIface(e, f);
    var j := IndexOfTable(e.tables, f.kind, f.dstIp);
    var t' := DelFromTable(e.tables[j], HandleBkt(f.handle), HandleId(f.handle));
    if t'.buckets == [] && t'.ref <= 0 {
      KernelDropTable(e.ctx, e'.ctx, e.tables, j);
    } else {
      KernelSameTables(e.ctx, e'.ctx, e.tables, e'.tables);
    }
  }

  lemma DelCounts(e: Iface, f: Flow)
    ensures DelFromIface(e, f).ref == e.ref - 1
  {
  }

  lemma DelIface(e: Iface, C: set<Claim>, f: Flow, c: Claim)
    requires IfaceOk(e, C) && c in C && c.depth == 4 && Stored(f, c)
    ensures IfaceOk(DelFromIface(e, f), C - {c})
    ensures var e' := DelFromIface(e, f); e'.ref <= 0 ==> e'.tables == [] && C - {c} == {}
  {
    hide TableLive, IdsOk, KernelTablesOk, DelFromIface;
    DelCounts(e, f);
    DelIfaceTables(e, C, f, c);
    DelIfaceIds(e, C, f, c);
    DelIfaceKernel(e, f);
  }

  lemma FreePendingKeeps(e: Iface, C: set<Claim>, freed: set<nat>)
    requires IfaceOk(e, C)
    ensures IfaceOk(e.(ctx := FreePending(e.ctx, freed)), C)
  {
    hide TableLive, Serves, PriosOk;
    FreePendingIds(e.ctx, e.tables, C, freed);
  }

  /** Deleting a live flow keeps the invariant, without its claim. */
  lemma DelKeepsInv(ifs: seq<Iface>, C: set<Claim>, f: Flow, freed: set<nat>, c: Claim)
    requires Inv(ifs, C) && c in C && c.depth == 4 && Stored(f, c)
    ensures Inv(DelFlow(ifs, f, freed), C - {c})
  {
    hide TableLive, Serves, PriosOk, IdsOk, KernelTablesOk;
    var i := IndexOfIface(ifs, f.ifId);
    assert i < |ifs| by { assert HasKey(ifs, IfaceKey, AtIface(c).value); }
    var D := On(C, AtIface, f.ifId);
    assert IfaceLive(ifs[i], D);
    DelIface(ifs[i], D, f, c);
    OnAdd(C, AtIface, f.ifId, c);
    var e' := DelFromIface(ifs[i], f);
    if e'.tables == [] && e'.ref <= 0 {
      ListDrop(ifs, C, IfaceKey, AtIface, IfaceLive, i, c);
    } else {
      FreePendingKeeps(e', D - {c}, freed);
      ListTake(ifs, C, IfaceKey, AtIface, IfaceLive, i, e'.(ctx := FreePending(e'.ctx, freed)), c);
    }
  }

  // ---------- what del_flow returns ----------

  lemma LastClaim(C: set<Claim>, c: Claim)
    requires c in C
    ensures |C| <= 1 <==> C == {c}
  {
    if |C| <= 1 {
      assert |C - {c}| == 0;
    }
  }

  lemma NodeGoesLive(t: Table, C: set<Claim>, c: Claim)
    requires TableOk(t, C) && c in C && c.depth >= 4
    ensures c.id >= 0 && NodeGoesIn(t, c.bkt, c.id)
  {
    hide TableOk, NodesOk;
    BucketOfClaim(t, C, c);
    NodeOf(t.buckets[IndexOfBucket(t.buckets, c.bkt)].nodes, On(C, AtBucket, c.bkt), c);
  }

  /** Deleting a live flow asks the kernel for its filter, for its table when no other flow is on it, and
      for the qdisc when no other flow is on its interface; it reports success if and only if none of
      these is refused. */
  lemma DelRcIs(ifs: seq<Iface>, C: set<Claim>, f: Flow, a: DelAnswers, c: Claim)
    requires Inv(ifs, C) && c in C && c.depth == 4 && Stored(f, c)
    ensures var D := On(C, AtIface, c.ifId);
            DelRc(ifs, f, a) == 0 <==>
              && a.filter && (On(D, AtTable, (c.kind, c.ip)) == {c} ==> a.table) && (D == {c} ==> a.qdisc)
  {
    hide IfaceOk, RefusedIn, DelFromIface;
    var i, D := IndexOfIface(ifs, f.ifId), On(C, AtIface, f.ifId);
    assert IfaceLive(ifs[i], D) by { assert HasKey(ifs, IfaceKey, AtIface(c).value); }
    hide Inv, FindFirst;
    RefusedIs(ifs[i], D, f, a, c);
    IfaceGoesIs(ifs[i], D, f, c);
  }

  lemma IfaceGoesIs(e: Iface, C: set<Claim>, f: Flow, c: Claim)
    requires IfaceOk(e, C) && c in C && c.depth == 4 && Stored(f, c)
    ensures var e' := DelFromIface(e, f); e'.tables == [] && e'.ref <= 0 <==> C == {c}
  {
    hide DelFromIface, ListOk, IdsOk, KernelTablesOk;
    DelIface(e, C, f, c);
    DelCounts(e, f);
    LastClaim(C, c);
  }

  lemma RefusedIs(e: Iface, C: set<Claim>, f: Flow, a: DelAnswers, c: Claim)
    requires IfaceOk(e, C) && c in C && c.depth == 4 && Stored(f, c)
    ensures RefusedIn(e, f, a) <==> !a.filter || (On(C, AtTable, (c.kind, c.ip)) == {c} && !a.table)
  {
    var j, D := IndexOfTable(e.tables, c.kind, c.ip), On(C, AtTable, (c.kind, c.ip));
    assert TableLive(e.tables[j], D) by { assert HasKey(e.tables, TableKey, AtTable(c).value); }
    hide IfaceOk, FindFirst, DelFromTable, NodeGoesIn, HandleSet, HandleBkt, HandleId;
    StoredDecodes(e.tables[j], D, f, c);
    NodeGoesLive(e.tables[j], D, c);
    DelTable(e.tables[j], D, c);
    LastClaim(D, c);
  }

  /** A new priority gets the kernel table after those given out so far: 0x800 for the first, and so on. */
  lemma KernelTableNext(prios: seq<PrioSlot>, prio: int)
    requires PriosOk(prios) && 1 <= prio <= 4 && IndexOfPrio(prios, prio) == |prios|
    ensures KernelTable(prios, prio).1 == KERNEL_HT + UsedSlots(prios)
  {
    FreeSlotExists(prios, prio);
    MaxBelow(prios);
    var m := MaxSlotId(prios, |prios|);
    assert forall i | 0 <= i < |prios| && prios[i].prio != 0 :: prios[i].id <= m;
    hide MaxSlotId, FreeSlot;
    FewIds(prios, m);
  }

  /** Slots in use have different ids, so there are no more of them than ids. */
  lemma FewIds(prios: seq<PrioSlot>, m: int)
    requires PriosOk(prios) && -1 <= m && forall i | 0 <= i < |prios| && prios[i].prio != 0 :: prios[i].id <= m
    ensures UsedSlots(prios) <= m + 1
  {
    var a, b, c, d := prios[0], prios[1], prios[2], prios[3];
    assert forall i, j | 0 <= i < j < |prios| && prios[i].prio != 0 && prios[j].prio != 0 :: prios[i].id != prios[j].id;
  }
}

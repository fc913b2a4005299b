/**
 Whole runs of the flow table: any sequence of adds of ingress flows and deletes of live ones,
 against a kernel that answers as it likes.
 */
module FlowRuns {
  import opened Bitmap
  import opened NodeIds
  import opened FlowTable
  import opened FlowInvariant
  import opened Options

  datatype Step =
    | Add(f: Flow, k: Answers)
    | Del(c: Claim, freed: set<nat>)

  /** The table, the claims outstanding on it, and the number of adds so far. */
  datatype World = World(ifs: seq<Iface>, claims: set<Claim>, next: nat)

  const START := World([], {}, 0)

  function ClaimOf(n: nat, f: Flow, p: Placed<seq<Iface>>): Claim {
    Claim(n, f.ifId, p.depth, f.kind, f.dstIp, GetBkt(f), p.ht, p.id)
  }

  /** The record a process keeps of its flow: the address of the flow and the handle it was given. */
  function FlowOf(c: Claim): Flow {
    Flow(c.ifId, c.kind, c.ip, c.bkt, HandleSet(c.ht, c.bkt, c.id))
  }

  predicate Live(c: Claim) {
    c.depth == 4
  }

  function Exec(w: World, s: Step): World {
    match s
    case Add(f, k) =>
      var p := AddFlow(w.ifs, f, k);
      World(p.elem, if p.depth > 0 then w.claims + {ClaimOf(w.next, f, p)} else w.claims, w.next + 1)
    case Del(c, freed) =>
      if c in w.claims && Live(c) then w.(ifs := DelFlow(w.ifs, FlowOf(c), freed), claims := w.claims - {c})
      else w
  }

  /** Ingress flows only, and a table id left when a new table is needed. */
  ghost predicate Allowed(w: World, s: Step) {
    s.Add? ==> Ingress(s.f) && !OutOfIds(Target(w.ifs, s.f), s.f)
  }

  function Run(w: World, steps: seq<Step>): World
    decreases |steps|
  {
    if steps == [] then w else Run(Exec(w, steps[0]), steps[1..])
  }

  ghost predicate AllowedRun(w: World, steps: seq<Step>)
    decreases |steps|
  {
    steps == [] || (Allowed(w, steps[0]) && AllowedRun(Exec(w, steps[0]), steps[1..]))
  }

  ghost predicate WorldOk(w: World) {
    Inv(w.ifs, w.claims) && forall c | c in w.claims :: c.seqno < w.next
  }

  lemma StartOk()
    ensures WorldOk(START)
  {
  }

  lemma StepKeepsWorld(w: World, s: Step)
    requires WorldOk(w) && Allowed(w, s)
    ensures WorldOk(Exec(w, s))
  {
    hide Inv, AddFlow, DelFlow;
    match s
    case Add(f, k) =>
      var p := AddFlow(w.ifs, f, k);
      if p.depth > 0 {
        AddKeepsInv(w.ifs, w.claims, f, k, ClaimOf(w.next, f, p));
      } else {
        AddNothing(w.ifs, f, k);
      }
    case Del(c, freed) =>
      if c in w.claims && Live(c) {
        DelKeepsInv(w.ifs, w.claims, FlowOf(c), freed, c);
      }
  }

  lemma AddNothing(ifs: seq<Iface>, f: Flow, k: Answers)
    requires AddFlow(ifs, f, k).depth == 0
    ensures AddFlow(ifs, f, k).elem == ifs
  {
  }

  /** The invariant holds after every allowed run. */
  lemma {:induction false} RunKeepsWorld(w: World, steps: seq<Step>)
    requires WorldOk(w) && AllowedRun(w, steps)
    ensures WorldOk(Run(w, steps))
    decreases |steps|
  {
    if steps != [] {
      StepKeepsWorld(w, steps[0]);
      RunKeepsWorld(Exec(w, steps[0]), steps[1..]);
    }
  }

  /** Runs are not empty of sense: with a willing kernel the first add of any ingress flow is allowed
      and gets all the way. */
  lemma FirstAddCompletes(f: Flow, k: Answers)
    requires Ingress(f) && k.qdisc && k.divisor && k.link && k.filter
    ensures WorldOk(START) && Allowed(START, Add(f, k))
    ensures AddRc(AddFlow([], f, k)) == 0 && Exec(START, Add(f, k)).claims == {ClaimOf(0, f, AddFlow([], f, k))}
  {
    var words := NewIface(f.ifId).ctx.ht;
    assert !Bit(words, 1);
  }

  // ---------- reference counts ----------

  function ByIface(L: set<Claim>, ifId: nat): set<Claim> {
    set c | c in L && c.ifId == ifId
  }

  function ByTable(L: set<Claim>, kind: int, ip: nat): set<Claim> {
    set c | c in L && c.kind == kind && c.ip == ip
  }

  function ByBucket(L: set<Claim>, bkt: nat): set<Claim> {
    set c | c in L && c.bkt == bkt
  }

  function ById(L: set<Claim>, id: nat): set<Claim> {
    set c | c in L && c.id == id
  }

  // L holds the live flows beneath the element; each counter is their number and never zero.

  ghost predicate BucketRefs(b: Bucket, L: set<Claim>) {
    b.ref == |L| > 0 && forall n | n in b.nodes :: n.ref == |ById(L, n.id)| == 1
  }

  ghost predicate TableRefs(t: Table, L: set<Claim>) {
    t.ref == |L| > 0 && forall b | b in t.buckets :: BucketRefs(b, ByBucket(L, b.bkt))
  }

  ghost predicate IfaceRefs(e: Iface, L: set<Claim>) {
    e.ref == |L| > 0 && forall t | t in e.tables :: TableRefs(t, ByTable(L, t.kind, t.ip))
  }

  ghost predicate ExactRefs(ifs: seq<Iface>, L: set<Claim>) {
    forall e | e in ifs :: IfaceRefs(e, ByIface(L, e.ifId))
  }

  ghost predicate AllLive(C: set<Claim>) {
    forall c | c in C :: Live(c)
  }

  lemma BucketRefsExact(b: Bucket, C: set<Claim>)
    requires BucketLive(b, C) && AllLive(C)
    ensures BucketRefs(b, C)
  {
    forall n | n in b.nodes ensures n.ref == |ById(C, n.id)| == 1 {
      assert On(C, AtNode, n.id as int) == ById(C, n.id);
    }
  }

  lemma TableRefsExact(t: Table, C: set<Claim>)
    requires TableLive(t, C) && AllLive(C)
    ensures TableRefs(t, C)
  {
    forall b | b in t.buckets ensures BucketRefs(b, ByBucket(C, b.bkt)) {
      assert On(C, AtBucket, b.bkt) == ByBucket(C, b.bkt);
      BucketRefsExact(b, ByBucket(C, b.bkt));
    }
  }

  lemma IfaceRefsExact(e: Iface, C: set<Claim>)
    requires IfaceLive(e, C) && AllLive(C)
    ensures IfaceRefs(e, C)
  {
    hide IdsOk, KernelTablesOk;
    forall t | t in e.tables ensures TableRefs(t, ByTable(C, t.kind, t.ip)) {
      assert On(C, AtTable, (t.kind, t.ip)) == ByTable(C, t.kind, t.ip);
      TableRefsExact(t, ByTable(C, t.kind, t.ip));
    }
  }

  lemma RefsExact(ifs: seq<Iface>, C: set<Claim>)
    requires Inv(ifs, C) && AllLive(C)
    ensures ExactRefs(ifs, C)
  {
    hide TableLive, IdsOk, KernelTablesOk;
    forall e | e in ifs ensures IfaceRefs(e, ByIface(C, e.ifId)) {
      assert On(C, AtIface, e.ifId) == ByIface(C, e.ifId);
      IfaceRefsExact(e, ByIface(C, e.ifId));
    }
  }

  /** The kernel and the bucket let an add all the way through; or it is refused at once, with the
      interface. */
  predicate GoesThrough(ifs: seq<Iface>, f: Flow, k: Answers) {
    var e := Target(ifs, f);
    if IndexOfIface(ifs, f.ifId) == |ifs| && !k.qdisc then true
    else
      && (IndexOfTable(e.tables, f.kind, f.dstIp) < |e.tables| || (k.divisor && k.link))
      && k.filter && !BucketFull(ifs, f)
  }

  /** An add raises no counter or has its node exactly when those conditions hold. */
  lemma DepthIs(ifs: seq<Iface>, C: set<Claim>, f: Flow, k: Answers)
    requires Inv(ifs, C) && Ingress(f)
    ensures AddFlow(ifs, f, k).depth == 0 || AddFlow(ifs, f, k).depth == 4 <==> GoesThrough(ifs, f, k)
  {
    hide IdsOk, KernelTablesOk, TableLive, AddToTable, GetHtid;
    var i := IndexOfIface(ifs, f.ifId);
    var e := Target(ifs, f);
    var j := IndexOfTable(e.tables, f.kind, f.dstIp);
    var g := GetHtid(e.ctx, GetPrio(f));
    if j == |e.tables| {
      FullBucketInNewTable(f, g, k);
      AddTableDepth(NewTable(f, g), f, g.ht, k);
    } else {
      var D := On(C, AtIface, f.ifId);
      assert IfaceLive(e, D);
      ListElement(e.tables, D, j);
      FullBucketInTable(e.tables[j], On(D, AtTable, (f.kind, f.dstIp)), f, k);
      AddTableDepth(e.tables[j], f, e.tables[j].ht, k);
    }
  }

  lemma AddTableDepth(t: Table, f: Flow, ht: int, k: Answers)
    ensures var p := AddToTable(t, f, ht, k); p.depth == 4 <==> p.id > 0 && k.filter
  {
  }

  /** No add of the run is stopped half way. */
  ghost predicate Completes(w: World, s: Step) {
    s.Add? ==> GoesThrough(w.ifs, s.f, s.k)
  }

  ghost predicate CompleteRun(w: World, steps: seq<Step>)
    decreases |steps|
  {
    steps == [] || (Completes(w, steps[0]) && CompleteRun(Exec(w, steps[0]), steps[1..]))
  }

  lemma CompletesIs(w: World, s: Step)
    requires WorldOk(w) && Allowed(w, s)
    ensures Completes(w, s) <==> AllLive(Exec(w, s).claims - w.claims)
    ensures forall c | c in w.claims && !Live(c) :: c in Exec(w, s).claims
  {
    hide Inv, AddFlow, DelFlow, GoesThrough;
    match s
    case Add(f, k) =>
      DepthIs(w.ifs, w.claims, f, k);
      var p := AddFlow(w.ifs, f, k);
      assert ClaimOf(w.next, f, p) !in w.claims;
    case Del(c, freed) =>
  }

  lemma {:induction false} RunAllLive(w: World, steps: seq<Step>)
    requires WorldOk(w) && AllowedRun(w, steps)
    ensures AllLive(Run(w, steps).claims) <==> AllLive(w.claims) && CompleteRun(w, steps)
    decreases |steps|
  {
    hide Exec, Completes, WorldOk, Allowed;
    if steps != [] {
      var w' := Exec(w, steps[0]);
      StepKeepsWorld(w, steps[0]);
      RunAllLive(w', steps[1..]);
      CompletesIs(w, steps[0]);
      if AllLive(w.claims) && Completes(w, steps[0]) {
        assert forall c | c in w'.claims :: c in w.claims || c in w'.claims - w.claims;
      }
    }
  }

  function LiveOf(C: set<Claim>): set<Claim> {
    set c | c in C && Live(c)
  }

  /** An add that stopped half way is counted on its interface for ever. */
  lemma LeakShows(ifs: seq<Iface>, C: set<Claim>, c: Claim)
    requires Inv(ifs, C) && c in C && !Live(c)
    ensures !ExactRefs(ifs, LiveOf(C))
  {
    hide TableLive, IdsOk, KernelTablesOk;
    var i :| 0 <= i < |ifs| && ifs[i].ifId == c.ifId;
    var D, L := On(C, AtIface, c.ifId), ByIface(LiveOf(C), c.ifId);
    assert IfaceLive(ifs[i], D);
    assert L <= D - {c};
    assert D - {c} == L + (D - {c} - L);
    assert ifs[i] in ifs;
  }

  /** After any allowed run from the empty table, every counter equals the number of live flows
      beneath its element, and no element is without one, exactly when no add of the run stopped
      half way. */
  lemma RunRefs(steps: seq<Step>)
    requires AllowedRun(START, steps)
    ensures var w := Run(START, steps); ExactRefs(w.ifs, LiveOf(w.claims)) <==> CompleteRun(START, steps)
  {
    RunKeepsWorld(START, steps);
    RunAllLive(START, steps);
    var w := Run(START, steps);
    if CompleteRun(START, steps) {
      assert LiveOf(w.claims) == w.claims;
      RefsExact(w.ifs, w.claims);
    } else {
      var c :| c in w.claims && !Live(c);
      LeakShows(w.ifs, w.claims, c);
    }
  }

  // ---------- handles ----------

  /** The walk of del_flow from a flow's address and handle down to a node. */
  datatype Path = Path(iface: nat, table: nat, bucket: nat, node: nat)

  function PathOf(ifs: seq<Iface>, f: Flow): Option<Path> {
    var i := IndexOfIface(ifs, f.ifId);
    if i == |ifs| then None else
    var j := IndexOfTable(ifs[i].tables, f.kind, f.dstIp);
    if j == |ifs[i].tables| then None else
    var b := IndexOfBucket(ifs[i].tables[j].buckets, HandleBkt(f.handle));
    if b == |ifs[i].tables[j].buckets| then None else
    var n := IndexOfNode(ifs[i].tables[j].buckets[b].nodes, HandleId(f.handle));
    if n == |ifs[i].tables[j].buckets[b].nodes| then None else Some(Path(i, j, b, n))
  }

  ghost predicate LeadsHome(ifs: seq<Iface>, c: Claim) {
    match PathOf(ifs, FlowOf(c))
    case None => false
    case Some(p) =>
      && p.iface < |ifs| && p.table < |ifs[p.iface].tables|
      && var t := ifs[p.iface].tables[p.table];
      && p.bucket < |t.buckets| && p.node < |t.buckets[p.bucket].nodes|
      && t.ht == c.ht && t.buckets[p.bucket].bkt == c.bkt
      && var node := t.buckets[p.bucket].nodes[p.node]; node.id == c.id && node.ref == 1
  }

  /** The stored handle of a live flow, decoded, leads to a node that is there and carries its id. */
  lemma HandleLeadsHome(ifs: seq<Iface>, C: set<Claim>, c: Claim)
    requires Inv(ifs, C) && c in C && Live(c)
    ensures LeadsHome(ifs, c)
  {
    hide IdsOk, KernelTablesOk, Ascending, HandleSet, HandleBkt, HandleId;
    var f := FlowOf(c);
    var i := IndexOfIface(ifs, c.ifId);
    assert i < |ifs| by { assert HasKey(ifs, IfaceKey, AtIface(c).value); }
    var D := On(C, AtIface, c.ifId);
    assert IfaceLive(ifs[i], D);
    TableLeadsHome(ifs[i].tables, D, c);
  }

  lemma TableLeadsHome(tables: seq<Table>, C: set<Claim>, c: Claim)
    requires ListOk(tables, C, TableKey, AtTable, TableLive) && c in C && Live(c)
    ensures var j := IndexOfTable(tables, c.kind, c.ip);
            && j < |tables| && tables[j].ht == c.ht
            && var b := IndexOfBucket(tables[j].buckets, c.bkt);
            && b < |tables[j].buckets|
            && c.id >= 0
            && var n := IndexOfNode(tables[j].buckets[b].nodes, c.id);
            && n < |tables[j].buckets[b].nodes| && tables[j].buckets[b].nodes[n] == Node(c.id, 1)
            && HandleBkt(FlowOf(c).handle) == c.bkt && HandleId(FlowOf(c).handle) == c.id
  {
    var j := IndexOfTable(tables, c.kind, c.ip);
    assert j < |tables| by { assert HasKey(tables, TableKey, AtTable(c).value); }
    var D := On(C, AtTable, (c.kind, c.ip));
    assert TableLive(tables[j], D);
    StoredDecodes(tables[j], D, FlowOf(c), c);
    var b := IndexOfBucket(tables[j].buckets, c.bkt);
    assert b < |tables[j].buckets| by { assert HasKey(tables[j].buckets, BucketKey, AtBucket(c).value); }
    var E := On(D, AtBucket, c.bkt);
    assert BucketLive(tables[j].buckets[b], E);
    NodeOf(tables[j].buckets[b].nodes, E, c);
  }

  lemma SameNodeSameFlow(tables: seq<Table>, C: set<Claim>, c: Claim, d: Claim)
    requires ListOk(tables, C, TableKey, AtTable, TableLive) && c in C && d in C && Live(c) && Live(d)
    requires c.kind == d.kind && c.ip == d.ip && c.bkt == d.bkt && c.id == d.id
    ensures c == d
  {
    var j := IndexOfTable(tables, c.kind, c.ip);
    var D := On(C, AtTable, (c.kind, c.ip));
    assert TableOk(tables[j], D) by {
      assert HasKey(tables, TableKey, AtTable(c).value);
      assert TableLive(tables[j], D);
    }
    hide ListOk, IndexOfTable;
    var b, E := IndexOfBucket(tables[j].buckets, c.bkt), On(D, AtBucket, c.bkt);
    BucketOfClaim(tables[j], D, c);
    hide TableOk, IndexOfBucket;
    NodeOf(tables[j].buckets[b].nodes, E, c);
    assert d in On(E, AtNode, c.id);
  }

  lemma TableIdInRange(e: Iface, C: set<Claim>, j: nat)
    requires IdsOk(e.ctx, e.tables, C) && j < |e.tables|
    ensures 0 < e.tables[j].ht < MAP_BITS
    ensures forall i | 0 <= i < |e.tables| && e.tables[i].ht == e.tables[j].ht :: i == j
  {
    assert e.tables[j].ht in TableIds(e.tables);
  }

  /** Two live flows on one interface never have the same 32-bit handle. */
  lemma HandlesDistinct(ifs: seq<Iface>, C: set<Claim>, c: Claim, d: Claim)
    requires Inv(ifs, C) && c in C && d in C && Live(c) && Live(d) && c.ifId == d.ifId
    ensures HandleSet(c.ht, c.bkt, c.id) == HandleSet(d.ht, d.bkt, d.id) <==> c == d
  {
    hide IfaceOk, HandleSet;
    if HandleSet(c.ht, c.bkt, c.id) == HandleSet(d.ht, d.bkt, d.id) {
      var i, D := IndexOfIface(ifs, c.ifId), On(C, AtIface, c.ifId);
      assert IfaceLive(ifs[i], D) by { assert HasKey(ifs, IfaceKey, AtIface(c).value); }
      hide Inv, FindFirst;
      HandlesDistinctOn(ifs[i], D, c, d);
    }
  }

  lemma HandlesDistinctOn(e: Iface, C: set<Claim>, c: Claim, d: Claim)
    requires IfaceOk(e, C) && c in C && d in C && Live(c) && Live(d)
    requires HandleSet(c.ht, c.bkt, c.id) == HandleSet(d.ht, d.bkt, d.id)
    ensures c == d
  {
    hide ListOk, IdsOk, KernelTablesOk, HandleSet, HandleBkt, HandleId, HandleHt, FindFirst;
    TableLeadsHome(e.tables, C, c);
    TableLeadsHome(e.tables, C, d);
    TableIdInRange(e, C, IndexOfTable(e.tables, c.kind, c.ip));
    TableIdInRange(e, C, IndexOfTable(e.tables, d.kind, d.ip));
    HandleRoundTrip(c.ht, c.bkt, c.id);
    HandleRoundTrip(d.ht, d.bkt, d.id);
    SameNodeSameFlow(e.tables, C, c, d);
  }

  /** In every state that runs lead to, the stored handle of a live flow leads to its node, and no two
      live flows of an interface have the same handle. */
  lemma RunHandles(steps: seq<Step>, c: Claim, d: Claim)
    requires AllowedRun(START, steps)
    requires var C := Run(START, steps).claims; c in C && d in C && Live(c) && Live(d) && c.ifId == d.ifId
    ensures var w := Run(START, steps); LeadsHome(w.ifs, c) && LeadsHome(w.ifs, d)
    ensures FlowOf(c).handle == FlowOf(d).handle <==> c == d
  {
    RunKeepsWorld(START, steps);
    var w := Run(START, steps);
    hide Run, Inv, LeadsHome;
    HandleLeadsHome(w.ifs, w.claims, c);
    HandleLeadsHome(w.ifs, w.claims, d);
    HandlesDistinct(w.ifs, w.claims, c, d);
  }

  /** No delete reaches another flow: every other live flow is still where its handle says. */
  lemma DeleteSparesOthers(w: World, c: Claim, freed: set<nat>, d: Claim)
    requires WorldOk(w) && c in w.claims && Live(c) && d in w.claims && Live(d) && c != d
    ensures var w' := Exec(w, Del(c, freed)); LeadsHome(w'.ifs, d)
  {
    hide Inv, LeadsHome, DelFlow;
    StepKeepsWorld(w, Del(c, freed));
    var w' := Exec(w, Del(c, freed));
    HandleLeadsHome(w'.ifs, w'.claims, d);
  }

  // ---------- full buckets ----------

  /** The bucket `f` falls into has no id left. */
  predicate BucketFull(ifs: seq<Iface>, f: Flow) {
    var i := IndexOfIface(ifs, f.ifId);
    i < |ifs| &&
    var j := IndexOfTable(ifs[i].tables, f.kind, f.dstIp);
    j < |ifs[i].tables| &&
    var b := IndexOfBucket(ifs[i].tables[j].buckets, GetBkt(f));
    b < |ifs[i].tables[j].buckets| && |ifs[i].tables[j].buckets[b].nodes| == MAX_ID
  }

  /** The id field of a handle built from -EINVAL; it is a valid node id. */
  const BOGUS_ID := 0xFEA

  lemma FullBucketId(b: Bucket, C: set<Claim>, ht: int, k: Answers)
    requires BucketOk(b, C)
    ensures |b.nodes| == MAX_ID <==> AddToBucket(b, ht, k).id <= 0
    ensures |b.nodes| == MAX_ID ==>
              && AddToBucket(b, ht, k).depth == 3
              && AddToBucket(b, ht, k).id == -EINVAL
              && exists d :: d in C && d.depth >= 4 && d.id == BOGUS_ID
  {
    SlotForIsFresh(b.nodes);
    if |b.nodes| == MAX_ID {
      assert InUse(b.nodes, BOGUS_ID);
      var i :| 0 <= i < |b.nodes| && b.nodes[i].id == BOGUS_ID;
      var D := On(C, AtNode, b.nodes[i].id as int);
      var d :| d in D;
    }
  }

  /** Adding to a table: the id is good unless the bucket is full, and then it is another flow's. */
  lemma FullBucketInTable(t: Table, C: set<Claim>, f: Flow, k: Answers)
    requires TableOk(t, C)
    ensures var b := IndexOfBucket(t.buckets, GetBkt(f));
            var p := AddToTable(t, f, t.ht, k);
            var full := b < |t.buckets| && |t.buckets[b].nodes| == MAX_ID;
            && p.ht == t.ht && p.depth >= 3
            && (full <==> p.id <= 0)
            && (full ==> p.depth == 3 && p.id == -EINVAL)
            && (full ==> exists d :: d in C && d.depth >= 4 && d.ht == t.ht && d.bkt == GetBkt(f) && d.id == BOGUS_ID)
  {
    var b := IndexOfBucket(t.buckets, GetBkt(f));
    if b < |t.buckets| {
      var D := On(C, AtBucket, GetBkt(f));
      assert BucketLive(t.buckets[b], D);
      FullBucketId(t.buckets[b], D, t.ht, k);
    } else {
      FullBucketId(Bucket(GetBkt(f), 0, []), {}, t.ht, k);
    }
  }

  /** What add_flow reports, once past the interface, is what adding to its table reports. */
  lemma AddOutcome(ifs: seq<Iface>, f: Flow, k: Answers)
    requires Ingress(f) && AddRc(AddFlow(ifs, f, k)) == 0
    ensures var e := Target(ifs, f);
            var j := IndexOfTable(e.tables, f.kind, f.dstIp);
            var g := GetHtid(e.ctx, GetPrio(f));
            var p := AddFlow(ifs, f, k);
            var q := if j < |e.tables| then AddToTable(e.tables[j], f, e.tables[j].ht, k)
                     else AddToTable(NewTable(f, g), f, g.ht, k);
            p.depth == q.depth && p.ht == q.ht && p.id == q.id
  {
    hide AddToTable, GetHtid, Settle;
  }

  lemma DelIgnoresPort(ifs: seq<Iface>, f: Flow, g: Flow, freed: set<nat>)
    requires f.ifId == g.ifId && f.kind == g.kind && f.dstIp == g.dstIp && f.handle == g.handle
    ensures DelFlow(ifs, f, freed) == DelFlow(ifs, g, freed)
  {
    hide DelFromTable, FreePending;
  }

  lemma FullBucketNamesOther(ifs: seq<Iface>, f: Flow, k: Answers, d: Claim)
    requires var p := AddFlow(ifs, f, k); p.depth == 3 && p.ht == d.ht && p.id == -EINVAL
    requires d.ifId == f.ifId && d.kind == f.kind && d.ip == f.dstIp && d.bkt == GetBkt(f) && d.id == BOGUS_ID
    ensures NamesOther(ifs, f, k, d)
  {
    hide AddFlow, DelFlow, HandleSet;
    HandleOfError(d.ht, d.bkt);
    var p := AddFlow(ifs, f, k);
    var f' := f.(handle := AddHandle(f, p));
    forall freed ensures DelFlow(p.elem, f', freed) == DelFlow(p.elem, FlowOf(d), freed) {
      DelIgnoresPort(p.elem, f', FlowOf(d), freed);
    }
  }

  /** The handle of an add that reports success is its own exactly when the bucket had room. A full
      bucket is reported as success too, with the handle of another live flow: deleting the new
      flow then does exactly what deleting that other flow does. */
  lemma SuccessNamesOwnNode(ifs: seq<Iface>, C: set<Claim>, f: Flow, k: Answers)
    requires Inv(ifs, C) && Ingress(f) && AddRc(AddFlow(ifs, f, k)) == 0
    ensures AddFlow(ifs, f, k).depth == 4 <==> !BucketFull(ifs, f)
    ensures BucketFull(ifs, f) ==> exists d :: d in C && Live(d) && NamesOther(ifs, f, k, d)
  {
    hide IdsOk, KernelTablesOk, TableLive, AddFlow, AddToTable, GetHtid, NamesOther;
    AddOutcome(ifs, f, k);
    var i := IndexOfIface(ifs, f.ifId);
    var e := Target(ifs, f);
    var j := IndexOfTable(e.tables, f.kind, f.dstIp);
    if j == |e.tables| {
      FullBucketInNewTable(f, GetHtid(e.ctx, GetPrio(f)), k);
    } else {
      var D := On(C, AtIface, f.ifId);
      assert IfaceLive(e, D);
      var E := On(D, AtTable, (f.kind, f.dstIp));
      ListElement(e.tables, D, j);
      FullBucketInTable(e.tables[j], E, f, k);
      if BucketFull(ifs, f) {
        var d :| d in E && d.depth >= 4 && d.ht == e.tables[j].ht && d.bkt == GetBkt(f) && d.id == BOGUS_ID;
        FullBucketNamesOther(ifs, f, k, d);
        assert d in C && Live(d);
      }
    }
  }

  lemma ListElement(tables: seq<Table>, C: set<Claim>, j: nat)
    requires ListOk(tables, C, TableKey, AtTable, TableLive) && j < |tables|
    ensures TableOk(tables[j], On(C, AtTable, (tables[j].kind, tables[j].ip)))
  {
    assert TableLive(tables[j], On(C, AtTable, TableKey(tables[j])));
  }

  lemma FullBucketInNewTable(f: Flow, g: Htid, k: Answers)
    ensures AddToTable(NewTable(f, g), f, g.ht, k).id > 0
  {
  }

  lemma HandleOfError(ht: int, bkt: int)
    ensures HandleSet(ht, bkt, -EINVAL) == HandleSet(ht, bkt, BOGUS_ID)
  {
  }

  /** The handle just given to `f` is the one `d` already has. */
  ghost predicate NamesOther(ifs: seq<Iface>, f: Flow, k: Answers, d: Claim) {
    var p := AddFlow(ifs, f, k);
    var f' := f.(handle := AddHandle(f, p));
    && f'.handle == FlowOf(d).handle && d.ifId == f.ifId && d.kind == f.kind && d.ip == f.dstIp
    && forall freed :: DelFlow(p.elem, f', freed) == DelFlow(p.elem, FlowOf(d), freed)
  }

  // ---------- egress flows ----------

  /** An egress flow is never added to the table, but deleting it lowers the count of its interface all
      the same, while every table of that interface stays as it was. The counts stay exact only if
      the interface is not there. */
  lemma EgressDeleteUndercounts(ifs: seq<Iface>, C: set<Claim>, f: Flow, freed: set<nat>)
    requires Inv(ifs, C) && AllLive(C) && Egress(f)
    ensures var i := IndexOfIface(ifs, f.ifId);
            var ifs' := DelFlow(ifs, f, freed);
            && (ExactRefs(ifs', C) <==> i == |ifs|)
            && (i < |ifs| ==>
                  && |ifs'| == |ifs| && ifs'[i].tables == ifs[i].tables
                  && ifs'[i].ref == |ByIface(C, f.ifId)| - 1)
  {
    RefsExact(ifs, C);
    if IndexOfIface(ifs, f.ifId) < |ifs| {
      EgressDelete(ifs, C, f, freed);
    }
  }

  lemma EgressDelete(ifs: seq<Iface>, C: set<Claim>, f: Flow, freed: set<nat>)
    requires Inv(ifs, C) && AllLive(C) && Egress(f) && IndexOfIface(ifs, f.ifId) < |ifs|
    ensures var i := IndexOfIface(ifs, f.ifId);
            var ifs' := DelFlow(ifs, f, freed);
            && |ifs'| == |ifs| && ifs'[i].tables == ifs[i].tables
            && ifs'[i].ref == |ByIface(C, f.ifId)| - 1
            && !ExactRefs(ifs', C)
  {
    hide IdsOk, KernelTablesOk, Ascending;
    RefsExact(ifs, C);
    var i := IndexOfIface(ifs, f.ifId);
    var D := On(C, AtIface, f.ifId);
    assert IfaceLive(ifs[i], D);
    assert ifs[i] in ifs;
    forall t | t in ifs[i].tables ensures t.kind != 0 {
      assert TableLive(t, On(D, AtTable, TableKey(t)));
    }
    var c :| c in D;
    assert HasKey(ifs[i].tables, TableKey, AtTable(c).value);
    assert DelFlow(ifs, f, freed)[i] in DelFlow(ifs, f, freed);
  }

  // ---------- what add_flow reports ----------

  /** Success is reported exactly when the kernel took the requests that were made, the filter excepted
      when the bucket is full: then none is made and success is reported all the same. */
  lemma AddRcIs(ifs: seq<Iface>, C: set<Claim>, f: Flow, k: Answers)
    requires Inv(ifs, C) && Ingress(f)
    ensures var e := Target(ifs, f);
            AddRc(AddFlow(ifs, f, k)) == 0 <==>
              && (IndexOfIface(ifs, f.ifId) < |ifs| || k.qdisc)
              && (IndexOfTable(e.tables, f.kind, f.dstIp) < |e.tables| || (k.divisor && k.link))
              && (k.filter || BucketFull(ifs, f))
  {
    hide IdsOk, KernelTablesOk, TableLive, AddToTable, GetHtid;
    var e := Target(ifs, f);
    var j := IndexOfTable(e.tables, f.kind, f.dstIp);
    var g := GetHtid(e.ctx, GetPrio(f));
    if j == |e.tables| {
      FullBucketInNewTable(f, g, k);
      AddTableDepth(NewTable(f, g), f, g.ht, k);
      AddTableReaches(NewTable(f, g), f, g.ht, k);
    } else {
      var D := On(C, AtIface, f.ifId);
      assert IfaceLive(e, D);
      ListElement(e.tables, D, j);
      FullBucketInTable(e.tables[j], On(D, AtTable, (f.kind, f.dstIp)), f, k);
      AddTableDepth(e.tables[j], f, e.tables[j].ht, k);
    }
  }

  lemma AddTableReaches(t: Table, f: Flow, ht: int, k: Answers)
    ensures AddToTable(t, f, ht, k).depth >= 3
  {
  }

  /** The handle written back: once the bucket is reached its middle byte is the low byte of the port, and
      a flow refused at once keeps the handle it had. */
  lemma HandleWritten(ifs: seq<Iface>, f: Flow, k: Answers)
    ensures var p := AddFlow(ifs, f, k);
            && (p.depth >= 3 ==> AddHandle(f, p) / 0x1000 % 0x100 == f.dstPort % 0x100)
            && (p.depth == 0 && f.handle < 0x1_0000_0000 ==> AddHandle(f, p) == f.handle)
  {
    hide AddToIface, HandleSet, FindFirst;
    var p := AddFlow(ifs, f, k);
    HandleRoundTrip(p.ht, GetBkt(f), p.id);
    if p.depth == 0 && f.handle < 0x1_0000_0000 {
      FieldsOfHandle(f.handle);
      AddCounts(Target(ifs, f), f, k);
    }
  }
}

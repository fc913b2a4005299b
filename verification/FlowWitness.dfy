/**
 Runs that lead to the two states in which add_flow goes wrong: a bucket with all its ids in use, and
 an interface with all its table ids in use.
 */
module FlowWitness {
  import opened Bitmap
  import opened NodeIds
  import opened FlowTable
  import opened FlowInvariant
  import opened FlowRuns
  import Words

  predicate Willing(k: Answers) {
    k.qdisc && k.divisor && k.link && k.filter && k.freed == {}
  }

  // ---------- one flow again and again ----------

  function Again(s: Step, n: nat): seq<Step> {
    if n == 0 then [] else [s] + Again(s, n - 1)
  }

  ghost predicate HasIds(nodes: seq<Node>, n: nat) {
    |nodes| == n && forall i | 0 <= i < n :: nodes[i].id == i + 1
  }

  /** The bucket of `f` holds the ids 1 to n. */
  ghost predicate Holding(ifs: seq<Iface>, f: Flow, n: nat) {
    if n == 0 then ifs == []
    else
      && |ifs| == 1 && ifs[0].ifId == f.ifId && |ifs[0].tables| == 1 && ifs[0].ctx.pending == []
      && var t := ifs[0].tables[0];
      && t.kind == f.kind && t.ip == f.dstIp && |t.buckets| == 1
      && t.buckets[0].bkt == GetBkt(f) && HasIds(t.buckets[0].nodes, n)
  }

  lemma NextNode(b: Bucket, ht: int, k: Answers, n: nat)
    requires HasIds(b.nodes, n) && n < MAX_ID && k.filter
    ensures AddToBucket(b, ht, k).depth == 4 && HasIds(AddToBucket(b, ht, k).elem.nodes, n + 1)
  {
  }

  lemma HoldFirst(f: Flow, k: Answers)
    requires Willing(k) && Ingress(f)
    ensures Holding(AddFlow([], f, k).elem, f, 1) && !OutOfIds(Target([], f), f)
  {
    assert !Bit(NewIface(f.ifId).ctx.ht, 1);
    NextNode(Bucket(GetBkt(f), 0, []), GetHtid(NewIface(f.ifId).ctx, GetPrio(f)).ht, k, 0);
    hide HasIds, AddToBucket;
  }

  lemma HoldMore(ifs: seq<Iface>, f: Flow, k: Answers, n: nat)
    requires Holding(ifs, f, n) && 0 < n < MAX_ID && Willing(k) && Ingress(f)
    ensures Holding(AddFlow(ifs, f, k).elem, f, n + 1) && !OutOfIds(Target(ifs, f), f)
  {
    var t := ifs[0].tables[0];
    NextNode(t.buckets[0], t.ht, k, n);
    hide HasIds, AddToBucket;
    assert IndexOfTable(ifs[0].tables, f.kind, f.dstIp) == 0 && IndexOfBucket(t.buckets, GetBkt(f)) == 0;
  }

  lemma HoldNone(ifs: seq<Iface>, f: Flow)
    requires Holding(ifs, f, 0)
    ensures ifs == []
  {
  }

  lemma {:induction false} HoldAll(w: World, f: Flow, k: Answers, m: nat, n: nat)
    requires Holding(w.ifs, f, m) && m + n <= MAX_ID && Willing(k) && Ingress(f)
    ensures AllowedRun(w, Again(Add(f, k), n)) && Holding(Run(w, Again(Add(f, k), n)).ifs, f, m + n)
    decreases n
  {
    hide Holding, AddFlow, OutOfIds;
    if n > 0 {
      var steps := Again(Add(f, k), n);
      assert steps[0] == Add(f, k) && steps[1..] == Again(Add(f, k), n - 1);
      if m == 0 { HoldNone(w.ifs, f); HoldFirst(f, k); } else { HoldMore(w.ifs, f, k, m); }
      HoldAll(Exec(w, steps[0]), f, k, m + 1, n - 1);
    }
  }

  /** Adding one flow 0xFFE times fills its bucket. */
  lemma FullBucketReached(f: Flow, k: Answers)
    requires Willing(k) && Ingress(f)
    ensures var steps := Again(Add(f, k), MAX_ID);
            AllowedRun(START, steps) && BucketFull(Run(START, steps).ifs, f)
  {
    HoldAll(START, f, k, 0, MAX_ID);
    hide Run, AllowedRun, Again;
  }

  lemma FullNode(b: Bucket, ht: int, k: Answers)
    requires HasIds(b.nodes, MAX_ID)
    ensures AddToBucket(b, ht, k).depth == 3 && AddToBucket(b, ht, k).id <= 0
  {
  }

  lemma FullAnswers(ifs: seq<Iface>, f: Flow, k: Answers)
    requires Holding(ifs, f, MAX_ID)
    ensures Ingress(f) ==> AddRc(AddFlow(ifs, f, k)) == 0
  {
    var t := ifs[0].tables[0];
    FullNode(t.buckets[0], t.ht, k);
    hide HasIds, AddToBucket;
    assert IndexOfTable(ifs[0].tables, f.kind, f.dstIp) == 0 && IndexOfBucket(t.buckets, GetBkt(f)) == 0;
  }

  /** What is true then. */
  lemma FullRun(f: Flow, k: Answers)
    requires Willing(k) && Ingress(f)
    ensures var w := Run(START, Again(Add(f, k), MAX_ID));
            Inv(w.ifs, w.claims) && BucketFull(w.ifs, f) && AddRc(AddFlow(w.ifs, f, k)) == 0
  {
    hide Run, AllowedRun, Again, Inv, AddFlow, BucketFull;
    FullBucketReached(f, k);
    StartHolds(f);
    HoldAll(START, f, k, 0, MAX_ID);
    StartOk();
    RunKeepsWorld(START, Again(Add(f, k), MAX_ID));
    hide Holding;
    FullAnswers(Run(START, Again(Add(f, k), MAX_ID)).ifs, f, k);
  }

  lemma StartHolds(f: Flow)
    ensures Holding(START.ifs, f, 0)
  {
  }

  /** Added once more, the flow is reported as added and given the handle of one of the live ones. */
  lemma HandleGivenTwice(f: Flow, k: Answers)
    requires Willing(k) && Ingress(f)
    ensures var w := Run(START, Again(Add(f, k), MAX_ID));
            AddRc(AddFlow(w.ifs, f, k)) == 0 && exists d :: d in w.claims && Live(d) && NamesOther(w.ifs, f, k, d)
  {
    hide Run, Again, NamesOther, Inv, AddFlow, BucketFull;
    FullRun(f, k);
    var w := Run(START, Again(Add(f, k), MAX_ID));
    SuccessNamesOwnNode(w.ifs, w.claims, f, k);
  }

  // ---------- one address after the other ----------

  function Elsewhere(f: Flow, ip: nat): Flow {
    f.(dstIp := ip)
  }

  /** Adds for the addresses m, m + 1, ..., n - 1. */
  function Addresses(f: Flow, k: Answers, m: nat, n: nat): seq<Step>
    decreases n - m
  {
    if m >= n then [] else [Add(Elsewhere(f, m), k)] + Addresses(f, k, m + 1, n)
  }

  /** Exactly the ids up to n are taken. */
  ghost predicate TakenTo(ctx: Ctx, n: nat) {
    && |ctx.ht| * Words.WIDTH == MAP_BITS && ctx.pending == []
    && forall b: nat | b < MAP_BITS :: Bit(ctx.ht, b) <==> b <= n
  }

  ghost predicate TablesTo(tables: seq<Table>, f: Flow, n: nat) {
    |tables| == n && forall i | 0 <= i < n :: tables[i].kind == f.kind && tables[i].ip == i
  }

  /** There are tables for the addresses below n, and the ids up to n are taken. */
  ghost predicate Tabled(ifs: seq<Iface>, f: Flow, n: nat) {
    if n == 0 then ifs == []
    else |ifs| == 1 && ifs[0].ifId == f.ifId && TablesTo(ifs[0].tables, f, n) && TakenTo(ifs[0].ctx, n)
  }

  lemma NextId(ctx: Ctx, n: nat, prio: int)
    requires TakenTo(ctx, n) && n + 1 < MAP_BITS
    ensures FirstZero(ctx.ht) == n + 1 && TakenTo(GetHtid(ctx, prio).ctx, n + 1) && GetHtid(ctx, prio).ht == n + 1
  {
    assert !Bit(ctx.ht, n + 1);
  }

  lemma NewIfaceTaken(ifId: nat)
    ensures TakenTo(NewIface(ifId).ctx, 0) && NewIface(ifId).tables == []
  {
  }

  lemma NoTableYet(tables: seq<Table>, f: Flow, n: nat)
    requires TablesTo(tables, f, n)
    ensures IndexOfTable(tables, f.kind, n) == n
  {
  }

  lemma TableMore(e: Iface, f: Flow, k: Answers, n: nat)
    requires e.ifId == f.ifId && TablesTo(e.tables, f, n) && TakenTo(e.ctx, n) && n + 1 < MAP_BITS && Willing(k)
    ensures var g := Elsewhere(f, n);
            var p := AddToIface(e, g, k);
            !OutOfIds(e, g) && p.elem.ifId == f.ifId && TablesTo(p.elem.tables, f, n + 1) && TakenTo(p.elem.ctx, n + 1)
  {
    NextId(e.ctx, n, GetPrio(f));
    NoTableYet(e.tables, f, n);
    hide TakenTo, GetHtid, AddToTable, FindFirst;
    var g := GetHtid(e.ctx, GetPrio(f));
    SamePending(g.ctx, k.freed, n + 1);
  }

  lemma SamePending(ctx: Ctx, freed: set<nat>, n: nat)
    requires TakenTo(ctx, n)
    ensures FreePending(ctx, freed) == ctx
  {
  }

  lemma {:induction false} TableAll(w: World, f: Flow, k: Answers, m: nat, n: nat)
    requires Tabled(w.ifs, f, m) && m <= n < MAP_BITS && Willing(k) && Ingress(f)
    ensures AllowedRun(w, Addresses(f, k, m, n)) && Tabled(Run(w, Addresses(f, k, m, n)).ifs, f, n)
    decreases n - m
  {
    if m < n {
      var steps, g := Addresses(f, k, m, n), Elsewhere(f, m);
      assert steps[0] == Add(g, k) && steps[1..] == Addresses(f, k, m + 1, n);
      NewIfaceTaken(f.ifId);
      TableMore(Target(w.ifs, g), f, k, m);
      hide TakenTo, TablesTo, AddToIface, OutOfIds, NewIface;
      TableAll(Exec(w, steps[0]), f, k, m + 1, n);
    }
  }

  /** Adding flows to 2047 addresses leaves no table id for another one. */
  lemma NoIdReached(f: Flow, k: Answers)
    requires Willing(k) && Ingress(f)
    ensures var steps := Addresses(f, k, 0, MAP_BITS - 1);
            && AllowedRun(START, steps)
            && var g := Elsewhere(f, MAP_BITS - 1); OutOfIds(Target(Run(START, steps).ifs, g), g)
  {
    TableAll(START, f, k, 0, MAP_BITS - 1);
    var ifs := Run(START, Addresses(f, k, 0, MAP_BITS - 1)).ifs;
    hide Run, AllowedRun, Addresses;
    NoTableYet(ifs[0].tables, f, MAP_BITS - 1);
    assert IndexOfIface(ifs, f.ifId) == 0;
  }
}

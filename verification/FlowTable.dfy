/**
 The daemon's table of traffic-control flows (tools/daemon/flow.c): interfaces hold hash tables,
 tables hold buckets, buckets hold nodes; every element carries a reference count.

 The functions say what add_flow and del_flow make of a whole table, exit by exit. The elements that
 the C code updates in place, and its loops, are in FlowDaemon.

 The kernel is a parameter: `Answers` tells which of its tc requests succeed. Memory allocation is
 taken to succeed.
 */
module FlowTable {
  import opened Words
  import opened Bitmap
  import opened NodeIds

  const EFAULT := 14
  const PRIO_SLOTS := 4

  /** A flow as the daemon stores it. The port is in host order; `handle` is set by add_flow. */
  datatype Flow = Flow(ifId: nat, kind: int, dstIp: nat, dstPort: nat, handle: nat)

  datatype Bucket = Bucket(bkt: nat, ref: int, nodes: seq<Node>)

  /** `krn` and `ht` are the two 16-bit halves of the element's ht_id. */
  datatype Table = Table(kind: int, ip: nat, ref: int, krn: nat, ht: nat, buckets: seq<Bucket>)

  /** A table the kernel would not delete yet. */
  datatype Pending = Pending(htid: nat, prio: int)

  /** Which kernel table (0x800 + id) serves a priority; prio 0 marks an unused slot. */
  datatype PrioSlot = PrioSlot(prio: int, id: int)

  datatype Ctx = Ctx(ht: seq<Word>, pending: seq<Pending>, prios: seq<PrioSlot>)

  datatype Iface = Iface(ifId: nat, ref: int, ctx: Ctx, tables: seq<Table>)

  /** The kernel's answers during one call: to adding the qdisc, the table divisor, the table link
      and the redirect filter; the table ids whose deletion it accepts; and the outcome of setting
      up the egress rules of a tap device, which never touch the table. */
  datatype Answers = Answers(
    qdisc: bool, divisor: bool, link: bool, filter: bool, freed: set<nat>, egressRc: int)

  predicate Egress(f: Flow) {
    f.kind == 0
  }

  /** UDP and TCP, with 3 and 5 tuples. */
  predicate Ingress(f: Flow) {
    1 <= f.kind <= 4
  }

  function GetPrio(f: Flow): int {
    f.kind
  }

  function GetBkt(f: Flow): nat {
    f.dstPort % 0x100
  }

  // ---------- searching and removing ----------

  function FindFirst<T>(s: seq<T>, p: T -> bool): (i: nat)
    ensures i <= |s|
    ensures i < |s| ==> p(s[i])
    ensures forall j | 0 <= j < i :: !p(s[j])
  {
    if s == [] || p(s[0]) then 0 else 1 + FindFirst(s[1..], p)
  }

  lemma FirstIs<T>(s: seq<T>, p: T -> bool, i: nat)
    requires i <= |s| && (i < |s| ==> p(s[i])) && forall j | 0 <= j < i :: !p(s[j])
    ensures FindFirst(s, p) == i
  {
  }

  function IsIface(ifId: nat): Iface -> bool {
    (e: Iface) => e.ifId == ifId
  }

  function IsTable(kind: int, ip: nat): Table -> bool {
    (t: Table) => t.kind == kind && t.ip == ip
  }

  function IsBucket(bkt: nat): Bucket -> bool {
    (b: Bucket) => b.bkt == bkt
  }

  function IsNode(id: nat): Node -> bool {
    (n: Node) => n.id == id
  }

  function IndexOfIface(ifs: seq<Iface>, ifId: nat): nat {
    FindFirst(ifs, IsIface(ifId))
  }

  function IndexOfTable(tables: seq<Table>, kind: int, ip: nat): nat {
    FindFirst(tables, IsTable(kind, ip))
  }

  function IndexOfBucket(buckets: seq<Bucket>, bkt: nat): nat {
    FindFirst(buckets, IsBucket(bkt))
  }

  function IndexOfNode(nodes: seq<Node>, id: nat): nat {
    FindFirst(nodes, IsNode(id))
  }

  function RemoveAt<T>(s: seq<T>, i: nat): seq<T>
    requires i < |s|
  {
    s[..i] + s[i + 1..]
  }

  // ---------- table ids and kernel tables ----------

  /** Last unused slot among the first `n`, or -1. */
  function FreeSlot(prios: seq<PrioSlot>, n: nat): (i: int)
    requires n <= |prios|
    ensures -1 <= i < n
    ensures i >= 0 ==> prios[i].prio == 0
    ensures i == -1 ==> forall j | 0 <= j < n :: prios[j].prio != 0
  {
    if n == 0 then -1 else if prios[n - 1].prio == 0 then n - 1 else FreeSlot(prios, n - 1)
  }

  /** Largest id among the used slots of the first `n`, or -1. */
  function MaxSlotId(prios: seq<PrioSlot>, n: nat): (m: int)
    requires n <= |prios|
    ensures m >= -1
    ensures forall j | 0 <= j < n && prios[j].prio != 0 :: prios[j].id <= m
  {
    if n == 0 then -1
    else
      var m := MaxSlotId(prios, n - 1);
      if prios[n - 1].prio != 0 && m < prios[n - 1].id then prios[n - 1].id else m
  }

  function IndexOfPrio(prios: seq<PrioSlot>, prio: int): nat {
    FindFirst(prios, (s: PrioSlot) => s.prio == prio)
  }

  /** The kernel table of a priority, recorded in a free slot on first use; 0 when there is none. */
  function KernelTable(prios: seq<PrioSlot>, prio: int): (seq<PrioSlot>, int) {
    var i := IndexOfPrio(prios, prio);
    var free := FreeSlot(prios, |prios|);
    if i < |prios| then (prios, KERNEL_HT + prios[i].id)
    else if free >= 0 then
      var id := MaxSlotId(prios, |prios|) + 1;
      (prios[free := PrioSlot(prio, id)], KERNEL_HT + id)
    else (prios, 0)
  }

  datatype Htid = Htid(ctx: Ctx, krn: int, ht: int)

  /** get_htid: a kernel table for the priority and the lowest unused table id (-1 when exhausted). */
  function GetHtid(ctx: Ctx, prio: int): Htid {
    var (prios, krn) := KernelTable(ctx.prios, prio);
    var ht := FirstZero(ctx.ht);
    Htid(ctx.(prios := prios, ht := if ht >= 0 then SetBit(ctx.ht, ht) else ctx.ht), krn, ht)
  }

  /** An id outside the map cannot come from it; the C code would write past the array. */
  function FreeHtid(words: seq<Word>, id: nat): seq<Word> {
    if id < WIDTH * |words| then ClearBit(words, id) else words
  }

  /** free_pending_list: ids the kernel now lets go leave the list and become available. */
  function FreePending(ctx: Ctx, freed: set<nat>): Ctx
    decreases |ctx.pending|
  {
    if ctx.pending == [] then ctx
    else
      var p := ctx.pending[0];
      var rest := FreePending(ctx.(pending := ctx.pending[1..]), freed);
      if p.htid in freed then rest.(ht := FreeHtid(rest.ht, p.htid))
      else rest.(pending := [p] + rest.pending)
  }

  // ---------- add_flow ----------

  /** How far an add got: 0 nothing, 1 the interface, 3 the bucket, 4 its own node. (Depth 2 would
      take a negative bucket number, which the mask in get_bkt rules out.) */
  datatype Placed<T> = Placed(elem: T, depth: nat, ht: int, id: int)

  function AddToBucket(b: Bucket, ht: int, k: Answers): (p: Placed<Bucket>)
    ensures p.ht == ht && (p.depth == 3 || p.depth == 4)
    ensures p.elem.bkt == b.bkt && p.elem.ref == b.ref + 1
  {
    var s := SlotFor(b.nodes);
    var b' := b.(ref := b.ref + 1);
    if s.id <= 0 || !k.filter then Placed(b', 3, ht, s.id)
    else Placed(b'.(nodes := Insert(b.nodes, s)), 4, ht, s.id)
  }

  function AddToTable(t: Table, f: Flow, ht: int, k: Answers): (p: Placed<Table>)
    ensures p.ht == ht && (p.depth == 3 || p.depth == 4)
    ensures p.elem == t.(ref := t.ref + 1, buckets := p.elem.buckets)
  {
    var j := IndexOfBucket(t.buckets, GetBkt(f));
    var p := AddToBucket(if j < |t.buckets| then t.buckets[j] else Bucket(GetBkt(f), 0, []), ht, k);
    var buckets := if j < |t.buckets| then t.buckets[j := p.elem] else t.buckets + [p.elem];
    Placed(t.(ref := t.ref + 1, buckets := buckets), p.depth, ht, p.id)
  }

  lemma AddTableIs(t: Table, f: Flow, ht: int, k: Answers)
    ensures var j := IndexOfBucket(t.buckets, GetBkt(f));
            var p := AddToBucket(if j < |t.buckets| then t.buckets[j] else Bucket(GetBkt(f), 0, []), ht, k);
            var buckets := if j < |t.buckets| then t.buckets[j := p.elem] else t.buckets + [p.elem];
            AddToTable(t, f, ht, k) == Placed(t.(ref := t.ref + 1, buckets := buckets), p.depth, ht, p.id)
  {
  }

  function NewTable(f: Flow, g: Htid): Table {
    Table(f.kind, f.dstIp, 0, g.krn % 0x1_0000, g.ht % 0x1_0000, [])
  }

  function AddToIface(e: Iface, f: Flow, k: Answers): Placed<Iface> {
    var e' := e.(ref := e.ref + 1);
    var j := IndexOfTable(e.tables, f.kind, f.dstIp);
    if j < |e.tables| then
      var p := AddToTable(e.tables[j], f, e.tables[j].ht, k);
      Placed(Settle(e'.(tables := e.tables[j := p.elem]), p.depth, k), p.depth, p.ht, p.id)
    else
      var g := GetHtid(e.ctx, GetPrio(f));
      var e'' := e'.(ctx := g.ctx);
      if !k.divisor || !k.link then Placed(e'', 1, g.ht, HandleId(f.handle))
      else
        var p := AddToTable(NewTable(f, g), f, g.ht, k);
        Placed(Settle(e''.(tables := e.tables + [p.elem]), p.depth, k), p.depth, p.ht, p.id)
  }

  /** The pending list is retried at the end of an add that went all the way. */
  function Settle(e: Iface, depth: nat, k: Answers): Iface {
    if depth == 4 then e.(ctx := FreePending(e.ctx, k.freed)) else e
  }

  /** A new interface: only table id 0, which is not used, is taken. */
  function NewIface(ifId: nat): Iface {
    var words := seq(ArraySize(KERNEL_HT - 1), _ => ZERO);
    Iface(ifId, 0, Ctx(SetBit(words, 0), [], seq(PRIO_SLOTS, _ => PrioSlot(0, 0))), [])
  }

  function AddFlow(ifs: seq<Iface>, f: Flow, k: Answers): Placed<seq<Iface>> {
    var i := IndexOfIface(ifs, f.ifId);
    if Egress(f) || (i == |ifs| && !k.qdisc) then
      Placed(ifs, 0, HandleHt(f.handle), HandleId(f.handle))
    else
      var p := AddToIface(if i < |ifs| then ifs[i] else NewIface(f.ifId), f, k);
      Placed(if i < |ifs| then ifs[i := p.elem] else ifs + [p.elem], p.depth, p.ht, p.id)
  }

  /** The return code. A bucket without a free id is reported as success. */
  function AddRc(p: Placed<seq<Iface>>): int {
    if p.depth == 4 || (p.depth == 3 && p.id <= 0) then 0 else -EFAULT
  }

  /** The handle written back; before the bucket is reached it keeps the caller's bucket bits. */
  function AddHandle(f: Flow, p: Placed<seq<Iface>>): nat {
    HandleSet(p.ht, if p.depth >= 3 then GetBkt(f) else HandleBkt(f.handle), p.id)
  }

  // ---------- del_flow ----------

  function DelFromBucket(b: Bucket, id: nat): (r: Bucket)
    ensures r.bkt == b.bkt && r.ref == b.ref - 1
  {
    var n := IndexOfNode(b.nodes, id);
    var b' := b.(ref := b.ref - 1);
    if n == |b.nodes| then b'
    else
      var node := b.nodes[n].(ref := b.nodes[n].ref - 1);
      b'.(nodes := if node.ref <= 0 then RemoveAt(b.nodes, n) else b.nodes[n := node])
  }

  function DelFromTable(t: Table, bkt: nat, id: nat): (r: Table)
    ensures r == t.(ref := t.ref - 1, buckets := r.buckets)
  {
    var j := IndexOfBucket(t.buckets, bkt);
    var t' := t.(ref := t.ref - 1);
    if j == |t.buckets| then t'
    else
      var b := DelFromBucket(t.buckets[j], id);
      t'.(buckets := if b.nodes == [] && b.ref <= 0 then RemoveAt(t.buckets, j) else t.buckets[j := b])
  }

  function DelFromIface(e: Iface, f: Flow): Iface {
    var j := IndexOfTable(e.tables, f.kind, f.dstIp);
    var e' := e.(ref := e.ref - 1);
    if j == |e.tables| then e'
    else
      var t := DelFromTable(e.tables[j], HandleBkt(f.handle), HandleId(f.handle));
      if t.buckets == [] && t.ref <= 0 then
        e'.(tables := RemoveAt(e.tables, j),
            ctx := e.ctx.(pending := [Pending(t.ht, GetPrio(f))] + e.ctx.pending))
      else e'.(tables := e.tables[j := t])
  }

  /** The kernel's answers to deleting a redirect filter, a table link and the qdisc. */
  datatype DelAnswers = DelAnswers(filter: bool, table: bool, qdisc: bool)

  predicate NodeGoes(b: Bucket, id: nat) {
    var n := IndexOfNode(b.nodes, id);
    n < |b.nodes| && b.nodes[n].ref <= 1
  }

  predicate NodeGoesIn(t: Table, bkt: nat, id: nat) {
    var j := IndexOfBucket(t.buckets, bkt);
    j < |t.buckets| && NodeGoes(t.buckets[j], id)
  }

  predicate TableUnused(t: Table) {
    t.buckets == [] && t.ref <= 0
  }

  /** A request made while deleting from an interface is refused. */
  predicate RefusedIn(e: Iface, f: Flow, a: DelAnswers) {
    var j := IndexOfTable(e.tables, f.kind, f.dstIp);
    var bkt, id := HandleBkt(f.handle), HandleId(f.handle);
    j < |e.tables| &&
    ((NodeGoesIn(e.tables[j], bkt, id) && !a.filter) || (TableUnused(DelFromTable(e.tables[j], bkt, id)) && !a.table))
  }

  /** The return code of del_flow. */
  function DelRc(ifs: seq<Iface>, f: Flow, a: DelAnswers): int {
    var i := IndexOfIface(ifs, f.ifId);
    if i == |ifs| then 0
    else
      var e := DelFromIface(ifs[i], f);
      if RefusedIn(ifs[i], f, a) || (e.tables == [] && e.ref <= 0 && !a.qdisc) then -EFAULT else 0
  }

  /** When the interface itself goes, its context goes with it and nothing is left to retry. */
  function DelFlow(ifs: seq<Iface>, f: Flow, freed: set<nat>): seq<Iface> {
    var i := IndexOfIface(ifs, f.ifId);
    if i == |ifs| then ifs
    else
      var e := DelFromIface(ifs[i], f);
      if e.tables == [] && e.ref <= 0 then RemoveAt(ifs, i)
      else ifs[i := e.(ctx := FreePending(e.ctx, freed))]
  }
}

/**
 Handles of traffic-control filters (tools/daemon/tc.h) and the allocation of node ids within one
 hash bucket (get_node in tools/daemon/flow.c).
 */
module NodeIds {

  const KERNEL_HT := 0x800
  const MAX_ID := 0xFFE
  const EINVAL := 22

  // ---------- 32-bit handles: 12 bits of table, 8 of bucket, 12 of node ----------

  /** Arguments are C ints: a negative one is first converted to an unsigned 32-bit value, of which
      only the low bits survive the mask. */
  function HandleSet(ht: int, bkt: int, id: int): (h: nat)
    ensures h < 0x1_0000_0000
  {
    (ht % 0x1000) * 0x10_0000 + (bkt % 0x100) * 0x1000 + id % 0x1000
  }

  function HandleHt(h: nat): nat {
    h / 0x10_0000 % 0x1000
  }

  function HandleBkt(h: nat): nat {
    h / 0x1000 % 0x100
  }

  function HandleId(h: nat): nat {
    h % 0x1000
  }

  /** Packing keeps exactly the low 12, 8 and 12 bits of its three fields. */
  lemma HandleRoundTrip(ht: int, bkt: int, id: int)
    ensures HandleHt(HandleSet(ht, bkt, id)) == ht % 0x1000
    ensures HandleBkt(HandleSet(ht, bkt, id)) == bkt % 0x100
    ensures HandleId(HandleSet(ht, bkt, id)) == id % 0x1000
  {
    var a, b, c := ht % 0x1000, bkt % 0x100, id % 0x1000;
    var h := HandleSet(ht, bkt, id);
    assert h == (a * 0x100 + b) * 0x1000 + c;
    assert h / 0x1000 == a * 0x100 + b;
    assert h / 0x10_0000 == a;
  }

  // ---------- node ids of one bucket ----------

  datatype Node = Node(id: nat, ref: int)

  predicate Ascending(nodes: seq<Node>) {
    && (forall i | 0 <= i < |nodes| :: 1 <= nodes[i].id <= MAX_ID)
    && (forall i, j | 0 <= i < j < |nodes| :: nodes[i].id < nodes[j].id)
  }

  predicate InUse(nodes: seq<Node>, id: int) {
    exists i :: 0 <= i < |nodes| && nodes[i].id == id
  }

  /** Where a new node goes: its id (or -EINVAL) and its position in the list. */
  datatype Slot = Slot(id: int, pos: nat)

  /** First position at or after `i` whose id is larger than its rank. */
  function GapFrom(nodes: seq<Node>, i: nat): (p: nat)
    requires i <= |nodes|
    ensures i <= p <= |nodes|
    ensures forall j | i <= j < p :: nodes[j].id <= j + 1
    ensures p < |nodes| ==> nodes[p].id > p + 1
    decreases |nodes| - i
  {
    if i == |nodes| || nodes[i].id > i + 1 then i else GapFrom(nodes, i + 1)
  }

  function SlotFor(nodes: seq<Node>): (s: Slot)
    ensures s.pos <= |nodes|
  {
    if nodes == [] then Slot(1, 0)
    else if nodes[|nodes| - 1].id < MAX_ID then Slot(nodes[|nodes| - 1].id + 1, |nodes|)
    else
      var p := GapFrom(nodes, 0);
      Slot(if p + 1 > MAX_ID then -EINVAL else p + 1, p)
  }

  function Insert(nodes: seq<Node>, s: Slot): seq<Node>
    requires s.pos <= |nodes| && s.id >= 0
  {
    nodes[..s.pos] + [Node(s.id, 1)] + nodes[s.pos..]
  }

  /** In an ascending list ids lie between their rank and their rank counted from the top. */
  lemma RankBounds(nodes: seq<Node>, i: nat)
    requires Ascending(nodes) && i < |nodes|
    ensures i + 1 <= nodes[i].id <= MAX_ID - (|nodes| - 1 - i)
  {
    RankBelow(nodes, i);
    RankAbove(nodes, i);
  }

  lemma {:induction false} RankBelow(nodes: seq<Node>, i: nat)
    requires Ascending(nodes) && i < |nodes|
    ensures i + 1 <= nodes[i].id
  {
    if i > 0 {
      RankBelow(nodes, i - 1);
    }
  }

  lemma {:induction false} RankAbove(nodes: seq<Node>, i: nat)
    requires Ascending(nodes) && i < |nodes|
    ensures nodes[i].id <= MAX_ID - (|nodes| - 1 - i)
    decreases |nodes| - i
  {
    if i + 1 < |nodes| {
      RankAbove(nodes, i + 1);
    }
  }

  /** get_node fails exactly when all MAX_ID ids are taken; otherwise the id it picks is unused and
      inserting it where told keeps the list strictly ascending. */
  lemma SlotForIsFresh(nodes: seq<Node>)
    requires Ascending(nodes)
    ensures SlotFor(nodes).id <= 0 <==> |nodes| == MAX_ID
    ensures SlotFor(nodes).id <= 0 <==> forall id | 1 <= id <= MAX_ID :: InUse(nodes, id)
    ensures SlotFor(nodes).id <= 0 ==> SlotFor(nodes).id == -EINVAL
    ensures var s := SlotFor(nodes);
            s.id > 0 ==> s.id <= MAX_ID && !InUse(nodes, s.id) && Ascending(Insert(nodes, s))
  {
    var s := SlotFor(nodes);
    if nodes != [] {
      RankBounds(nodes, 0);
      RankBounds(nodes, |nodes| - 1);
    }
    if |nodes| == MAX_ID {
      forall i | 0 <= i < |nodes| ensures nodes[i].id == i + 1 { RankBounds(nodes, i); }
      forall id | 1 <= id <= MAX_ID ensures InUse(nodes, id) { assert nodes[id - 1].id == id; }
    } else if nodes != [] && nodes[|nodes| - 1].id == MAX_ID {
      forall i | 0 <= i < s.pos ensures nodes[i].id == i + 1 { RankBounds(nodes, i); }
      assert s.id == s.pos + 1 && s.pos < |nodes|;
    }
    if s.id > 0 {
      InsertKeepsAscending(nodes, s);
    }
  }

  /** An id between its neighbours in the list is unused and may go between them. */
  lemma InsertKeepsAscending(nodes: seq<Node>, s: Slot)
    requires Ascending(nodes) && s.pos <= |nodes| && 1 <= s.id <= MAX_ID
    requires s.pos > 0 ==> nodes[s.pos - 1].id < s.id
    requires s.pos < |nodes| ==> s.id < nodes[s.pos].id
    ensures !InUse(nodes, s.id) && Ascending(Insert(nodes, s))
  {
    var nodes' := Insert(nodes, s);
    forall i | 0 <= i < |nodes| ensures if i < s.pos then nodes[i].id < s.id else s.id < nodes[i].id {
    }
    forall i, j | 0 <= i < j < |nodes'| ensures nodes'[i].id < nodes'[j].id {
      assert i != s.pos ==> nodes'[i] == nodes[if i < s.pos then i else i - 1];
      assert j != s.pos ==> nodes'[j] == nodes[if j < s.pos then j else j - 1];
    }
  }

  /** Removing a node keeps the list ascending. */
  lemma RemoveKeepsAscending(nodes: seq<Node>, i: nat)
    requires Ascending(nodes) && i < |nodes|
    ensures Ascending(nodes[..i] + nodes[i + 1..])
    ensures forall id :: InUse(nodes[..i] + nodes[i + 1..], id) <==> InUse(nodes, id) && id != nodes[i].id
  {
    var rest := nodes[..i] + nodes[i + 1..];
    forall id | InUse(nodes, id) && id != nodes[i].id ensures InUse(rest, id) {
      var j :| 0 <= j < |nodes| && nodes[j].id == id;
      assert rest[if j < i then j else j - 1] == nodes[j];
    }
  }

  /** Which id it is: as long as the largest id is not in use, the one after the largest in use; then the
      lowest that is not in use. */
  lemma SlotForIs(nodes: seq<Node>)
    requires Ascending(nodes) && SlotFor(nodes).id > 0
    ensures var id := SlotFor(nodes).id;
            if InUse(nodes, MAX_ID) then forall k | 1 <= k < id :: InUse(nodes, k)
            else (forall i | 0 <= i < |nodes| :: nodes[i].id < id) && (id == 1 || InUse(nodes, id - 1))
  {
    var s := SlotFor(nodes);
    SlotForIsFresh(nodes);
    if nodes != [] {
      var last := nodes[|nodes| - 1];
      assert last.id < MAX_ID ==> InUse(nodes, last.id);
      assert last.id == MAX_ID ==> InUse(nodes, MAX_ID);
      if last.id == MAX_ID {
        forall i | 0 <= i < s.pos ensures nodes[i].id == i + 1 { RankBounds(nodes, i); }
        forall k | 1 <= k < s.id ensures InUse(nodes, k) { assert nodes[k - 1].id == k; }
      }
    }
  }

  /** A handle is put together again from its fields. */
  lemma FieldsOfHandle(h: nat)
    requires h < 0x1_0000_0000
    ensures HandleSet(HandleHt(h), HandleBkt(h), HandleId(h)) == h
  {
    var q, id := h / 0x1000, h % 0x1000;
    var ht, bkt := q / 0x100, q % 0x100;
    assert h == ht * 0x10_0000 + bkt * 0x1000 + id && ht < 0x1000;
    TopField(h, ht, bkt * 0x1000 + id);
  }

  lemma TopField(h: nat, ht: nat, rest: nat)
    requires h == ht * 0x10_0000 + rest && rest < 0x10_0000
    ensures h / 0x10_0000 == ht
  {
  }
}

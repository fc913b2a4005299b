/**
 The daemon's interface list and the two calls that update it in place (tools/daemon/flow.c). Elements
 are objects, each with a reference count and a list of its children; every element carries the value
 of FlowTable it stands for, and every method changes that value as the function of FlowTable says.
 */
module FlowDaemon {
  import opened Words
  import opened Bitmap
  import opened NodeIds
  import opened Sequences
  import opened FlowTable

  // ---------- nodes and buckets ----------

  class NodeEl {
    const id: nat
    var ref: int

    constructor (id: nat)
      ensures this.id == id && ref == 0
    {
      this.id, ref := id, 0;
    }
  }

  class BucketEl {
    const bkt: nat
    var ref: int
    var list: seq<NodeEl>
    ghost var model: Bucket
    ghost var repr: set<object>

    ghost predicate Valid()
      reads this, repr
      ensures Valid() ==> this in repr
    {
      && this in repr && Distinct(list) && (forall n | n in list :: n in repr)
      && model.bkt == bkt && model.ref == ref && |model.nodes| == |list|
      && forall i | 0 <= i < |list| :: model.nodes[i] == Node(list[i].id, list[i].ref)
    }

    constructor (bkt: nat)
      ensures Valid() && fresh(repr) && model == Bucket(bkt, 0, []) && this.bkt == bkt
    {
      this.bkt, ref, list, model, repr := bkt, 0, [], Bucket(bkt, 0, []), {this};
    }

    /** get_node: the list is walked only when its last id is the largest possible one. */
    method GetNode() returns (id: int, pos: nat)
      requires Valid()
      ensures Slot(id, pos) == SlotFor(model.nodes)
    {
      id, pos := 1, |list|;
      if list != [] {
        if list[|list| - 1].id < MAX_ID {
          id := list[|list| - 1].id + 1;
        } else {
          id := 1;
          var i := 0;
          while i < |list|
            invariant 0 <= i <= |list| && id == i + 1 && pos == |list|
            invariant GapFrom(model.nodes, 0) == GapFrom(model.nodes, i)
          {
            if list[i].id > id {
              pos := i;
              break;
            }
            id, i := id + 1, i + 1;
          }
        }
      }
      if id <= 0 || id > MAX_ID {
        id := -EINVAL;
      }
    }

    /** The count goes up first and stays up when there is no id or the kernel refuses the filter. */
    method Add(ht: int, k: Answers) returns (depth: nat, id: int)
      requires Valid()
      modifies repr
      ensures Valid() && fresh(repr - old(repr))
      ensures Placed(model, depth, ht, id) == AddToBucket(old(model), ht, k)
    {
      var pos;
      id, pos := GetNode();
      ref, model := ref + 1, model.(ref := model.ref + 1);
      depth := 3;
      if id > 0 && k.filter {
        InsertNode(id, pos);
        depth := 4;
      }
    }

    /** A new node, in use once. */
    method InsertNode(id: nat, pos: nat)
      requires Valid() && pos <= |list|
      modifies this
      ensures Valid() && fresh(repr - old(repr))
      ensures model == old(model).(nodes := Insert(old(model).nodes, Slot(id, pos)))
    {
      var node := new NodeEl(id);
      node.ref := node.ref + 1;
      list := list[..pos] + [node] + list[pos..];
      repr := repr + {node};
      model := model.(nodes := Insert(model.nodes, Slot(id, pos)));
    }

    method Find(id: nat) returns (n: nat)
      requires Valid()
      ensures n == IndexOfNode(model.nodes, id)
    {
      n := 0;
      while n < |list| && list[n].id != id
        invariant 0 <= n <= |list| && forall i | 0 <= i < n :: list[i].id != id
      {
        n := n + 1;
      }
      FirstIs(model.nodes, IsNode(id), n);
    }

    /** Says whether the node goes. */
    method Del(id: nat) returns (gone: bool)
      requires Valid()
      modifies repr
      ensures Valid() && repr <= old(repr) && model == DelFromBucket(old(model), id)
      ensures gone == NodeGoes(old(model), id)
    {
      var n := Find(id);
      gone := false;
      if n < |list| {
        list[n].ref := list[n].ref - 1;
        if list[n].ref <= 0 {
          gone := true;
          list := list[..n] + list[n + 1..];
        }
      }
      ref := ref - 1;
      model := DelFromBucket(model, id);
    }
  }

  // ---------- tables ----------

  class TableEl {
    const kind: int
    const ip: nat
    const krn: nat
    const ht: nat
    var ref: int
    var list: seq<BucketEl>
    ghost var model: Table
    ghost var repr: set<object>

    ghost predicate Valid()
      reads this, repr
      ensures Valid() ==> this in repr
    {
      && this in repr
      && (forall b | b in list :: b in repr && b.repr <= repr && this !in b.repr && b.Valid())
      && (forall i, j | 0 <= i < j < |list| :: list[i].repr !! list[j].repr)
      && model == Table(kind, ip, ref, krn, ht, model.buckets) && |model.buckets| == |list|
      && forall i | 0 <= i < |list| :: model.buckets[i] == list[i].model
    }

    constructor (kind: int, ip: nat, krn: nat, ht: nat)
      ensures Valid() && fresh(repr) && model == Table(kind, ip, 0, krn, ht, []) && this.ht == ht
    {
      this.kind, this.ip, this.krn, this.ht, ref, list := kind, ip, krn, ht, 0, [];
      model, repr := Table(kind, ip, 0, krn, ht, []), {this};
    }

    /** One reference more or less. */
    method Count(delta: int)
      requires Valid()
      modifies `ref, `model
      ensures Valid() && model == old(model).(ref := old(model).ref + delta)
    {
      hide BucketEl.Valid;
      ref, model := ref + delta, model.(ref := model.ref + delta);
    }

    method Find(bkt: nat) returns (j: nat)
      requires Valid()
      ensures j == IndexOfBucket(model.buckets, bkt) && |list| == |model.buckets|
    {
      j := 0;
      while j < |list| && list[j].bkt != bkt
        invariant 0 <= j <= |list| && forall i | 0 <= i < j :: list[i].bkt != bkt
      {
        j := j + 1;
      }
      assert forall i | 0 <= i < |list| :: list[i] in list && model.buckets[i].bkt == list[i].bkt;
      FirstIs(model.buckets, IsBucket(bkt), j);
    }

    /** A bucket that is missing is created; counts go up on the way. */
    method Add(f: Flow, ht: int, k: Answers) returns (depth: nat, id: int)
      requires Valid()
      modifies repr
      ensures Valid() && fresh(repr - old(repr))
      ensures Placed(model, depth, ht, id) == AddToTable(old(model), f, ht, k)
    {
      hide FindFirst, AddToBucket, AddToTable, Valid;
      AddTableIs(model, f, ht, k);
      ghost var before := model;
      var j := FindOrCreate(GetBkt(f));
      Count(1);
      ghost var b := model.buckets[j];
      depth, id := AddAt(j, ht, k);
      AtEnd(before.buckets, b, AddToBucket(b, ht, k).elem);
    }

    method FindOrCreate(bkt: nat) returns (j: nat)
      requires Valid()
      modifies `list, `model, `repr
      ensures Valid() && fresh(repr - old(repr)) && old(repr) <= repr
      ensures j == IndexOfBucket(old(model).buckets, bkt) && j < |list| == |model.buckets|
      ensures model == if j < |old(model).buckets| then old(model)
                       else old(model).(buckets := old(model).buckets + [Bucket(bkt, 0, [])])
    {
      hide FindFirst, Valid;
      j := Find(bkt);
      if j == |list| {
        Create(bkt);
      }
    }

    /** An empty bucket at the end of the list. */
    method Create(bkt: nat)
      requires Valid()
      modifies `list, `model, `repr
      ensures Valid() && fresh(repr - old(repr)) && old(repr) <= repr
      ensures model == old(model).(buckets := old(model).buckets + [Bucket(bkt, 0, [])])
      ensures |list| == |old(list)| + 1
    {
      hide BucketEl.Valid;
      var b := new BucketEl(bkt);
      list := list + [b];
      repr := repr + b.repr;
      model := model.(buckets := model.buckets + [b.model]);
    }

    method AddAt(j: nat, ht: int, k: Answers) returns (depth: nat, id: int)
      requires Valid() && j < |list|
      modifies repr
      ensures Valid() && fresh(repr - old(repr)) && list == old(list) && ref == old(ref)
      ensures var p := AddToBucket(old(model).buckets[j], ht, k);
              model == old(model).(buckets := old(model).buckets[j := p.elem]) && depth == p.depth && id == p.id
    {
      hide BucketEl.Valid, AddToBucket;
      var b := list[j];
      assert b in list;
      depth, id := b.Add(ht, k);
      forall i | 0 <= i < |list| && i != j
        ensures list[i] != b && list[i].Valid() && list[i].model == old(list[i].model) &&
                list[i].repr == old(list[i].repr)
        ensures list[i].repr !! b.repr
      {
        assert list[i] in list && old(list[i].repr) !! old(b.repr);
      }
      repr := repr + b.repr;
      model := model.(buckets := model.buckets[j := b.model]);
    }

    method Del(bkt: nat, id: nat) returns (gone: bool)
      requires Valid()
      modifies repr
      ensures Valid() && repr <= old(repr) && model == DelFromTable(old(model), bkt, id)
      ensures gone == NodeGoesIn(old(model), bkt, id)
    {
      hide FindFirst, DelFromBucket, Valid, NodeGoes;
      var j := Find(bkt);
      gone := false;
      if j < |list| {
        gone := DelAt(j, id);
        if list[j].list == [] && list[j].ref <= 0 {
          Drop(j);
        }
      }
      Count(-1);
    }

    method DelAt(j: nat, id: nat) returns (gone: bool)
      requires Valid() && j < |list|
      modifies repr
      ensures Valid() && repr == old(repr) && list == old(list) && ref == old(ref)
      ensures j < |old(model).buckets| && gone == NodeGoes(old(model).buckets[j], id)
      ensures var b := DelFromBucket(old(model).buckets[j], id);
              && model == old(model).(buckets := old(model).buckets[j := b])
              && list[j].ref == b.ref && (list[j].list == [] <==> b.nodes == [])
    {
      hide DelFromBucket, NodeGoes;
      var b := list[j];
      assert b in list;
      gone := b.Del(id);
      assert (b.list == [] <==> b.model.nodes == []) && b.ref == b.model.ref;
      hide BucketEl.Valid;
      forall i | 0 <= i < |list| && i != j
        ensures list[i] != b && list[i].Valid() && list[i].model == old(list[i].model) &&
                list[i].repr == old(list[i].repr)
        ensures list[i].repr !! b.repr
      {
        assert list[i] in list && old(list[i].repr) !! old(b.repr);
      }
      model := model.(buckets := model.buckets[j := b.model]);
    }

    method Drop(j: nat)
      requires Valid() && j < |list|
      modifies `list, `model
      ensures Valid() && model == old(model).(buckets := RemoveAt(old(model).buckets, j))
    {
      hide BucketEl.Valid;
      list := list[..j] + list[j + 1..];
      model := model.(buckets := RemoveAt(model.buckets, j));
    }
  }

  // ---------- the context of an interface ----------

  lemma ClearCommutes(words: seq<Word>, a: nat, b: nat)
    ensures FreeHtid(FreeHtid(words, a), b) == FreeHtid(FreeHtid(words, b), a)
  {
    var x, y := FreeHtid(FreeHtid(words, a), b), FreeHtid(FreeHtid(words, b), a);
    assert |x| == |y| == |words|;
    forall i | 0 <= i < |words| ensures x[i] == y[i] {
      assert forall k | 0 <= k < WIDTH :: x[i][k] == y[i][k];
    }
  }

  /** Freeing an id before or after the rest of the walk gives the same words. */
  lemma {:induction false} FreeFirst(
    words: seq<Word>, id: nat, pending: seq<Pending>, prios: seq<PrioSlot>, freed: set<nat>)
    ensures var r := FreePending(Ctx(words, pending, prios), freed);
            FreePending(Ctx(FreeHtid(words, id), pending, prios), freed) == r.(ht := FreeHtid(r.ht, id))
    decreases |pending|
  {
    if pending != [] {
      FreeFirst(words, id, pending[1..], prios, freed);
      var r := FreePending(Ctx(words, pending[1..], prios), freed);
      ClearCommutes(r.ht, id, pending[0].htid);
    }
  }

  class CtxEl {
    const ht: Map
    const prios: array<PrioSlot>
    var pending: seq<Pending>
    ghost var model: Ctx
    ghost var repr: set<object>

    ghost predicate Valid()
      reads this, repr
      ensures Valid() ==> this in repr
    {
      && this in repr && ht in repr && prios in repr && ht.words in repr && ht.Valid()
      && model == Ctx(ht.words[..], pending, prios[..])
    }

    /** Only table id 0, which is not used, is taken. */
    constructor ()
      ensures Valid() && fresh(repr) && model == NewIface(0).ctx
    {
      ht := new Map(KERNEL_HT - 1);
      prios := new PrioSlot[PRIO_SLOTS](_ => PrioSlot(0, 0));
      pending := [];
      new;
      assert ht.words[..] == seq(ArraySize(KERNEL_HT - 1), _ => ZERO);
      ht.Set(0);
      model, repr := Ctx(ht.words[..], pending, prios[..]), {this, ht, ht.words, prios};
    }

    /** get_htid: the scan of the priority slots stops at a match, so the free slot and the largest id
        it has gathered are only used when it has seen all of them. */
    method GetHtid(prio: int) returns (krn: int, id: int)
      requires Valid()
      modifies repr
      ensures Valid() && repr == old(repr) && Htid(model, krn, id) == FlowTable.GetHtid(old(model), prio)
    {
      krn := KernelTable(prio);
      id := ht.FindFirstZero();
      if id >= 0 {
        ht.Set(id);
      }
      model := Ctx(ht.words[..], pending, prios[..]);
    }

    method KernelTable(prio: int) returns (krn: int)
      requires Valid()
      modifies this`model, prios
      ensures Valid()
      ensures (model.prios, krn) == FlowTable.KernelTable(old(model).prios, prio) &&
              model == old(model).(prios := model.prios)
    {
      var i, free, freeId := 0, -1, -1;
      krn := 0;
      ghost var slots := prios[..];
      while i < prios.Length
        invariant 0 <= i <= prios.Length && prios[..] == slots
        invariant forall j | 0 <= j < i :: slots[j].prio != prio
        invariant free == FreeSlot(slots, i) && freeId == MaxSlotId(slots, i)
      {
        if prios[i].prio == prio {
          krn := KERNEL_HT + prios[i].id;
          break;
        }
        if prios[i].prio == 0 {
          free := i;
        } else {
          freeId := if freeId < prios[i].id then prios[i].id else freeId;
        }
        i := i + 1;
      }
      FirstIs(slots, (s: PrioSlot) => s.prio == prio, i);
      if i == prios.Length && free >= 0 {
        prios[free] := PrioSlot(prio, freeId + 1);
        krn := KERNEL_HT + freeId + 1;
      }
      model := model.(prios := prios[..]);
    }

    /** free_htid */
    method FreeHtid(id: nat)
      requires Valid()
      modifies this`model, ht.words
      ensures Valid() && model == old(model).(ht := FlowTable.FreeHtid(old(model).ht, id))
    {
      if id < WIDTH * ht.words.Length {
        ht.Clear(id);
      }
      model := model.(ht := ht.words[..]);
    }

    /** free_pending_list: the walk over the pending list, deleting entries as it goes. */
    method FreePendingList(freed: set<nat>)
      requires Valid()
      modifies repr
      ensures Valid() && repr == old(repr) && model == FreePending(old(model), freed)
    {
      hide Rest, Valid, FlowTable.FreeHtid;
      var i := 0;
      RestEnds(model, freed);
      Listed();
      while i < |pending|
        invariant 0 <= i <= |pending| && Valid() && repr == old(repr) && model.pending == pending
        invariant var rest := Rest(model, i, freed);
                  Rest(old(model), 0, freed) == rest.(pending := pending[..i] + rest.pending)
        decreases |pending| - i
      {
        var p := pending[i];
        Settled(model, i, freed);
        if p.htid in freed {
          Unlist(i);
          FreeHtid(p.htid);
        } else {
          i := i + 1;
        }
      }
      RestEnds(model, freed);
    }

    lemma Listed()
      requires Valid()
      ensures model.pending == pending
    {
    }

    method Unlist(i: nat)
      requires Valid() && i < |pending|
      modifies `pending, `model
      ensures Valid() && model == old(model).(pending := RemoveAt(old(model).pending, i)) && model.pending == pending
    {
      pending := RemoveAt(pending, i);
      model := model.(pending := pending);
    }
  }

  /** What the walk makes of the context from its i-th pending entry on. */
  ghost function Rest(ctx: Ctx, i: nat, freed: set<nat>): Ctx
    requires i <= |ctx.pending|
  {
    FreePending(ctx.(pending := ctx.pending[i..]), freed)
  }

  lemma RestEnds(ctx: Ctx, freed: set<nat>)
    ensures Rest(ctx, |ctx.pending|, freed) == ctx.(pending := []) && Rest(ctx, 0, freed) == FreePending(ctx, freed)
    ensures ctx.pending[..|ctx.pending|] + [] == ctx.pending &&
            ctx.pending[..0] + Rest(ctx, 0, freed).pending == Rest(ctx, 0, freed).pending
  {
    assert ctx.pending[0..] == ctx.pending;
  }

  /** One entry of the pending list dealt with. */
  lemma Settled(ctx: Ctx, i: nat, freed: set<nat>)
    requires i < |ctx.pending|
    ensures var rest, p := Rest(ctx, i, freed), ctx.pending[i];
            var less := RemoveAt(ctx.pending, i);
            if p.htid in freed then
              rest == Rest(ctx.(ht := FreeHtid(ctx.ht, p.htid), pending := less), i, freed) &&
                  less[..i] == ctx.pending[..i]
            else
              var later := Rest(ctx, i + 1, freed);
              && rest == later.(pending := [p] + later.pending)
              && ctx.pending[..i] + ([p] + later.pending) == ctx.pending[..i + 1] + later.pending
  {
    var less := RemoveAt(ctx.pending, i);
    assert ctx.pending[i..][1..] == ctx.pending[i + 1..] == less[i..];
    FreeFirst(ctx.ht, ctx.pending[i].htid, ctx.pending[i + 1..], ctx.prios, freed);
  }

  lemma AddIfaceIs(e: Iface, f: Flow, k: Answers)
    ensures var e' := e.(ref := e.ref + 1);
            var j := IndexOfTable(e.tables, f.kind, f.dstIp);
            if j < |e.tables| then
              var p := AddToTable(e.tables[j], f, e.tables[j].ht, k);
              AddToIface(e, f, k) ==
                Placed(Settle(e'.(tables := e.tables[j := p.elem]), p.depth, k), p.depth, e.tables[j].ht, p.id)
            else
              var g := GetHtid(e.ctx, GetPrio(f));
              var e'' := e'.(ctx := g.ctx);
              var p := AddToTable(NewTable(f, g), f, g.ht, k);
              AddToIface(e, f, k) ==
                if !k.divisor || !k.link then Placed(e'', 1, g.ht, HandleId(f.handle))
                else Placed(Settle(e''.(tables := e.tables + [p.elem]), p.depth, k), p.depth, p.ht, p.id)
  {
    hide AddToTable, GetHtid, Settle;
  }

  lemma DelIfaceIs(e: Iface, f: Flow)
    ensures var e' := e.(ref := e.ref - 1);
            var j := IndexOfTable(e.tables, f.kind, f.dstIp);
            if j == |e.tables| then DelFromIface(e, f) == e'
            else
              var t := DelFromTable(e.tables[j], HandleBkt(f.handle), HandleId(f.handle));
              var tables := e.tables[j := t];
              DelFromIface(e, f) ==
                if t.buckets == [] && t.ref <= 0 then
                  e'.(tables := RemoveAt(tables, j),
                      ctx := e.ctx.(pending := [Pending(t.ht, GetPrio(f))] + e.ctx.pending))
                else e'.(tables := tables)
  {
    hide DelFromTable;
    var j := IndexOfTable(e.tables, f.kind, f.dstIp);
    if j < |e.tables| {
      var t := DelFromTable(e.tables[j], HandleBkt(f.handle), HandleId(f.handle));
      assert RemoveAt(e.tables[j := t], j) == RemoveAt(e.tables, j);
    }
  }

  lemma AtEnd<T>(s: seq<T>, t: T, t': T)
    ensures (s + [t])[|s| := t'] == s + [t']
  {
  }

  // ---------- interfaces ----------

  class IfaceEl {
    const ifId: nat
    const ctx: CtxEl
    var ref: int
    var list: seq<TableEl>
    ghost var model: Iface
    ghost var repr: set<object>

    ghost predicate Valid()
      reads this, repr
      ensures Valid() ==> this in repr
    {
      && this in repr && ctx in repr && ctx.repr <= repr && this !in ctx.repr && ctx.Valid()
      && (forall t | t in list :: t in repr && t.repr <= repr && this !in t.repr && t.repr !! ctx.repr && t.Valid())
      && (forall i, j | 0 <= i < j < |list| :: list[i].repr !! list[j].repr)
      && model == Iface(ifId, ref, ctx.model, model.tables) && |model.tables| == |list|
      && forall i | 0 <= i < |list| :: model.tables[i] == list[i].model
    }

    constructor (ifId: nat)
      ensures Valid() && fresh(repr) && model == NewIface(ifId) && this.ifId == ifId
    {
      hide CtxEl.Valid;
      this.ifId, ref, list := ifId, 0, [];
      ctx := new CtxEl();
      new;
      model, repr := NewIface(ifId), {this} + ctx.repr;
    }

    /** One reference more or less. */
    method Count(delta: int)
      requires Valid()
      modifies `ref, `model
      ensures Valid() && model == old(model).(ref := old(model).ref + delta)
    {
      hide TableEl.Valid, CtxEl.Valid;
      ref, model := ref + delta, model.(ref := model.ref + delta);
    }

    method Find(kind: int, ip: nat) returns (j: nat)
      requires Valid()
      ensures j == IndexOfTable(model.tables, kind, ip) && |list| == |model.tables|
    {
      j := 0;
      while j < |list| && !(list[j].kind == kind && list[j].ip == ip)
        invariant 0 <= j <= |list| && forall i | 0 <= i < j :: !(list[i].kind == kind && list[i].ip == ip)
      {
        j := j + 1;
      }
      forall i | 0 <= i < |list| ensures model.tables[i].kind == list[i].kind && model.tables[i].ip == list[i].ip {
        assert list[i] in list;
      }
      FirstIs(model.tables, IsTable(kind, ip), j);
    }

    /** A table that is missing takes an id and two kernel requests, any of which may be refused. */
    method Add(f: Flow, k: Answers) returns (depth: nat, ht: int, id: int)
      requires Valid()
      modifies repr
      ensures Valid() && fresh(repr - old(repr))
      ensures Placed(model, depth, ht, id) == AddToIface(old(model), f, k)
    {
      hide FindFirst, AddToTable, AddToIface, Valid, FlowTable.GetHtid, Settle;
      var j := Find(f.kind, f.dstIp);
      AddIfaceIs(model, f, k);
      Count(1);
      if j < |list| {
        ht := TableId(j);
        depth, id := AddThrough(j, f, ht, k);
      } else {
        depth, ht, id := AddNew(f, k);
      }
    }

    method Unused() returns (b: bool)
      requires Valid()
      ensures b == (model.tables == [] && model.ref <= 0)
    {
      b := list == [] && ref <= 0;
    }

    method AddNew(f: Flow, k: Answers) returns (depth: nat, ht: int, id: int)
      requires Valid()
      modifies repr
      ensures Valid() && fresh(repr - old(repr))
      ensures var g := FlowTable.GetHtid(old(model).ctx, GetPrio(f));
              var e := old(model).(ctx := g.ctx);
              var p := AddToTable(NewTable(f, g), f, g.ht, k);
              Placed(model, depth, ht, id) ==
                if !k.divisor || !k.link then Placed(e, 1, g.ht, HandleId(f.handle))
                else Placed(Settle(e.(tables := e.tables + [p.elem]), p.depth, k), p.depth, p.ht, p.id)
    {
      hide AddToTable, Valid, FlowTable.GetHtid, Settle;
      SameSize();
      var krn;
      krn, ht := TakeId(GetPrio(f));
      if !k.divisor || !k.link {
        return 1, ht, HandleId(f.handle);
      }
      ghost var e := model;
      var j := |list|;
      Create(f, krn, ht);
      ghost var t := model.tables[j];
      depth, id := AddThrough(j, f, ht, k);
      AtEnd(e.tables, t, AddToTable(t, f, ht, k).elem);
    }

    lemma SameSize()
      requires Valid()
      ensures |list| == |model.tables|
    {
    }

    /** Adds below the j-th table and, when that got all the way, retries the pending list. */
    method AddThrough(j: nat, f: Flow, ht: int, k: Answers) returns (depth: nat, id: int)
      requires Valid() && j < |list|
      modifies repr
      ensures Valid() && fresh(repr - old(repr))
      ensures j < |old(model).tables|
      ensures var p := AddToTable(old(model).tables[j], f, ht, k);
              depth == p.depth && id == p.id &&
              model == Settle(old(model).(tables := old(model).tables[j := p.elem]), p.depth, k)
    {
      hide AddToTable, Valid, FreePending;
      SameSize();
      depth, id := AddAt(j, f, ht, k);
      if depth == 4 {
        Retry(k.freed);
      }
    }

    method TableId(j: nat) returns (ht: nat)
      requires Valid() && j < |list|
      ensures ht == model.tables[j].ht
    {
      assert list[j] in list;
      ht := list[j].ht;
    }

    method TakeId(prio: int) returns (krn: int, ht: int)
      requires Valid()
      modifies repr
      ensures Valid() && repr == old(repr) && list == old(list) && ref == old(ref)
      ensures var g := FlowTable.GetHtid(old(model).ctx, prio);
              krn == g.krn && ht == g.ht && model == old(model).(ctx := g.ctx)
    {
      hide TableEl.Valid, CtxEl.Valid, FlowTable.GetHtid;
      krn, ht := ctx.GetHtid(prio);
      model := model.(ctx := ctx.model);
    }

    /** The pending list is retried. */
    method Retry(freed: set<nat>)
      requires Valid()
      modifies repr
      ensures Valid() && repr == old(repr) && list == old(list) && ref == old(ref)
      ensures model == old(model).(ctx := FreePending(old(model).ctx, freed))
    {
      hide TableEl.Valid, CtxEl.Valid, FreePending;
      ctx.FreePendingList(freed);
      model := model.(ctx := ctx.model);
    }

    /** An empty table at the end of the list. */
    method Create(f: Flow, krn: int, ht: int)
      requires Valid()
      modifies `list, `model, `repr
      ensures Valid() && fresh(repr - old(repr)) && old(repr) <= repr && |list| == |old(list)| + 1
      ensures var t := Table(f.kind, f.dstIp, 0, krn % 0x1_0000, ht % 0x1_0000, []);
              model == old(model).(tables := old(model).tables + [t])
    {
      hide TableEl.Valid, CtxEl.Valid;
      var t := new TableEl(f.kind, f.dstIp, krn % 0x1_0000, ht % 0x1_0000);
      list := list + [t];
      repr := repr + t.repr;
      model := model.(tables := model.tables + [t.model]);
    }

    method AddAt(j: nat, f: Flow, ht: int, k: Answers) returns (depth: nat, id: int)
      requires Valid() && j < |list|
      modifies repr
      ensures Valid() && fresh(repr - old(repr)) && list == old(list) && ref == old(ref)
      ensures var p := AddToTable(old(model).tables[j], f, ht, k);
              model == old(model).(tables := old(model).tables[j := p.elem]) && depth == p.depth && id == p.id
    {
      hide TableEl.Valid, CtxEl.Valid, AddToTable;
      var t := list[j];
      assert t in list;
      depth, id := t.Add(f, ht, k);
      forall i | 0 <= i < |list| && i != j
        ensures list[i] != t && list[i].Valid() && list[i].model == old(list[i].model) &&
                list[i].repr == old(list[i].repr)
        ensures list[i].repr !! t.repr
      {
        assert list[i] in list && old(list[i].repr) !! old(t.repr);
      }
      repr := repr + t.repr;
      model := model.(tables := model.tables[j := t.model]);
    }

    /** Says whether a request to the kernel was refused. */
    method Del(f: Flow, a: DelAnswers) returns (refused: bool)
      requires Valid()
      modifies repr
      ensures Valid() && repr <= old(repr) && model == DelFromIface(old(model), f)
      ensures refused == RefusedIn(old(model), f, a)
    {
      hide FindFirst, DelFromTable, DelFromIface, Valid, RemoveAt, NodeGoesIn, HandleBkt, HandleId;
      var j := Find(f.kind, f.dstIp);
      DelIfaceIs(model, f);
      refused := false;
      if j < |list| {
        var gone, node := DelAt(j, HandleBkt(f.handle), HandleId(f.handle));
        refused := (node && !a.filter) || (gone && !a.table);
        if gone {
          var ht := TableId(j);
          AddPending(ht, GetPrio(f));
          Drop(j);
        }
      }
      Count(-1);
    }

    /** Says whether the table is left without children and counts, and whether the node goes. */
    method DelAt(j: nat, bkt: nat, id: nat) returns (gone: bool, node: bool)
      requires Valid() && j < |list|
      modifies repr
      ensures Valid() && repr == old(repr) && list == old(list) && ref == old(ref)
      ensures j < |old(model).tables| && node == NodeGoesIn(old(model).tables[j], bkt, id)
      ensures var t := DelFromTable(old(model).tables[j], bkt, id);
              && model == old(model).(tables := old(model).tables[j := t])
              && gone == TableUnused(t)
    {
      hide DelFromTable, CtxEl.Valid, NodeGoesIn;
      var t := list[j];
      assert t in list;
      node := t.Del(bkt, id);
      gone := t.list == [] && t.ref <= 0;
      assert gone == TableUnused(t.model);
      hide TableEl.Valid;
      forall i | 0 <= i < |list| && i != j
        ensures list[i] != t && list[i].Valid() && list[i].model == old(list[i].model) &&
                list[i].repr == old(list[i].repr)
        ensures list[i].repr !! t.repr
      {
        assert list[i] in list && old(list[i].repr) !! old(t.repr);
      }
      model := model.(tables := model.tables[j := t.model]);
    }

    /** add_pending_list */
    method AddPending(ht: nat, prio: int)
      requires Valid()
      modifies repr
      ensures Valid() && repr == old(repr) && list == old(list) && ref == old(ref)
      ensures model == old(model).(ctx := old(model).ctx.(pending := [Pending(ht, prio)] + old(model).ctx.pending))
    {
      hide TableEl.Valid;
      ctx.pending := [Pending(ht, prio)] + ctx.pending;
      ctx.model := ctx.model.(pending := ctx.pending);
      model := model.(ctx := ctx.model);
    }

    method Drop(j: nat)
      requires Valid() && j < |list|
      modifies `list, `model
      ensures Valid() && model == old(model).(tables := RemoveAt(old(model).tables, j))
    {
      hide TableEl.Valid, CtxEl.Valid;
      list := list[..j] + list[j + 1..];
      model := model.(tables := RemoveAt(model.tables, j));
    }
  }

  // ---------- the daemon ----------

  class Daemon {
    var ifList: seq<IfaceEl>
    ghost var model: seq<Iface>
    ghost var repr: set<object>

    ghost predicate Valid()
      reads this, repr
      ensures Valid() ==> this in repr
    {
      && this in repr
      && (forall e | e in ifList :: e in repr && e.repr <= repr && this !in e.repr && e.Valid())
      && (forall i, j | 0 <= i < j < |ifList| :: ifList[i].repr !! ifList[j].repr)
      && |model| == |ifList| && forall i | 0 <= i < |ifList| :: model[i] == ifList[i].model
    }

    constructor ()
      ensures Valid() && fresh(repr) && model == []
    {
      ifList, model, repr := [], [], {this};
    }

    method Find(ifId: nat) returns (i: nat)
      requires Valid()
      ensures i == IndexOfIface(model, ifId) && |ifList| == |model|
    {
      i := 0;
      while i < |ifList| && ifList[i].ifId != ifId
        invariant 0 <= i <= |ifList| && forall j | 0 <= j < i :: ifList[j].ifId != ifId
      {
        i := i + 1;
      }
      forall j | 0 <= j < |ifList| ensures model[j].ifId == ifList[j].ifId {
        assert ifList[j] in ifList;
      }
      FirstIs(model, IsIface(ifId), i);
    }

    /** add_flow: counters go up on the way down and stay up when a later step fails. */
    method AddFlow(f: Flow, k: Answers) returns (rc: int, handle: nat)
      requires Valid()
      modifies repr
      ensures Valid() && fresh(repr - old(repr)) && model == FlowTable.AddFlow(old(model), f, k).elem
      ensures Egress(f) ==> rc == k.egressRc && handle == f.handle
      ensures !Egress(f) ==> rc == AddRc(FlowTable.AddFlow(old(model), f, k))
      ensures !Egress(f) ==> handle == AddHandle(f, FlowTable.AddFlow(old(model), f, k))
    {
      if Egress(f) {
        return k.egressRc, f.handle;
      }
      hide FlowTable.AddFlow, Valid, HandleSet;
      var depth, ht, id := AddIngress(f, k);
      rc := if depth == 4 || (depth == 3 && id <= 0) then 0 else -EFAULT;
      handle := HandleSet(ht, if depth >= 3 then GetBkt(f) else HandleBkt(f.handle), id);
    }

    /** An interface that is missing takes a kernel request, which may be refused. */
    method AddIngress(f: Flow, k: Answers) returns (depth: nat, ht: int, id: int)
      requires Valid() && !Egress(f)
      modifies repr
      ensures Valid() && fresh(repr - old(repr)) && Placed(model, depth, ht, id) == FlowTable.AddFlow(old(model), f, k)
    {
      hide AddToIface, NewIface, HandleHt, HandleId, FindFirst, Valid;
      var i := Find(f.ifId);
      ghost var before := model;
      if i == |ifList| {
        if !k.qdisc {
          return 0, HandleHt(f.handle), HandleId(f.handle);
        }
        Create(f.ifId);
      }
      ghost var e := model[i];
      depth, ht, id := AddAt(i, f, k);
      AtEnd(before, e, AddToIface(e, f, k).elem);
    }

    /** A new interface at the end of the list. */
    method Create(ifId: nat)
      requires Valid()
      modifies `ifList, `model, `repr
      ensures Valid() && fresh(repr - old(repr)) && old(repr) <= repr && |ifList| == |old(ifList)| + 1
      ensures model == old(model) + [NewIface(ifId)]
    {
      hide IfaceEl.Valid, NewIface;
      var e := new IfaceEl(ifId);
      ifList := ifList + [e];
      repr := repr + e.repr;
      model := model + [e.model];
    }

    method AddAt(i: nat, f: Flow, k: Answers) returns (depth: nat, ht: int, id: int)
      requires Valid() && i < |ifList|
      modifies repr
      ensures Valid() && fresh(repr - old(repr)) && ifList == old(ifList) && i < |old(model)|
      ensures var p := AddToIface(old(model)[i], f, k);
              model == old(model)[i := p.elem] && depth == p.depth && ht == p.ht && id == p.id
    {
      hide IfaceEl.Valid, AddToIface;
      var e := ifList[i];
      assert e in ifList;
      depth, ht, id := e.Add(f, k);
      forall j | 0 <= j < |ifList| && j != i
        ensures ifList[j] != e && ifList[j].Valid() && ifList[j].model == old(ifList[j].model) &&
                ifList[j].repr == old(ifList[j].repr)
        ensures ifList[j].repr !! e.repr
      {
        assert ifList[j] in ifList && old(ifList[j].repr) !! old(e.repr);
      }
      repr := repr + e.repr;
      model := model[i := e.model];
    }

    /** del_flow: counters go down on the way back up, and an element without counts or children
        goes. */
    method DelFlow(f: Flow, freed: set<nat>, a: DelAnswers) returns (rc: int)
      requires Valid()
      modifies repr
      ensures Valid() && repr <= old(repr) && model == FlowTable.DelFlow(old(model), f, freed)
      ensures rc == DelRc(old(model), f, a)
    {
      hide DelFromIface, FreePending, FindFirst, Valid, RefusedIn;
      var i := Find(f.ifId);
      ghost var before := model;
      rc := 0;
      if i < |ifList| {
        var gone, refused := DelAt(i, f, a);
        rc := if refused || (gone && !a.qdisc) then -EFAULT else 0;
        if gone {
          Drop(i);
          assert RemoveAt(before[i := DelFromIface(before[i], f)], i) == RemoveAt(before, i);
        } else {
          RetryAt(i, freed);
        }
      }
    }

    /** Says whether the interface is left without children and counts, and whether a request below it
        was refused. */
    method DelAt(i: nat, f: Flow, a: DelAnswers) returns (gone: bool, refused: bool)
      requires Valid() && i < |ifList|
      modifies repr
      ensures Valid() && repr == old(repr) && ifList == old(ifList) && i < |old(model)|
      ensures refused == RefusedIn(old(model)[i], f, a)
      ensures var e := DelFromIface(old(model)[i], f);
              model == old(model)[i := e] && gone == (e.tables == [] && e.ref <= 0)
    {
      hide DelFromIface, IfaceEl.Valid, RefusedIn;
      var e := ifList[i];
      assert e in ifList;
      refused := e.Del(f, a);
      gone := e.Unused();
      forall j | 0 <= j < |ifList| && j != i
        ensures ifList[j] != e && ifList[j].Valid() && ifList[j].model == old(ifList[j].model) &&
                ifList[j].repr == old(ifList[j].repr)
        ensures ifList[j].repr !! e.repr
      {
        assert ifList[j] in ifList && old(ifList[j].repr) !! old(e.repr);
      }
      model := model[i := e.model];
    }

    method RetryAt(i: nat, freed: set<nat>)
      requires Valid() && i < |ifList|
      modifies repr
      ensures Valid() && repr == old(repr) && i < |old(model)|
      ensures model == old(model)[i := old(model)[i].(ctx := FreePending(old(model)[i].ctx, freed))]
    {
      hide IfaceEl.Valid, FreePending;
      var e := ifList[i];
      assert e in ifList;
      e.Retry(freed);
      forall j | 0 <= j < |ifList| && j != i
        ensures ifList[j] != e && ifList[j].Valid() && ifList[j].model == old(ifList[j].model) &&
                ifList[j].repr == old(ifList[j].repr)
        ensures ifList[j].repr !! e.repr
      {
        assert ifList[j] in ifList && old(ifList[j].repr) !! old(e.repr);
      }
      model := model[i := e.model];
    }

    method Drop(i: nat)
      requires Valid() && i < |ifList|
      modifies `ifList, `model
      ensures i < |old(model)| && Valid() && model == RemoveAt(old(model), i)
    {
      hide IfaceEl.Valid;
      ifList := RemoveAt(ifList, i);
      model := RemoveAt(model, i);
    }
  }
}

/**
 The pending list over whole runs of the flow table: which deleted tables the daemon still asks the
 kernel to let go of, with which priority, and which ids become free.
 */
module FlowPending {
  import opened Words
  import opened Bitmap
  import opened NodeIds
  import opened FlowTable
  import opened FlowInvariant
  import opened FlowRuns
  import opened FlowIds
  import opened Options

  /** The entries whose ids the kernel does not let go, in order. */
  function Kept(pending: seq<Pending>, freed: set<nat>): seq<Pending> {
    if pending == [] then []
    else (if pending[0].htid in freed then [] else [pending[0]]) + Kept(pending[1..], freed)
  }

  /** The entries for the tables whose ids are not in use any more: id, and kind as priority. */
  function Gone(tables: seq<Table>, ids: set<int>): seq<Pending> {
    if tables == [] then []
    else (if tables[0].ht in ids then [] else [Pending(tables[0].ht, tables[0].kind)]) + Gone(tables[1..], ids)
  }

  lemma {:induction false} FreePendingKept(ctx: Ctx, freed: set<nat>)
    ensures FreePending(ctx, freed).pending == Kept(ctx.pending, freed)
    decreases |ctx.pending|
  {
    if ctx.pending != [] {
      FreePendingKept(ctx.(pending := ctx.pending[1..]), freed);
    }
  }

  lemma {:induction false} NoneGone(tables: seq<Table>, ids: set<int>)
    requires TableIds(tables) <= ids
    ensures Gone(tables, ids) == []
  {
    if tables != [] {
      assert tables[0].ht in TableIds(tables);
      assert TableIds(tables[1..]) <= TableIds(tables);
      NoneGone(tables[1..], ids);
    }
  }

  lemma {:induction false} OneGone(tables: seq<Table>, ids: set<int>, j: nat)
    requires j < |tables| && tables[j].ht !in ids
    requires forall i | 0 <= i < |tables| && i != j :: tables[i].ht in ids
    ensures Gone(tables, ids) == [Pending(tables[j].ht, tables[j].kind)]
  {
    if j == 0 {
      NoneGone(tables[1..], ids);
    } else {
      OneGone(tables[1..], ids, j - 1);
    }
  }

  lemma {:induction false} KeptIds(pending: seq<Pending>, freed: set<nat>)
    ensures PendingIds(Kept(pending, freed)) == PendingIds(pending) - freed
  {
    if pending != [] {
      var p, rest := pending[0], Kept(pending[1..], freed);
      KeptIds(pending[1..], freed);
      assert pending == [p] + pending[1..];
      PendingIdsCons(p, pending[1..]);
      PendingIdsCons(p, rest);
      assert [] + rest == rest;
    }
  }

  lemma {:induction false} GoneIds(tables: seq<Table>, ids: set<int>)
    ensures PendingIds(Gone(tables, ids)) == TableIds(tables) - ids
  {
    if tables != [] {
      var t, rest := tables[0], Gone(tables[1..], ids);
      GoneIds(tables[1..], ids);
      PendingIdsCons(Pending(t.ht, t.kind), rest);
      assert TableIds(tables) == {t.ht as int} + TableIds(tables[1..]);
      assert [] + rest == rest;
    }
  }

  lemma {:induction false} IdsConcat(a: seq<Pending>, b: seq<Pending>)
    ensures PendingIds(a + b) == PendingIds(a) + PendingIds(b)
  {
    if a == [] {
      assert a + b == b;
    } else {
      IdsConcat(a[1..], b);
      PendingIdsCons(a[0], a[1..]);
      PendingIdsCons(a[0], a[1..] + b);
      assert a == [a[0]] + a[1..] && a + b == [a[0]] + (a[1..] + b);
    }
  }

  // ---------- one interface ----------

  /** A delete puts the table that went, if one did, in front of the pending list. */
  lemma DelLists(e: Iface, C: set<Claim>, f: Flow)
    requires IfaceOk(e, C)
    ensures var e' := DelFromIface(e, f); e'.ctx.pending == Gone(e.tables, TableIds(e'.tables)) + e.ctx.pending
  {
    hide ListOk, KernelTablesOk, DelFromTable, FindFirst;
    var e', j := DelFromIface(e, f), IndexOfTable(e.tables, f.kind, f.dstIp);
    var ids := TableIds(e'.tables);
    if j < |e.tables| && |e'.tables| < |e.tables| {
      DelKeepsTableId(e.tables[j], HandleBkt(f.handle), HandleId(f.handle));
      forall i | 0 <= i < |e.tables| && i != j ensures e.tables[i].ht in ids {
        assert e'.tables[if i < j then i else i - 1] == e.tables[i];
      }
      OneGone(e.tables, ids, j);
    } else {
      if j < |e.tables| {
        DelKeepsTableId(e.tables[j], HandleBkt(f.handle), HandleId(f.handle));
      }
      SameTableIds(e.tables, e'.tables);
      NoneGone(e.tables, ids);
      assert [] + e.ctx.pending == e.ctx.pending;
    }
  }

  /** An add lists nothing, and tries the list if it went all the way. */
  lemma AddLists(e: Iface, f: Flow, k: Answers)
    ensures var p := AddToIface(e, f, k);
            && p.elem.ctx.pending == (if p.depth == 4 then Kept(e.ctx.pending, k.freed) else e.ctx.pending)
            && Gone(e.tables, TableIds(p.elem.tables)) == []
  {
    AddSameIds(e, f, k);
    SameTableIds(e.tables, AddToIface(e, f, k).elem.tables);
    NoneGone(e.tables, TableIds(AddToIface(e, f, k).elem.tables));
    var g := GetHtid(e.ctx, GetPrio(f));
    assert g.ctx.pending == e.ctx.pending;
    FreePendingKept(e.ctx, k.freed);
    FreePendingKept(g.ctx, k.freed);
    hide AddToTable, FreePending, FindFirst, GetHtid, Kept, Gone, TableIds;
  }

  // ---------- whole runs ----------

  function PendingOn(ifs: seq<Iface>, id: nat): seq<Pending> {
    match IfaceOf(ifs, id)
    case None => []
    case Some(e) => e.ctx.pending
  }

  function TablesOf(ifs: seq<Iface>, id: nat): seq<Table> {
    match IfaceOf(ifs, id)
    case None => []
    case Some(e) => e.tables
  }

  /** The step asks the kernel once more for the pending tables of an interface: a delete of a live flow
      on it, or an add to it that goes through. */
  predicate Retries(w: World, s: Step, id: nat) {
    match s
    case Add(f, k) => f.ifId == id && IfaceOf(w.ifs, id).Some? && GoesThrough(w.ifs, f, k)
    case Del(c, _) => c in w.claims && Live(c) && c.ifId == id
  }

  /** What the pending list of an interface that is there afterwards must be: the tables that went first,
      what was there behind, and of these only what the kernel does not let go, if it was asked. */
  ghost predicate ListedOn(ifs: seq<Iface>, ifs': seq<Iface>, id: nat, asked: bool, freed: set<nat>) {
    var all := Gone(TablesOf(ifs, id), TablesOn(ifs', id)) + PendingOn(ifs, id);
    IfaceOf(ifs', id).Some? ==> PendingOn(ifs', id) == if asked then Kept(all, freed) else all
  }

  lemma SameListed(ifs: seq<Iface>, ifs': seq<Iface>, id: nat, freed: set<nat>)
    requires IfaceOf(ifs', id) == IfaceOf(ifs, id)
    ensures ListedOn(ifs, ifs', id, false, freed)
  {
    NoneGone(TablesOf(ifs, id), TablesOn(ifs', id));
    assert [] + PendingOn(ifs, id) == PendingOn(ifs, id);
  }

  lemma DelListed(ifs: seq<Iface>, C: set<Claim>, f: Flow, freed: set<nat>, id: nat)
    requires Inv(ifs, C)
    ensures ListedOn(ifs, DelFlow(ifs, f, freed), id, f.ifId == id, freed)
  {
    hide Inv, DelFromIface, FreePending, FindFirst, Gone, Kept, TableIds;
    var i := IndexOfIface(ifs, f.ifId);
    if i < |ifs| {
      IfaceIds(ifs, C, i);
      var e := DelFromIface(ifs[i], f);
      DelSameIds(ifs[i], f);
      DelLists(ifs[i], On(C, AtIface, f.ifId), f);
      FreePendingKept(e.ctx, freed);
      if e.tables == [] && e.ref <= 0 {
        IfaceRemoved(ifs, i, id);
      } else {
        IfaceReplaced(ifs, i, e.(ctx := FreePending(e.ctx, freed)), id);
      }
    }
    if f.ifId != id {
      SameListed(ifs, DelFlow(ifs, f, freed), id, freed);
    }
  }

  lemma AddListed(ifs: seq<Iface>, C: set<Claim>, f: Flow, k: Answers, id: nat)
    requires Inv(ifs, C) && Ingress(f)
    ensures var asked := f.ifId == id && IfaceOf(ifs, id).Some? && GoesThrough(ifs, f, k);
            ListedOn(ifs, AddFlow(ifs, f, k).elem, id, asked, k.freed)
  {
    hide Inv, GoesThrough, AddToIface, FindFirst, Gone, Kept, TableIds, NewIface;
    var i, ifs' := IndexOfIface(ifs, f.ifId), AddFlow(ifs, f, k).elem;
    if i < |ifs| {
      var p := AddToIface(ifs[i], f, k);
      DepthIs(ifs, C, f, k);
      AddCounts(ifs[i], f, k);
      AddLists(ifs[i], f, k);
      assert [] + ifs[i].ctx.pending == ifs[i].ctx.pending;
      IfaceReplaced(ifs, i, p.elem, id);
    } else if k.qdisc {
      NewIfaceId(f.ifId);
      AddSameIds(NewIface(f.ifId), f, k);
      AddLists(NewIface(f.ifId), f, k);
      NothingPending(f.ifId, k.freed, TablesOn(ifs', id));
      IfaceAppended(ifs, AddToIface(NewIface(f.ifId), f, k).elem, id);
    }
    if f.ifId != id || ifs' == ifs {
      SameListed(ifs, ifs', id, k.freed);
    }
  }

  lemma NothingPending(ifId: nat, freed: set<nat>, ids: set<int>)
    ensures NewIface(ifId).ctx.pending == [] && Kept([], freed) == [] && Gone([], ids) == []
  {
  }

  /** Every step of every run leaves every interface exactly the pending list it must have. */
  lemma RunListed(steps: seq<Step>, k: nat, id: nat)
    requires AllowedRun(START, steps) && k < |steps|
    ensures var w := After(steps, k);
            ListedOn(w.ifs, After(steps, k + 1).ifs, id, Retries(w, steps[k], id), FreedBy(steps[k]))
  {
    hide Inv, AddFlow, DelFlow, OutOfIds, ListedOn, GoesThrough, IfaceOf, After, AllowedRun;
    AfterNext(steps, k);
    var w := After(steps, k);
    match steps[k]
    case Add(f, a) => AddListed(w.ifs, w.claims, f, a, id);
    case Del(c, freed) =>
      if c in w.claims && Live(c) {
        DelListed(w.ifs, w.claims, FlowOf(c), freed, id);
      } else {
        SameListed(w.ifs, w.ifs, id, freed);
      }
  }

  /** The ids that become free in a step: those asked for and let go. */
  function Released(w: World, s: Step, id: nat): set<int> {
    var asked := TablesOn(w.ifs, id) - TablesOn(Exec(w, s).ifs, id) + PendingIds(PendingOn(w.ifs, id));
    if Retries(w, s, id) then set h | h in asked && h in FreedBy(s) else {}
  }

  /** The ids held on an interface, over every run: exactly those released go, and only the id of a new
      table comes. */
  lemma RunHeld(steps: seq<Step>, k: nat, id: nat)
    requires AllowedRun(START, steps) && k < |steps| && IfaceOf(After(steps, k + 1).ifs, id).Some?
    ensures var w, w' := After(steps, k), After(steps, k + 1);
            HeldOn(w'.ifs, id) == HeldOn(w.ifs, id) + TablesOn(w'.ifs, id) - Released(w, steps[k], id)
  {
    hide After, Exec, WorldOk, Allowed, AllowedRun, Kept, Gone, PendingIds, TableIds, Retries, FreedBy;
    RunListed(steps, k, id);
    AfterNext(steps, k);
    var w, w' := After(steps, k), After(steps, k + 1);
    var gone := Gone(TablesOf(w.ifs, id), TablesOn(w'.ifs, id));
    var all := gone + PendingOn(w.ifs, id);
    GoneIds(TablesOf(w.ifs, id), TablesOn(w'.ifs, id));
    IdsConcat(gone, PendingOn(w.ifs, id));
    KeptIds(all, FreedBy(steps[k]));
    StepCareful(w, steps[k], id);
    HeldApart(w, id);
  }

  lemma HeldApart(w: World, id: nat)
    requires WorldOk(w)
    ensures TablesOn(w.ifs, id) !! PendingIds(PendingOn(w.ifs, id))
    ensures HeldOn(w.ifs, id) == TablesOn(w.ifs, id) + PendingIds(PendingOn(w.ifs, id))
    ensures TablesOn(w.ifs, id) == TableIds(TablesOf(w.ifs, id))
  {
    hide Inv, FindFirst;
    var i := IndexOfIface(w.ifs, id);
    if i < |w.ifs| {
      IfaceIds(w.ifs, w.claims, i);
    }
  }

  /** A retry loses no id to an add that fails. */
  lemma NoneLost(w: World, s: Step, id: nat)
    requires WorldOk(w) && Allowed(w, s) && Retries(w, s, id)
    ensures LostIds(On(Exec(w, s).claims, AtIface, id)) <= LostIds(On(w.claims, AtIface, id))
  {
    hide Inv, DelFlow, OutOfIds, GoesThrough, IfaceOf;
    match s
    case Add(f, k) =>
      DepthIs(w.ifs, w.claims, f, k);
      AddDepth(w.ifs, f, k);
    case Del(c, freed) =>
  }

  lemma AddDepth(ifs: seq<Iface>, f: Flow, k: Answers)
    ensures Ingress(f) && IfaceOf(ifs, f.ifId).Some? ==> AddFlow(ifs, f, k).depth > 0
  {
    hide AddToIface, FindFirst;
    AddCounts(Target(ifs, f), f, k);
  }

  /** The id is free on an interface that is there. */
  ghost predicate ClearOn(ifs: seq<Iface>, id: nat, h: nat) {
    match IfaceOf(ifs, id)
    case None => true
    case Some(e) => h < WIDTH * |e.ctx.ht| && !Bit(e.ctx.ht, h)
  }

  /** What is released is free again: its bit is clear, so the next table may get it. */
  lemma ReleasedClear(steps: seq<Step>, k: nat, id: nat, h: nat)
    requires AllowedRun(START, steps) && k < |steps| && h in Released(After(steps, k), steps[k], id)
    ensures ClearOn(After(steps, k + 1).ifs, id, h)
  {
    var w, w' := After(steps, k), After(steps, k + 1);
    AfterNext(steps, k);
    StepKeepsWorld(w, steps[k]);
    if IfaceOf(w'.ifs, id).Some? {
      RunHeld(steps, k, id);
      NoneLost(w, steps[k], id);
      HeldInRange(w, id, h);
      hide After, Exec, WorldOk, Allowed, AllowedRun, Retries, Released;
      NotHeldClear(w', id, h);
    }
  }

  lemma HeldInRange(w: World, id: nat, h: nat)
    requires WorldOk(w) && (h in TablesOn(w.ifs, id) || h in PendingIds(PendingOn(w.ifs, id)))
    ensures 0 < h < MAP_BITS && h !in LostIds(On(w.claims, AtIface, id))
  {
    hide Inv, FindFirst;
    IfaceIds(w.ifs, w.claims, IndexOfIface(w.ifs, id));
  }

  lemma NotHeldClear(w: World, id: nat, h: nat)
    requires WorldOk(w) && IfaceOf(w.ifs, id).Some? && 0 < h < MAP_BITS
    requires h !in HeldOn(w.ifs, id) && h !in LostIds(On(w.claims, AtIface, id))
    ensures ClearOn(w.ifs, id, h)
  {
    hide Inv, FindFirst;
    IfaceIds(w.ifs, w.claims, IndexOfIface(w.ifs, id));
  }
}

/**
 Table ids over whole runs of the flow table: an id is not given to a table again before the kernel has
 let the earlier one go.
 */
module FlowIds {
  import opened NodeIds
  import opened FlowTable
  import opened FlowInvariant
  import opened FlowRuns
  import opened Options

  // ---------- one step of one interface ----------

  /** Ids of tables the kernel still has: in use, or deleted here but not yet there. */
  function HeldIds(e: Iface): set<int> {
    TableIds(e.tables) + PendingIds(e.ctx.pending)
  }

  lemma SameTableIds(tables: seq<Table>, tables': seq<Table>)
    requires |tables| <= |tables'|
    requires forall i | 0 <= i < |tables| :: tables'[i].ht == tables[i].ht
    ensures TableIds(tables) <= TableIds(tables')
  {
    forall t | t in tables ensures t.ht in TableIds(tables') {
      var i :| 0 <= i < |tables| && tables[i] == t;
      assert tables'[i] in tables';
    }
  }

  /** During an add, only ids whose deletion the kernel accepts stop being held, and a table created
      by it gets an id that was not held. */
  lemma AddHoldsIds(e: Iface, C: set<Claim>, f: Flow, k: Answers)
    requires IdsOk(e.ctx, e.tables, C) && !OutOfIds(e, f)
    ensures var e' := AddToIface(e, f, k).elem;
            && HeldIds(e) - k.freed <= HeldIds(e')
            && (forall i | |e.tables| <= i < |e'.tables| :: e'.tables[i].ht !in HeldIds(e))
  {
    hide AddToIface, IdsOk, OutOfIds, TableIds, PendingIds;
    AddSameIds(e, f, k);
    SameTableIds(e.tables, AddToIface(e, f, k).elem.tables);
    AddPendingIds(e, C, f, k);
    AddNewId(e, C, f, k);
  }

  lemma AddPendingIds(e: Iface, C: set<Claim>, f: Flow, k: Answers)
    requires IdsOk(e.ctx, e.tables, C)
    ensures PendingIds(e.ctx.pending) - k.freed <= PendingIds(AddToIface(e, f, k).elem.ctx.pending)
  {
    var g := GetHtid(e.ctx, GetPrio(f));
    assert g.ctx.pending == e.ctx.pending;
    FreePendingList(e.ctx, k.freed);
    FreePendingList(g.ctx, k.freed);
    hide AddToTable, FreePending, FindFirst, DistinctIds, PendingIds, GetHtid;
  }

  lemma AddNewId(e: Iface, C: set<Claim>, f: Flow, k: Answers)
    requires IdsOk(e.ctx, e.tables, C) && !OutOfIds(e, f)
    ensures var e' := AddToIface(e, f, k).elem;
            forall i | |e.tables| <= i < |e'.tables| :: e'.tables[i].ht !in HeldIds(e)
  {
    hide AddToTable, FreePending, FindFirst, KernelTable, IdsOk;
    if IndexOfTable(e.tables, f.kind, f.dstIp) == |e.tables| {
      var g := GetHtid(e.ctx, GetPrio(f));
      TakeId(e.ctx, e.tables, C);
      AddKeepsTableId(NewTable(f, g), f, g.ht, k);
    }
  }

  lemma AddKeepsTableId(t: Table, f: Flow, ht: int, k: Answers)
    ensures AddToTable(t, f, ht, k).elem.ht == t.ht
  {
  }

  /** The same for a delete that leaves the interface in place. */
  lemma DelHoldsIds(e: Iface, C: set<Claim>, f: Flow, freed: set<nat>)
    requires IfaceOk(e, C)
    ensures var e' := DelFromIface(e, f);
            HeldIds(e) - freed <= HeldIds(e'.(ctx := FreePending(e'.ctx, freed)))
  {
    hide DelFromIface, FreePending;
    DelListsIds(e, C, f);
    FreePendingList(DelFromIface(e, f).ctx, freed);
  }

  /** A table that goes is on the pending list instead. */
  lemma DelListsIds(e: Iface, C: set<Claim>, f: Flow)
    requires IfaceOk(e, C)
    ensures var e' := DelFromIface(e, f); HeldIds(e) <= HeldIds(e') && DistinctIds(e'.ctx.pending)
  {
    hide ListOk, KernelTablesOk, DelFromTable, FindFirst;
    var e' := DelFromIface(e, f);
    var j := IndexOfTable(e.tables, f.kind, f.dstIp);
    if j < |e.tables| {
      var t := DelFromTable(e.tables[j], HandleBkt(f.handle), HandleId(f.handle));
      DelKeepsTableId(e.tables[j], HandleBkt(f.handle), HandleId(f.handle));
      if t.buckets == [] && t.ref <= 0 {
        IdsDropTable(e.ctx, e.tables, C, C, j, GetPrio(f));
        PendingIdsCons(Pending(t.ht, GetPrio(f)), e.ctx.pending);
        RemainingIds(e.tables, j);
      } else {
        SameTableIds(e.tables, e'.tables);
      }
    }
  }

  lemma RemainingIds(tables: seq<Table>, j: nat)
    requires j < |tables|
    ensures TableIds(tables) <= TableIds(RemoveAt(tables, j)) + {tables[j].ht}
  {
    var rest := RemoveAt(tables, j);
    forall x | x in tables ensures x.ht == tables[j].ht || x.ht in TableIds(rest) {
      var i :| 0 <= i < |tables| && tables[i] == x;
      assert i != j ==> rest[if i < j then i else i - 1] == x;
    }
  }

  lemma DelKeepsTableId(t: Table, bkt: nat, id: nat)
    ensures DelFromTable(t, bkt, id).ht == t.ht
  {
  }

  // ---------- whole runs ----------

  function IfaceOf(ifs: seq<Iface>, ifId: nat): Option<Iface> {
    var i := IndexOfIface(ifs, ifId);
    if i < |ifs| then Some(ifs[i]) else None
  }

  lemma IfaceReplaced(ifs: seq<Iface>, i: nat, e: Iface, id: nat)
    requires i < |ifs| && i == IndexOfIface(ifs, e.ifId)
    ensures IfaceOf(ifs[i := e], id) == if id == e.ifId then Some(e) else IfaceOf(ifs, id)
  {
    FirstIs(ifs[i := e], IsIface(id), IndexOfIface(ifs, id));
  }

  lemma IfaceAppended(ifs: seq<Iface>, e: Iface, id: nat)
    requires IndexOfIface(ifs, e.ifId) == |ifs|
    ensures IfaceOf(ifs + [e], id) == if id == e.ifId then Some(e) else IfaceOf(ifs, id)
  {
    var i := IndexOfIface(ifs, id);
    FirstIs(ifs + [e], IsIface(id), if i < |ifs| || id == e.ifId then i else i + 1);
  }

  lemma IfaceRemoved(ifs: seq<Iface>, i: nat, id: nat)
    requires i < |ifs| && forall j, m | 0 <= j < m < |ifs| :: ifs[j].ifId != ifs[m].ifId
    ensures IfaceOf(RemoveAt(ifs, i), id) == if id == ifs[i].ifId then None else IfaceOf(ifs, id)
  {
    var rest, j := RemoveAt(ifs, i), IndexOfIface(ifs, id);
    assert forall m | 0 <= m < |rest| :: rest[m] == ifs[if m < i then m else m + 1];
    FirstIs(rest, IsIface(id), if id == ifs[i].ifId then |rest| else if j < i then j else j - 1);
  }

  /** The ids of an interface's tables, and those with the ones the kernel has not let go yet. */
  function TablesOn(ifs: seq<Iface>, id: nat): set<int> {
    match IfaceOf(ifs, id)
    case None => {}
    case Some(e) => TableIds(e.tables)
  }

  function HeldOn(ifs: seq<Iface>, id: nat): set<int> {
    match IfaceOf(ifs, id)
    case None => {}
    case Some(e) => HeldIds(e)
  }

  /** What a change of one interface may do: only ids the kernel lets go stop being held, and a table that
      is new has an id that was not held. */
  ghost predicate Careful(e: Iface, e': Iface, freed: set<nat>) {
    && HeldIds(e) - freed <= HeldIds(e')
    && forall h | h in TableIds(e'.tables) && h !in TableIds(e.tables) :: h !in HeldIds(e)
  }

  /** The same for one interface of the whole table, unless it is gone afterwards. */
  ghost predicate CarefulOn(ifs: seq<Iface>, ifs': seq<Iface>, id: nat, freed: set<nat>) {
    && (IfaceOf(ifs', id).Some? ==> HeldOn(ifs, id) - freed <= HeldOn(ifs', id))
    && forall h | h in TablesOn(ifs', id) && h !in TablesOn(ifs, id) :: h !in HeldOn(ifs, id)
  }

  lemma IfaceIds(ifs: seq<Iface>, C: set<Claim>, i: nat)
    requires Inv(ifs, C) && i < |ifs|
    ensures IfaceOk(ifs[i], On(C, AtIface, ifs[i].ifId))
    ensures forall j, m | 0 <= j < m < |ifs| :: ifs[j].ifId != ifs[m].ifId
  {
    assert IfaceKey(ifs[i]) == ifs[i].ifId;
    forall j, m | 0 <= j < m < |ifs| ensures ifs[j].ifId != ifs[m].ifId {
      assert IfaceKey(ifs[j]) != IfaceKey(ifs[m]);
    }
  }

  lemma AddCareful(e: Iface, C: set<Claim>, f: Flow, k: Answers)
    requires IdsOk(e.ctx, e.tables, C) && !OutOfIds(e, f)
    ensures Careful(e, AddToIface(e, f, k).elem, k.freed) && AddToIface(e, f, k).elem.ifId == e.ifId
  {
    AddHoldsIds(e, C, f, k);
    AddSameIds(e, f, k);
    hide IdsOk, OutOfIds, AddToIface, HeldIds;
    var e' := AddToIface(e, f, k).elem;
    assert forall i | 0 <= i < |e.tables| :: e.tables[i] in e.tables;
    forall h | h in TableIds(e'.tables) && h !in TableIds(e.tables) ensures h !in HeldIds(e) {
      var i :| 0 <= i < |e'.tables| && e'.tables[i].ht == h;
    }
  }

  lemma AddSameIds(e: Iface, f: Flow, k: Answers)
    ensures var e' := AddToIface(e, f, k).elem;
            e'.ifId == e.ifId && |e.tables| <= |e'.tables| &&
            forall i | 0 <= i < |e.tables| :: e'.tables[i].ht == e.tables[i].ht
  {
    hide AddToTable, FreePending, GetHtid;
    var j := IndexOfTable(e.tables, f.kind, f.dstIp);
    if j < |e.tables| {
      AddKeepsTableId(e.tables[j], f, e.tables[j].ht, k);
    }
  }

  lemma AddStep(ifs: seq<Iface>, C: set<Claim>, f: Flow, k: Answers, id: nat)
    requires Inv(ifs, C) && Ingress(f) && !OutOfIds(Target(ifs, f), f)
    ensures CarefulOn(ifs, AddFlow(ifs, f, k).elem, id, k.freed)
  {
    hide Inv, OutOfIds, AddToIface, NewIface, HeldIds;
    var i := IndexOfIface(ifs, f.ifId);
    if i < |ifs| {
      IfaceIds(ifs, C, i);
      AddCareful(ifs[i], On(C, AtIface, f.ifId), f, k);
      IfaceReplaced(ifs, i, AddToIface(ifs[i], f, k).elem, id);
    } else if k.qdisc {
      AddSameIds(NewIface(f.ifId), f, k);
      NewIfaceId(f.ifId);
      IfaceAppended(ifs, AddToIface(NewIface(f.ifId), f, k).elem, id);
    }
  }

  lemma NewIfaceId(ifId: nat)
    ensures NewIface(ifId).ifId == ifId
  {
  }

  lemma DelCareful(e: Iface, C: set<Claim>, f: Flow, freed: set<nat>)
    requires IfaceOk(e, C)
    ensures var e' := DelFromIface(e, f);
            e'.ifId == e.ifId && Careful(e, e'.(ctx := FreePending(e'.ctx, freed)), freed)
  {
    hide IfaceOk, DelFromIface, HeldIds, FreePending, TableIds;
    DelHoldsIds(e, C, f, freed);
    DelSameIds(e, f);
  }

  lemma DelSameIds(e: Iface, f: Flow)
    ensures var e' := DelFromIface(e, f); e'.ifId == e.ifId && TableIds(e'.tables) <= TableIds(e.tables)
  {
    hide DelFromTable, FindFirst;
    var e', j := DelFromIface(e, f), IndexOfTable(e.tables, f.kind, f.dstIp);
    if j < |e.tables| {
      DelKeepsTableId(e.tables[j], HandleBkt(f.handle), HandleId(f.handle));
    }
    forall t | t in e'.tables ensures t.ht in TableIds(e.tables) {
      var i :| 0 <= i < |e'.tables| && e'.tables[i] == t;
      var was := e.tables[if |e'.tables| < |e.tables| && i >= j then i + 1 else i];
      assert was in e.tables && was.ht == t.ht;
    }
  }

  lemma DelStep(ifs: seq<Iface>, C: set<Claim>, f: Flow, freed: set<nat>, id: nat)
    requires Inv(ifs, C)
    ensures CarefulOn(ifs, DelFlow(ifs, f, freed), id, freed)
  {
    hide Inv, DelFromIface, HeldIds, FreePending, FindFirst, TableIds;
    var i := IndexOfIface(ifs, f.ifId);
    if i < |ifs| {
      IfaceIds(ifs, C, i);
      DelCareful(ifs[i], On(C, AtIface, f.ifId), f, freed);
      var e := DelFromIface(ifs[i], f);
      if e.tables == [] && e.ref <= 0 {
        IfaceRemoved(ifs, i, id);
      } else {
        IfaceReplaced(ifs, i, e.(ctx := FreePending(e.ctx, freed)), id);
      }
    }
  }

  function FreedBy(s: Step): set<nat> {
    match s
    case Add(_, k) => k.freed
    case Del(_, freed) => freed
  }

  /** The step may end what the kernel has under this id on an interface: it lets the id go, or the
      interface is gone. */
  predicate LetGo(w: World, s: Step, id: nat, h: nat) {
    h in FreedBy(s) || IfaceOf(Exec(w, s).ifs, id).None?
  }

  lemma StepCareful(w: World, s: Step, id: nat)
    requires WorldOk(w) && Allowed(w, s)
    ensures CarefulOn(w.ifs, Exec(w, s).ifs, id, FreedBy(s))
  {
    hide Inv, AddFlow, DelFlow, OutOfIds, HeldOn, TablesOn, IfaceOf;
    match s
    case Add(f, k) => AddStep(w.ifs, w.claims, f, k, id);
    case Del(c, freed) => DelStep(w.ifs, w.claims, FlowOf(c), freed, id);
  }

  /** The state after the first k steps. */
  function After(steps: seq<Step>, k: nat): World
    requires k <= |steps|
  {
    Run(START, steps[..k])
  }

  lemma {:induction false} RunLast(w: World, steps: seq<Step>)
    requires steps != [] && AllowedRun(w, steps)
    ensures var n := |steps| - 1;
            && AllowedRun(w, steps[..n]) && Allowed(Run(w, steps[..n]), steps[n])
            && Run(w, steps) == Exec(Run(w, steps[..n]), steps[n])
    decreases |steps|
  {
    hide Allowed, Exec;
    var n := |steps| - 1;
    if n > 0 {
      RunLast(Exec(w, steps[0]), steps[1..]);
      assert steps[1..][..n - 1] == steps[..n][1..] && steps[1..][n - 1] == steps[n];
    }
  }

  lemma {:induction false} AllowedPart(steps: seq<Step>, k: nat)
    requires AllowedRun(START, steps) && k <= |steps|
    ensures AllowedRun(START, steps[..k])
    decreases |steps|
  {
    hide AllowedRun, Allowed, Run, Exec;
    if k == |steps| {
      assert steps[..k] == steps;
    } else {
      RunLast(START, steps);
      AllowedPart(steps[..|steps| - 1], k);
      assert steps[..|steps| - 1][..k] == steps[..k];
    }
  }

  lemma AfterNext(steps: seq<Step>, k: nat)
    requires AllowedRun(START, steps) && k < |steps|
    ensures WorldOk(After(steps, k)) && Allowed(After(steps, k), steps[k])
    ensures After(steps, k + 1) == Exec(After(steps, k), steps[k])
  {
    hide Exec, Allowed, WorldOk;
    AllowedPart(steps, k);
    AllowedPart(steps, k + 1);
    RunLast(START, steps[..k + 1]);
    assert steps[..k + 1][..k] == steps[..k];
    StartOk();
    RunKeepsWorld(START, steps[..k]);
  }

  lemma KeptUnlessLetGo(w: World, s: Step, id: nat, h: nat)
    requires WorldOk(w) && Allowed(w, s) && h in HeldOn(w.ifs, id) && !LetGo(w, s, id, h)
    ensures h in HeldOn(Exec(w, s).ifs, id)
  {
    hide Exec, WorldOk, Allowed, HeldOn, TablesOn, IfaceOf, FreedBy;
    StepCareful(w, s, id);
  }

  /** An id that is held stays held as long as nothing lets it go. */
  lemma {:induction false} StaysHeld(steps: seq<Step>, id: nat, h: nat, i: nat, j: nat)
    requires AllowedRun(START, steps) && i <= j <= |steps| && h in HeldOn(After(steps, i).ifs, id)
    requires forall m | i <= m < j :: !LetGo(After(steps, m), steps[m], id, h)
    ensures h in HeldOn(After(steps, j).ifs, id)
    decreases j - i
  {
    hide LetGo, After, HeldOn, AllowedRun, WorldOk, Allowed;
    if i < j {
      StaysHeld(steps, id, h, i, j - 1);
      AfterNext(steps, j - 1);
      KeptUnlessLetGo(After(steps, j - 1), steps[j - 1], id, h);
    }
  }

  /** Over every run: a table that is created gets an id some earlier table of its interface had only
      after the kernel let that id go or the interface went. */
  lemma IdsNotReused(steps: seq<Step>, id: nat, h: nat, i: nat, j: nat)
    requires AllowedRun(START, steps) && i <= j < |steps| && h in HeldOn(After(steps, i).ifs, id)
    requires h in TablesOn(After(steps, j + 1).ifs, id) && h !in TablesOn(After(steps, j).ifs, id)
    ensures exists m :: i <= m < j && LetGo(After(steps, m), steps[m], id, h)
  {
    hide LetGo, After, HeldOn, TablesOn, AllowedRun, WorldOk, Allowed, Exec;
    AfterNext(steps, j);
    StepCareful(After(steps, j), steps[j], id);
    if forall m | i <= m < j :: !LetGo(After(steps, m), steps[m], id, h) {
      StaysHeld(steps, id, h, i, j);
    }
  }
}

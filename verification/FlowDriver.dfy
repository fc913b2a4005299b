/**
 The daemon run beside the specification, call by call: what is proved of runs of the flow table holds
 of the linked elements it keeps and of the handles it gave out.
 */
module FlowDriver {
  import opened FlowTable
  import opened FlowInvariant
  import opened FlowRuns
  import opened FlowDaemon

  /** The handles given out by the adds so far are those of the live flows. */
  ghost predicate Remembers(w: World, handles: seq<nat>) {
    && |handles| == w.next
    && forall c | c in w.claims && Live(c) :: c.seqno < w.next && handles[c.seqno] == FlowOf(c).handle
  }

  /** One call on the daemon and the same step of the specification. */
  method Step(daemon: Daemon, w: World, s: FlowRuns.Step, a: DelAnswers, handles: seq<nat>)
    returns (w': World, handles': seq<nat>)
    requires daemon.Valid() && daemon.model == w.ifs && WorldOk(w) && Allowed(w, s) && Remembers(w, handles)
    modifies daemon.repr
    ensures daemon.Valid() && fresh(daemon.repr - old(daemon.repr))
    ensures w' == Exec(w, s) && daemon.model == w'.ifs && Remembers(w', handles')
  {
    hide Daemon.Valid, FlowTable.AddFlow, FlowTable.DelFlow, WorldOk, OutOfIds, NodeIds.HandleSet;
    w', handles' := Exec(w, s), handles;
    match s {
      case Add(f, k) =>
        var rc, handle := daemon.AddFlow(f, k);
        handles' := handles + [handle];
      case Del(c, freed) =>
        if c in w.claims && Live(c) {
          var rc := daemon.DelFlow(FlowOf(c), freed, a);
        }
    }
  }

  /** A whole run: the counters of the daemon are exact if and only if every add went through, and the
      handles it gave to live flows lead to their nodes and tell them apart. */
  method Drive(steps: seq<FlowRuns.Step>, answers: seq<DelAnswers>)
    returns (daemon: Daemon, handles: seq<nat>, w: World)
    requires AllowedRun(START, steps) && |answers| == |steps|
    ensures daemon.Valid() && w == Run(START, steps) && daemon.model == w.ifs
    ensures ExactRefs(daemon.model, LiveOf(w.claims)) <==> CompleteRun(START, steps)
    ensures forall c | c in w.claims && Live(c) ::
              c.seqno < |handles| && handles[c.seqno] == FlowOf(c).handle && LeadsHome(daemon.model, c)
    ensures forall c, d | c in w.claims && d in w.claims && Live(c) && Live(d) && c.ifId == d.ifId ::
              c.seqno < |handles| && d.seqno < |handles| && (handles[c.seqno] == handles[d.seqno] <==> c == d)
  {
    hide Daemon.Valid, Exec, Allowed, WorldOk, ExactRefs, LeadsHome, CompleteRun;
    daemon := new Daemon();
    handles, w := [], START;
    StartOk();
    for i := 0 to |steps|
      invariant daemon.Valid() && fresh(daemon.repr) && daemon.model == w.ifs && WorldOk(w) && Remembers(w, handles)
      invariant AllowedRun(w, steps[i..]) && Run(w, steps[i..]) == Run(START, steps)
    {
      assert steps[i..][0] == steps[i] && steps[i..][1..] == steps[i + 1..];
      StepKeepsWorld(w, steps[i]);
      w, handles := Step(daemon, w, steps[i], answers[i], handles);
    }
    RunRefs(steps);
    forall c, d | c in w.claims && d in w.claims && Live(c) && Live(d) && c.ifId == d.ifId
      ensures LeadsHome(w.ifs, c) && (FlowOf(c).handle == FlowOf(d).handle <==> c == d)
    {
      RunHandles(steps, c, d);
    }
  }
}

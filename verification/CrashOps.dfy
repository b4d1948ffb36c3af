/** The write operations as the steps of `Crash`: one that writes is a commit followed by the
    flush that acknowledges it, and one that only replies is no step at all. */
module CrashOps {
  import opened Bytes
  import opened Outcomes
  import opened Store
  import opened Graph
  import opened Chain
  import opened ChainRuns
  import opened ChainOps
  import opened Crash

  /** The database holds the batches of the system, with the same part of them durable. */
  ghost predicate Mirrors(s: System, log: seq<Batch>, durable: nat) {
    Batches(s.log) == log && s.durable == durable
  }

  /** `plan` is what `cmd` does to the state of the system. */
  ghost predicate Plans<A>(hs: Hashes, s: System, cmd: Command, plan: Plan<A>) {
    plan.Write? ==> Commits(hs, StateOf(s.log), cmd, plan.batch)
  }

  lemma BatchesSnoc(log: seq<Committed>, c: Committed)
    ensures Batches(log + [c]) == Batches(log) + [c.batch]
  {
    assert (log + [c])[..|log|] == log;
  }

  function Committing(s: System, client: nat, c: Committed): System {
    s.(log := s.log + [c], waiting := s.waiting[client := |s.log|])
  }

  /** What follows a plan is no step, or its commit and the flush of all that is committed. */
  lemma FollowsIsSteps<A>(hs: Hashes, s: System, client: nat, cmd: Command, plan: Plan<A>, log: seq<Batch>, durable: nat,
                          log': seq<Batch>, durable': nat, r: Result<A, EvidenceError>) returns (steps: seq<System>)
    requires s.durable <= |s.log| && client !in s.waiting && Mirrors(s, log, durable) && Plans(hs, s, cmd, plan)
    requires Follows(log, durable, log', durable', plan, r)
    ensures plan.Reply? ==> steps == []
    ensures plan.Write? ==>
      && |steps| == 2
      && CommitStep(hs, s, steps[0], client, cmd, plan.batch)
      && FlushStep(hs, steps[0], steps[1], client, |steps[0].log|)
      && steps[1].acks == s.acks + AckOf(hs, s.log + [Committed(cmd, plan.batch)], |s.log|)
    ensures Mirrors(([s] + steps)[|steps|], log', durable')
  {
    hide Commits, StateOf, AckOf;
    match plan
    case Reply(_) =>
      steps := [];
    case Write(batch, answer) =>
      var c := Committed(cmd, batch);
      var s1 := Committing(s, client, c);
      var s2 := s1.(durable := |s1.log|, waiting := s1.waiting - {client}, acks := s.acks + AckOf(hs, s1.log, |s.log|));
      StateOfIsReplay(s1.log);
      BatchesSnoc(s.log, c);
      steps := [s1, s2];
  }

  /** A trace goes on with the steps of one more operation. */
  lemma TraceGoesOn(hs: Hashes, trace: seq<System>, steps: seq<System>)
    requires Trace(hs, trace)
    requires |steps| <= 2 && (|steps| >= 1 ==> Step(hs, trace[|trace| - 1], steps[0])) && (|steps| == 2 ==> Step(hs, steps[0], steps[1]))
    ensures Trace(hs, trace + steps)
  {
    hide Step;
    var all := trace + steps;
    forall i | 0 < i < |all|
      ensures Step(hs, all[i - 1], all[i])
    {
      if i == |trace| {
        assert all[i] == steps[0];
      } else if i == |trace| + 1 {
        assert all[i - 1] == steps[0] && all[i] == steps[1];
      }
    }
  }

  lemma Steps(hs: Hashes, s: System, s1: System, s2: System, client: nat, cmd: Command, batch: Batch)
    requires CommitStep(hs, s, s1, client, cmd, batch) && FlushStep(hs, s1, s2, client, |s1.log|)
    ensures Step(hs, s, s1) && Step(hs, s1, s2)
  {
  }

  /** Every write operation plans what its command commits. */
  lemma OperationsPlan(hs: Hashes, s: System, chain: Text, verified: bool, entries: seq<EntryInput>, idem: Option<Text>,
                       seqNo: int, retractEdges: bool)
    ensures Plans(hs, s, CreateChain(chain, verified), CreatePlan(StateOf(s.log), chain, verified))
    ensures Plans(hs, s, Append(chain, entries, idem), AppendPlan(hs, StateOf(s.log), chain, entries, idem))
    ensures Plans(hs, s, Redact(chain, seqNo), RedactPlan(StateOf(s.log), chain, seqNo))
    ensures Plans(hs, s, HardDelete(chain, seqNo, retractEdges), HardDeletePlan(StateOf(s.log), chain, seqNo, retractEdges))
  {
    hide StateOf;
  }

  /** A completed operation extends any trace that its database mirrors: not at all when it
      only replies, and by its commit and its flush when it writes. */
  lemma OperationIsSteps<A>(hs: Hashes, trace: seq<System>, client: nat, cmd: Command, plan: Plan<A>, log: seq<Batch>,
                            durable: nat, log': seq<Batch>, durable': nat, r: Result<A, EvidenceError>)
    returns (trace': seq<System>)
    requires Trace(hs, trace) && client !in trace[|trace| - 1].waiting && Mirrors(trace[|trace| - 1], log, durable)
    requires Plans(hs, trace[|trace| - 1], cmd, plan) && Follows(log, durable, log', durable', plan, r)
    ensures Trace(hs, trace') && trace <= trace' && Mirrors(trace'[|trace'| - 1], log', durable')
    ensures plan.Reply? ==> trace' == trace
    ensures var s := trace[|trace| - 1];
      plan.Write? ==> trace'[|trace'| - 1].acks == s.acks + AckOf(hs, s.log + [Committed(cmd, plan.batch)], |s.log|)
  {
    hide StateOf, Step, LogOk, AckOk, AckOf, Plans;
    var s := trace[|trace| - 1];
    TraceOk(hs, trace, |trace| - 1);
    var steps := FollowsIsSteps(hs, s, client, cmd, plan, log, durable, log', durable', r);
    if plan.Write? {
      Steps(hs, s, steps[0], steps[1], client, cmd, plan.batch);
    }
    TraceGoesOn(hs, trace, steps);
    trace' := trace + steps;
    assert trace'[|trace'| - 1] == ([s] + steps)[|steps|];
  }

  /** So an append that wrote is among the acknowledged ones, with the answer it returned, and
      everything `Crash` says of those holds of it. */
  lemma AppendIsAcknowledged(hs: Hashes, trace: seq<System>, client: nat, chain: Text, entries: seq<EntryInput>,
                             idem: Option<Text>, log: seq<Batch>, durable: nat, log': seq<Batch>, durable': nat,
                             r: Result<Appended, EvidenceError>)
    returns (trace': seq<System>)
    requires Trace(hs, trace) && client !in trace[|trace| - 1].waiting && Mirrors(trace[|trace| - 1], log, durable)
    requires Follows(log, durable, log', durable', AppendPlan(hs, Replay(Empty, log), chain, entries, idem), r)
    ensures Trace(hs, trace') && trace <= trace' && Mirrors(trace'[|trace'| - 1], log', durable')
    ensures if AppendPlan(hs, Replay(Empty, log), chain, entries, idem).Reply? then trace' == trace
            else r.Ok? && Ack(|log|, Append(chain, entries, idem), r.value) in trace'[|trace'| - 1].acks
  {
    hide AppendPlan, StateOf, Step, Commits;
    var s, cmd := trace[|trace| - 1], Append(chain, entries, idem);
    StateOfIsReplay(s.log);
    OperationsPlan(hs, s, chain, true, entries, idem, 0, false);
    var plan := AppendPlan(hs, StateOf(s.log), chain, entries, idem);
    trace' := OperationIsSteps(hs, trace, client, cmd, plan, log, durable, log', durable', r);
    if plan.Write? {
      var c := Committed(cmd, plan.batch);
      assert (s.log + [c])[..|s.log|] == s.log;
    }
  }

  // ---- Graph writes ----

  /** A graph write commits its batch, or nothing when the batch is empty. */
  function GraphPlan(batch: Batch): Plan<()> {
    if batch == [] then Reply(Ok(())) else Write(batch, ())
  }

  lemma WroteFollows(log: seq<Batch>, durable: nat, log': seq<Batch>, durable': nat, batch: Batch)
    ensures Wrote(log, durable, log', durable', batch) <==> Follows(log, durable, log', durable', GraphPlan(batch), Ok(()))
  {
  }

  /** Upserts, deletes and mutations commit what their command does, and so do drops. */
  lemma GraphWritesPlan(hs: Hashes, s: System, deltas: seq<EdgeDelta>, graph: Text, drop: Batch)
    ensures Plans(hs, s, ApplyEdges(deltas), GraphPlan(AddDeltas(StateOf(s.log), NoDeltas, deltas).ops))
    ensures ApplyAll(StateOf(s.log), drop) == Dropped(StateOf(s.log), graph) ==> Plans(hs, s, Drop(graph), GraphPlan(drop))
  {
    hide StateOf, AddDeltas, ApplyAll, Dropped;
  }

  /** A completed upsert, delete or mutation, whose deltas are `deltas`, or a completed drop with
      its batch, extends any trace its database mirrors by its commit and its flush, and is then
      among the acknowledged; with an empty batch it is no step. */
  lemma GraphWriteIsSteps(hs: Hashes, trace: seq<System>, client: nat, cmd: Command, batch: Batch, log: seq<Batch>,
                          durable: nat, log': seq<Batch>, durable': nat) returns (trace': seq<System>)
    requires Trace(hs, trace) && client !in trace[|trace| - 1].waiting && Mirrors(trace[|trace| - 1], log, durable)
    requires match cmd
             case ApplyEdges(deltas) => batch == AddDeltas(Replay(Empty, log), NoDeltas, deltas).ops
             case Drop(graph) => ApplyAll(Replay(Empty, log), batch) == Dropped(Replay(Empty, log), graph)
             case _ => false
    requires Wrote(log, durable, log', durable', batch)
    ensures Trace(hs, trace') && trace <= trace' && Mirrors(trace'[|trace'| - 1], log', durable')
    ensures if batch == [] then trace' == trace else Finished(|log|, cmd) in trace'[|trace'| - 1].acks
  {
    hide StateOf, Step, Commits, AddDeltas, ApplyAll, Dropped, Plans;
    var s := trace[|trace| - 1];
    StateOfIsReplay(s.log);
    match cmd {
      case ApplyEdges(deltas) => GraphWritesPlan(hs, s, deltas, [], []);
      case Drop(graph) => GraphWritesPlan(hs, s, [], graph, batch);
    }
    WroteFollows(log, durable, log', durable', batch);
    trace' := OperationIsSteps(hs, trace, client, cmd, GraphPlan(batch), log, durable, log', durable', Ok(()));
  }

  /** Likewise a completed create, redaction or hard delete that wrote is acknowledged. */
  lemma ChainWriteIsAcknowledged(hs: Hashes, trace: seq<System>, client: nat, cmd: Command, plan: Plan<()>, log: seq<Batch>,
                                 durable: nat, log': seq<Batch>, durable': nat, r: Result<(), EvidenceError>)
    returns (trace': seq<System>)
    requires Trace(hs, trace) && client !in trace[|trace| - 1].waiting && Mirrors(trace[|trace| - 1], log, durable)
    requires match cmd
             case CreateChain(chain, verified) => plan == CreatePlan(Replay(Empty, log), chain, verified)
             case Redact(chain, n) => plan == RedactPlan(Replay(Empty, log), chain, n)
             case HardDelete(chain, n, retractEdges) => plan == HardDeletePlan(Replay(Empty, log), chain, n, retractEdges)
             case _ => false
    requires Follows(log, durable, log', durable', plan, r)
    ensures Trace(hs, trace') && trace <= trace' && Mirrors(trace'[|trace'| - 1], log', durable')
    ensures if plan.Reply? then trace' == trace else r.Ok? && Finished(|log|, cmd) in trace'[|trace'| - 1].acks
  {
    hide StateOf, Step, Commits, CreatePlan, RedactPlan, HardDeletePlan, Plans;
    var s := trace[|trace| - 1];
    StateOfIsReplay(s.log);
    match cmd {
      case CreateChain(chain, verified) => OperationsPlan(hs, s, chain, verified, [], None, 0, false);
      case Redact(chain, n) => OperationsPlan(hs, s, chain, true, [], None, n, false);
      case HardDelete(chain, n, retractEdges) => OperationsPlan(hs, s, chain, true, [], None, n, retractEdges);
    }
    trace' := OperationIsSteps(hs, trace, client, cmd, plan, log, durable, log', durable', r);
  }
}

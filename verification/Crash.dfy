/** Clients interleaving their operations on one database that may crash. A client holds the
    write lease from its first read to its commit, so a commit is one step; it drops the
    lease and flushes in a step of its own before it answers. A crash cuts the log of
    committed batches at any point that keeps everything flushed. */
module Crash {
  import opened Frontiers
  import opened MerkleVerify
  import opened Bytes
  import opened Outcomes
  import opened Store
  import opened Graph
  import opened Chain
  import opened ChainInvariant
  import opened ChainRuns

  /** A batch in the log, and the command that wrote it. */
  datatype Committed = Committed(cmd: Command, batch: Batch)

  /** An operation answered after its own flush: where its batch is, and for an append what
      was answered. */
  datatype Ack = Ack(at: nat, cmd: Command, answer: Appended) | Finished(at: nat, cmd: Command)

  /** The committed log, how much of it is durable, the clients between commit and flush
      with the position of their batch, and the operations answered so far. */
  datatype System = System(log: seq<Committed>, durable: nat, waiting: map<nat, nat>, acks: set<Ack>)

  const Start := System([], 0, map[], {})

  function StateOf(log: seq<Committed>): State
    decreases |log|
  {
    if log == [] then Empty else ApplyAll(StateOf(log[..|log| - 1]), log[|log| - 1].batch)
  }

  function Batches(log: seq<Committed>): seq<Batch>
    decreases |log|
  {
    if log == [] then [] else Batches(log[..|log| - 1]) + [log[|log| - 1].batch]
  }

  /** The state is what the store replays from the batches. */
  lemma {:induction false} StateOfIsReplay(log: seq<Committed>)
    ensures |Batches(log)| == |log| && StateOf(log) == Replay(Empty, Batches(log))
    decreases |log|
  {
    if log != [] {
      var n := |log| - 1;
      StateOfIsReplay(log[..n]);
      assert Batches(log)[..n] == Batches(log[..n]);
    }
  }

  /** The batch a command commits when it runs against `st`. */
  ghost predicate Commits(hs: Hashes, st: State, cmd: Command, batch: Batch) {
    match cmd
    case CreateChain(chain, verified) => CreatePlan(st, chain, verified) == Write(batch, ())
    case Append(chain, entries, idem) =>
      AppendPlan(hs, st, chain, entries, idem).Write? && AppendPlan(hs, st, chain, entries, idem).batch == batch
    case Redact(chain, seqNo) => RedactPlan(st, chain, seqNo) == Write(batch, ())
    case HardDelete(chain, seqNo, retractEdges) => HardDeletePlan(st, chain, seqNo, retractEdges) == Write(batch, ())
    case ApplyEdges(deltas) => batch != [] && batch == AddDeltas(st, NoDeltas, deltas).ops
    case Drop(graph) => batch != [] && ApplyAll(st, batch) == Dropped(st, graph)
  }

  // ---- Steps ----

  ghost predicate CommitStep(hs: Hashes, s: System, s': System, client: nat, cmd: Command, batch: Batch) {
    && client !in s.waiting
    && Commits(hs, StateOf(s.log), cmd, batch)
    && s' == s.(log := s.log + [Committed(cmd, batch)], waiting := s.waiting[client := |s.log|])
  }

  /** The flush covers the client's own batch and whatever else was committed by then. */
  ghost predicate FlushStep(hs: Hashes, s: System, s': System, client: nat, upTo: nat) {
    && client in s.waiting
    && s.waiting[client] < upTo <= |s.log|
    && s' == s.(durable := if s.durable < upTo then upTo else s.durable,
                waiting := s.waiting - {client},
                acks := s.acks + AckOf(hs, s.log, s.waiting[client]))
  }

  function AckOf(hs: Hashes, log: seq<Committed>, at: nat): set<Ack> {
    if at >= |log| then {}
    else
      match log[at].cmd
      case Append(chain, entries, idem) =>
        (match AppendPlan(hs, StateOf(log[..at]), chain, entries, idem)
         case Reply(_) => {}
         case Write(_, answer) => {Ack(at, log[at].cmd, answer)})
      case _ => {Finished(at, log[at].cmd)}
  }

  ghost predicate BackgroundFlush(s: System, s': System, upTo: nat) {
    s.durable <= upTo <= |s.log| && s' == s.(durable := upTo)
  }

  /** A crash and restart: what survives is some prefix, and all of it is durable. */
  ghost predicate CrashStep(s: System, s': System, kept: nat) {
    && s.durable <= kept <= |s.log|
    && s' == s.(log := s.log[..kept], durable := kept, waiting := map[])
  }

  ghost predicate Step(hs: Hashes, s: System, s': System) {
    || (exists client, cmd, batch :: CommitStep(hs, s, s', client, cmd, batch))
    || (exists client, upTo :: FlushStep(hs, s, s', client, upTo))
    || (exists upTo :: BackgroundFlush(s, s', upTo))
    || (exists kept :: CrashStep(s, s', kept))
  }

  ghost predicate Trace(hs: Hashes, trace: seq<System>) {
    && trace != [] && trace[0] == Start
    && forall i | 0 < i < |trace| :: Step(hs, trace[i - 1], trace[i])
  }

  // ---- The invariant ----

  /** Every batch was computed against exactly the batches before it. */
  ghost predicate LogOk(hs: Hashes, log: seq<Committed>) {
    forall i | 0 <= i < |log| :: Commits(hs, StateOf(log[..i]), log[i].cmd, log[i].batch)
  }

  ghost predicate AckOk(hs: Hashes, s: System, a: Ack) {
    && a.at < s.durable <= |s.log| && s.log[a.at].cmd == a.cmd && (a.Ack? <==> a.cmd.Append?)
    && (a.Ack? ==> IsAnswer(hs, StateOf(s.log[..a.at]), a))
  }

  ghost predicate IsAnswer(hs: Hashes, st: State, a: Ack)
    requires a.Ack? && a.cmd.Append?
  {
    && AppendPlan(hs, st, a.cmd.chain, a.cmd.entries, a.cmd.idem).Write?
    && AppendPlan(hs, st, a.cmd.chain, a.cmd.entries, a.cmd.idem).answer == a.answer
  }

  ghost predicate SystemOk(hs: Hashes, s: System) {
    && s.durable <= |s.log| && LogOk(hs, s.log)
    && (forall a | a in s.acks :: AckOk(hs, s, a))
  }

  lemma LogOkSnoc(hs: Hashes, log: seq<Committed>, c: Committed)
    requires LogOk(hs, log) && Commits(hs, StateOf(log), c.cmd, c.batch)
    ensures LogOk(hs, log + [c])
  {
    hide Commits, StateOf;
    forall i | 0 <= i < |log + [c]|
      ensures Commits(hs, StateOf((log + [c])[..i]), (log + [c])[i].cmd, (log + [c])[i].batch)
    {
      assert (log + [c])[..i] == log[..i];
      if i == |log| {
        assert log[..i] == log;
      }
    }
  }

  lemma LogOkPrefix(hs: Hashes, log: seq<Committed>, kept: nat)
    requires LogOk(hs, log) && kept <= |log|
    ensures LogOk(hs, log[..kept])
  {
    hide Commits, StateOf;
    forall i | 0 <= i < kept
      ensures Commits(hs, StateOf(log[..kept][..i]), log[..kept][i].cmd, log[..kept][i].batch)
    {
      assert log[..kept][..i] == log[..i];
    }
  }

  /** An answered append stays good while the durable part of the log stays as it is. */
  lemma AckKeeps(hs: Hashes, s: System, s': System, a: Ack)
    requires AckOk(hs, s, a)
    requires s.durable <= s'.durable <= |s'.log| && s.durable <= |s.log| && s.log[..s.durable] == s'.log[..s.durable]
    ensures AckOk(hs, s', a)
  {
    hide StateOf, AppendPlan;
    assert s.log[..a.at] == s.log[..s.durable][..a.at];
    assert s'.log[..a.at] == s'.log[..s.durable][..a.at];
    assert s.log[a.at] == s.log[..s.durable][a.at] == s'.log[..s.durable][a.at];
  }

  lemma StepKeeps(hs: Hashes, s: System, s': System)
    requires SystemOk(hs, s) && Step(hs, s, s')
    ensures SystemOk(hs, s')
    ensures s.durable <= s'.durable && s.log[..s.durable] == s'.log[..s.durable]
  {
    hide StateOf, AppendPlan, Commits, LogOk, AckOk;
    if client, cmd, batch :| CommitStep(hs, s, s', client, cmd, batch) {
      LogOkSnoc(hs, s.log, Committed(cmd, batch));
    } else if client, upTo :| FlushStep(hs, s, s', client, upTo) {
      NewAckOk(hs, s, s', s.waiting[client]);
    } else if upTo :| BackgroundFlush(s, s', upTo) {
    } else {
      var kept :| CrashStep(s, s', kept);
      LogOkPrefix(hs, s.log, kept);
    }
    assert s.log[..s.durable] == s'.log[..s.durable];
    forall a | a in s'.acks
      ensures AckOk(hs, s', a)
    {
      if a in s.acks {
        AckKeeps(hs, s, s', a);
      }
    }
  }

  lemma NewAckOk(hs: Hashes, s: System, s': System, at: nat)
    requires at < s'.durable <= |s'.log| && s'.log == s.log
    ensures forall a | a in AckOf(hs, s.log, at) :: AckOk(hs, s', a)
  {
  }

  lemma {:induction false} TraceOk(hs: Hashes, trace: seq<System>, i: nat)
    requires Trace(hs, trace) && i < |trace|
    ensures SystemOk(hs, trace[i])
  {
    if i > 0 {
      TraceOk(hs, trace, i - 1);
      StepKeeps(hs, trace[i - 1], trace[i]);
    }
  }

  // ---- What survives ----

  lemma CommitsIsNext(hs: Hashes, st: State, cmd: Command, batch: Batch)
    requires Commits(hs, st, cmd, batch)
    ensures ApplyAll(st, batch) == Next(hs, st, cmd)
  {
    hide ApplyAll, AddDeltas;
  }

  function Commands(log: seq<Committed>): (cmds: seq<Command>)
    ensures |cmds| == |log|
    decreases |log|
  {
    if log == [] then [] else Commands(log[..|log| - 1]) + [log[|log| - 1].cmd]
  }

  /** A well-formed log is a run of its commands, whatever was interleaved or lost. */
  lemma {:induction false} LogIsRun(hs: Hashes, log: seq<Committed>)
    requires LogOk(hs, log)
    ensures StateOf(log) == Run(hs, Empty, Commands(log))
    decreases |log|
  {
    hide Commits, Next, ApplyAll;
    if log != [] {
      var n := |log| - 1;
      LogOkPrefix(hs, log, n);
      LogIsRun(hs, log[..n]);
      CommitsIsNext(hs, StateOf(log[..n]), log[n].cmd, log[n].batch);
      assert Commands(log)[..n] == Commands(log[..n]);
    }
  }

  /** The state after a longer log is a run from the state after a shorter one. */
  lemma {:induction false} LogContinues(hs: Hashes, log: seq<Committed>, from: nat)
    requires LogOk(hs, log) && from <= |log|
    ensures StateOf(log) == Run(hs, StateOf(log[..from]), Commands(log)[from..])
    decreases |log|
  {
    hide Commits, Next, ApplyAll;
    if from == |log| {
      assert log[..from] == log;
    } else {
      var n := |log| - 1;
      LogOkPrefix(hs, log, n);
      LogContinues(hs, log[..n], from);
      assert log[..n][..from] == log[..from];
      CommitsIsNext(hs, StateOf(log[..n]), log[n].cmd, log[n].batch);
      assert Commands(log)[from..][..n - from] == Commands(log[..n])[from..];
    }
  }

  lemma StateOfIsSound(hs: Hashes, log: seq<Committed>)
    requires LogOk(hs, log)
    ensures Sound(hs.tree, StateOf(log))
  {
    hide Sound;
    LogIsRun(hs, log);
    EmptyIsSound(hs.tree);
    RunIsSound(hs, Empty, Commands(log));
  }

  /** After any interleaving and any crashes, whatever a further crash leaves satisfies the
      store invariant. */
  lemma RecoveredIsSound(hs: Hashes, trace: seq<System>, i: nat, kept: nat)
    requires Trace(hs, trace) && i < |trace| && trace[i].durable <= kept <= |trace[i].log|
    ensures Sound(hs.tree, StateOf(trace[i].log[..kept]))
  {
    hide Sound;
    TraceOk(hs, trace, i);
    LogOkPrefix(hs, trace[i].log, kept);
    StateOfIsSound(hs, trace[i].log[..kept]);
  }

  lemma StateOfNext(hs: Hashes, log: seq<Committed>, at: nat)
    requires LogOk(hs, log) && at < |log|
    ensures StateOf(log[..at + 1]) == Next(hs, StateOf(log[..at]), log[at].cmd)
  {
    hide Next, ApplyAll;
    assert log[..at + 1][..at] == log[..at];
    CommitsIsNext(hs, StateOf(log[..at]), log[at].cmd, log[at].batch);
  }

  /** An append that was answered after its own flush is never lost: after any later steps
      and one more crash its block of seqs lies at or below the head, and on a verified chain
      every entry of it is provable against the recovered digest. */
  lemma AcknowledgedSurvives(hs: Hashes, trace: seq<System>, i: nat, kept: nat, a: Ack)
    requires Trace(hs, trace) && i < |trace| && trace[i].durable <= kept <= |trace[i].log|
    requires a in trace[i].acks && a.cmd.Append?
    ensures a.Ack?
    ensures var st := StateOf(trace[i].log[..kept]);
      && a.answer.baseSeq + |a.cmd.entries| <= GetHead(st, a.cmd.chain)
      && a.answer.seqs == Seqs(a.answer.baseSeq, |a.cmd.entries|)
      && (ModeOf(st, a.cmd.chain) ==>
            forall j | 0 <= j < |a.cmd.entries| :: ProvableAt(hs, st, a.cmd.chain, a.answer.seqs[j], a.cmd.entries[j]))
  {
    hide Sound, Evolves, ApplyAll, AppendBatch, LogOk, StateOf, Run, ModeOf, Next, AppendPlan, ProvableAt;
    TraceOk(hs, trace, i);
    assert AckOk(hs, trace[i], a);
    var log := trace[i].log[..kept];
    LogOkPrefix(hs, trace[i].log, kept);
    assert log[..a.at] == trace[i].log[..a.at];
    var before := StateOf(log[..a.at]);
    var chain, entries, idem := a.cmd.chain, a.cmd.entries, a.cmd.idem;
    LogOkPrefix(hs, log, a.at);
    StateOfIsSound(hs, log[..a.at]);
    StateOfNext(hs, log, a.at);
    LogContinues(hs, log, a.at + 1);
    var first := Next(hs, before, a.cmd);
    NextKeeps(hs, before, a.cmd);
    RunEvolves(hs, first, Commands(log)[a.at + 1..], chain);
    AppendHead(hs, before, chain, entries, idem);
    HeadOfEvolved(first, StateOf(log), chain);
    if ModeOf(StateOf(log), chain) {
      ModeBefore(hs, before, chain, entries, idem, StateOf(log));
      forall j | 0 <= j < |entries|
        ensures ProvableAt(hs, StateOf(log), chain, a.answer.seqs[j], entries[j])
      {
        StaysProvable(hs, before, chain, entries, idem, Commands(log)[a.at + 1..], j);
      }
    }
  }

  /** Its entries are still in their slots, on a chain of either kind, except where a later
      surviving command hard-deleted the slot. */
  lemma AcknowledgedSlots(hs: Hashes, trace: seq<System>, i: nat, kept: nat, a: Ack, j: nat)
    requires Trace(hs, trace) && i < |trace| && trace[i].durable <= kept <= |trace[i].log|
    requires a in trace[i].acks && a.cmd.Append?
    ensures a.Ack? && a.at < kept
    ensures j < |a.cmd.entries| ==>
      var c, n := a.cmd.chain, a.answer.baseSeq + 1 + j;
      (c, n) in StateOf(trace[i].log[..kept]).entries || Deletes(Commands(trace[i].log[..kept])[a.at + 1..], c, n)
  {
    hide Sound, ApplyAll, AppendBatch, LogOk, StateOf, Run, Next, AppendPlan, Deletes;
    TraceOk(hs, trace, i);
    assert AckOk(hs, trace[i], a);
    if j < |a.cmd.entries| {
      var log := trace[i].log[..kept];
      var c, n := a.cmd.chain, a.answer.baseSeq + 1 + j;
      LogOkPrefix(hs, trace[i].log, kept);
      assert log[..a.at] == trace[i].log[..a.at];
      StateOfNext(hs, log, a.at);
      LogContinues(hs, log, a.at + 1);
      AppendedSlot(hs, StateOf(log[..a.at]), c, a.cmd.entries, a.cmd.idem, j);
      if !Deletes(Commands(log)[a.at + 1..], c, n) {
        RunKeepsSlot(hs, StateOf(log[..a.at + 1]), Commands(log)[a.at + 1..], c, n);
      }
    }
  }

  lemma AppendedSlot(hs: Hashes, st: State, chain: Text, entries: seq<EntryInput>, idem: Option<Text>, j: nat)
    requires AppendPlan(hs, st, chain, entries, idem).Write? && j < |entries|
    ensures var n := AppendPlan(hs, st, chain, entries, idem).answer.baseSeq + 1 + j;
      (chain, n) in Next(hs, st, Append(chain, entries, idem)).entries
  {
    hide AppendBatch, Next, EntriesAfter, NodesAfter, NewNodes, LeavesOf, LeavesIn, Peaks, AddDeltas;
    AppendedState(hs, st, chain, entries, idem);
    AppendEntries(hs, st, chain, entries, idem, chain, GetHead(st, chain) + 1 + j);
  }

  /** The inclusion proof served for a slot rebuilds the digest from the entry's leaf hash. */
  ghost predicate ProvableAt(hs: Hashes, st: State, chain: Text, seqNo: int, entry: EntryInput) {
    && DigestOf(hs.tree, st, chain).Ok?
    && InclusionOf(hs.tree, st, chain, seqNo, None).Ok?
    && var d, p := DigestOf(hs.tree, st, chain).value, InclusionOf(hs.tree, st, chain, seqNo, None).value;
       0 < seqNo <= d.size
       && InclusionRoot(hs.tree, hs.leaf(entry), seqNo - 1, d.size, p.auditPath) == Some(d.root)
  }

  lemma StaysProvable(hs: Hashes, st: State, chain: Text, entries: seq<EntryInput>, idem: Option<Text>,
                      cmds: seq<Command>, j: nat)
    requires Sound(hs.tree, st) && ModeOf(st, chain) && j < |entries|
    requires AppendPlan(hs, st, chain, entries, idem).Write?
    ensures j < |AppendPlan(hs, st, chain, entries, idem).answer.seqs|
    ensures ProvableAt(hs, Run(hs, Next(hs, st, Append(chain, entries, idem)), cmds), chain,
                       AppendPlan(hs, st, chain, entries, idem).answer.seqs[j], entries[j])
  {
    hide Sound, AppendBatch, Run, Next, DigestOf, InclusionOf, InclusionRoot;
    AppendedStaysProvable(hs, st, chain, entries, idem, cmds, j);
  }

  lemma AppendHead(hs: Hashes, st: State, chain: Text, entries: seq<EntryInput>, idem: Option<Text>)
    requires AppendPlan(hs, st, chain, entries, idem).Write?
    ensures AppendPlan(hs, st, chain, entries, idem).answer
         == Appended(GetHead(st, chain), Seqs(GetHead(st, chain), |entries|))
    ensures entries != []
    ensures GetHead(Next(hs, st, Append(chain, entries, idem)), chain) == GetHead(st, chain) + |entries|
    ensures GetMeta(Next(hs, st, Append(chain, entries, idem)), chain) == Some(ModeOf(st, chain))
  {
    hide AppendBatch, Next, EntriesAfter, NodesAfter, NewNodes, LeavesOf, LeavesIn, Peaks, AddDeltas;
    AppendedState(hs, st, chain, entries, idem);
    AppendMode(hs, st, chain, entries, idem);
  }

  lemma HeadOfEvolved(st: State, after: State, c: Text)
    requires Evolves(st, after, c)
    ensures GetHead(st, c) <= GetHead(after, c)
    ensures GetMeta(st, c).Some? ==> GetMeta(after, c) == GetMeta(st, c)
  {
  }

  lemma ModeBefore(hs: Hashes, st: State, chain: Text, entries: seq<EntryInput>, idem: Option<Text>, later: State)
    requires AppendPlan(hs, st, chain, entries, idem).Write?
    requires Evolves(Next(hs, st, Append(chain, entries, idem)), later, chain) && ModeOf(later, chain)
    ensures ModeOf(st, chain)
  {
    hide AppendPlan, Next, LeavesOf;
    AppendHead(hs, st, chain, entries, idem);
    HeadOfEvolved(Next(hs, st, Append(chain, entries, idem)), later, chain);
  }

  /** No seq is ever given out twice among answered appends, crashes notwithstanding. */
  lemma NoSeqTwice(hs: Hashes, trace: seq<System>, i: nat, a: Ack, b: Ack)
    requires Trace(hs, trace) && i < |trace|
    requires a in trace[i].acks && b in trace[i].acks && a != b && a.cmd.Append? && b.cmd.Append?
    ensures a.Ack? && b.Ack?
    ensures a.cmd.chain == b.cmd.chain ==> forall n :: !(n in a.answer.seqs && n in b.answer.seqs)
  {
    hide LogOk, StateOf, AppendPlan;
    TraceOk(hs, trace, i);
    assert AckOk(hs, trace[i], a) && AckOk(hs, trace[i], b);
    if a.cmd.chain == b.cmd.chain {
      if a.at < b.at {
        LaterBlock(hs, trace[i], a, b);
      } else if b.at < a.at {
        LaterBlock(hs, trace[i], b, a);
      }
    }
  }

  lemma LaterBlock(hs: Hashes, s: System, a: Ack, b: Ack)
    requires SystemOk(hs, s) && AckOk(hs, s, a) && AckOk(hs, s, b) && a.Ack? && b.Ack? && a.at < b.at && a.cmd.chain == b.cmd.chain
    ensures forall n | n in a.answer.seqs && n in b.answer.seqs :: false
  {
    hide Sound, Evolves, ApplyAll, AppendBatch, LogOk, StateOf, Run, ModeOf, Next, AppendPlan;
    var log := s.log[..b.at];
    LogOkPrefix(hs, s.log, b.at);
    assert log[..a.at] == s.log[..a.at];
    var before := StateOf(log[..a.at]);
    LogOkPrefix(hs, log, a.at);
    StateOfIsSound(hs, log[..a.at]);
    StateOfNext(hs, log, a.at);
    LogContinues(hs, log, a.at + 1);
    NextKeeps(hs, before, a.cmd);
    RunEvolves(hs, Next(hs, before, a.cmd), Commands(log)[a.at + 1..], a.cmd.chain);
    AppendHead(hs, before, a.cmd.chain, a.cmd.entries, a.cmd.idem);
    AppendHead(hs, StateOf(log), b.cmd.chain, b.cmd.entries, b.cmd.idem);
    HeadOfEvolved(Next(hs, before, a.cmd), StateOf(log), a.cmd.chain);
  }

  // ---- Replays are answered without a flush ----

  /** The remembered answer of a keyed append is in the store exactly from its own batch on,
      so a crash that keeps `kept` batches keeps it exactly if it keeps that batch. */
  lemma AnswerKeptExactly(hs: Hashes, log: seq<Committed>, at: nat, kept: nat, chain: Text, entries: seq<EntryInput>, key: Text)
    requires LogOk(hs, log) && at < |log| && kept <= |log|
    requires log[at].cmd == Append(chain, entries, Some(key))
    ensures GetIdem(StateOf(log[..kept]), chain, key).Some? <==> at < kept
  {
    hide Sound, ApplyAll, AppendBatch, LogOk, StateOf, Run, Next, AppendPlan;
    var before := StateOf(log[..at]);
    LogOkPrefix(hs, log, at);
    LogOkPrefix(hs, log, kept);
    KeyUnseen(hs, log, at, chain, entries, key);
    if at < kept {
      assert log[..kept][..at + 1] == log[..at + 1];
      LogOkPrefix(hs, log, at + 1);
      StateOfIsSound(hs, log[..at + 1]);
      StateOfNext(hs, log, at);
      LogContinues(hs, log[..kept], at + 1);
      KeyRemembered(hs, before, chain, entries, key);
      RunEvolves(hs, StateOf(log[..at + 1]), Commands(log[..kept])[at + 1..], chain);
      IdemOfEvolved(StateOf(log[..at + 1]), StateOf(log[..kept]), chain, key);
    } else {
      assert log[..at][..kept] == log[..kept];
      StateOfIsSound(hs, log[..kept]);
      LogContinues(hs, log[..at], kept);
      RunEvolves(hs, StateOf(log[..kept]), Commands(log[..at])[kept..], chain);
      if GetIdem(StateOf(log[..kept]), chain, key).Some? {
        IdemOfEvolved(StateOf(log[..kept]), before, chain, key);
      }
    }
  }

  lemma KeyUnseen(hs: Hashes, log: seq<Committed>, at: nat, chain: Text, entries: seq<EntryInput>, key: Text)
    requires LogOk(hs, log) && at < |log| && log[at].cmd == Append(chain, entries, Some(key))
    ensures AppendPlan(hs, StateOf(log[..at]), chain, entries, Some(key)).Write?
    ensures GetIdem(StateOf(log[..at]), chain, key) == None
  {
    hide StateOf;
    assert Commits(hs, StateOf(log[..at]), log[at].cmd, log[at].batch);
    AppendedState(hs, StateOf(log[..at]), chain, entries, Some(key));
  }

  lemma KeyRemembered(hs: Hashes, st: State, chain: Text, entries: seq<EntryInput>, key: Text)
    requires AppendPlan(hs, st, chain, entries, Some(key)).Write?
    ensures GetIdem(Next(hs, st, Append(chain, entries, Some(key))), chain, key).Some?
  {
    hide AppendBatch, Next, EntriesAfter, NodesAfter, NewNodes, LeavesOf, LeavesIn, Peaks, AddDeltas;
    AppendedState(hs, st, chain, entries, Some(key));
  }

  lemma IdemOfEvolved(st: State, after: State, c: Text, key: Text)
    requires Evolves(st, after, c) && GetIdem(st, c, key).Some?
    ensures GetIdem(after, c, key) == GetIdem(st, c, key)
  {
  }

  /** A replay answered in any reachable system is safe against every crash exactly when the
      batch it answers from was already flushed; the replay checks nothing of the kind. */
  lemma ReplaySurvivesExactly(hs: Hashes, s: System, at: nat, chain: Text, entries: seq<EntryInput>, key: Text)
    requires SystemOk(hs, s) && at < |s.log| && s.log[at].cmd == Append(chain, entries, Some(key))
    ensures (forall s', kept :: CrashStep(s, s', kept) ==> GetIdem(StateOf(s'.log), chain, key).Some?) <==> at < s.durable
  {
    hide StateOf, LogOk;
    var lost := s.(log := s.log[..s.durable], waiting := map[]);
    assert CrashStep(s, lost, s.durable);
    AnswerKeptExactly(hs, s.log, at, s.durable, chain, entries, key);
    forall s', kept | at < s.durable && CrashStep(s, s', kept)
      ensures GetIdem(StateOf(s'.log), chain, key).Some?
    {
      AnswerKeptExactly(hs, s.log, at, kept, chain, entries, key);
    }
  }

  lemma KeyedPlanOnEmpty(hs: Hashes, e: EntryInput)
    ensures AppendPlan(hs, Empty, [99], [e], Some([107]))
         == Write(AppendBatch(hs, Empty, [99], [e], Some([107])), Appended(0, [1]))
  {
    hide AppendBatch;
    assert Seqs(0, 1) == [1];
  }

  /** So a replay's answer can be lost: one client commits a keyed append, a second repeats
      it and is answered, and a crash before any flush leaves the chain empty. */
  lemma ReplayCanBeLost(hs: Hashes, e: EntryInput) returns (trace: seq<System>, answer: Appended)
    ensures Trace(hs, trace) && |trace| == 3
    ensures AppendPlan(hs, StateOf(trace[1].log), [99], [e], Some([107])) == Reply(Ok(answer)) && answer.seqs == [1]
    ensures GetHead(StateOf(trace[2].log), [99]) == 0
  {
    hide AppendPlan, AppendBatch, ApplyAll, Next, Sound;
    var cmd := Append([99], [e], Some([107]));
    var batch := AppendBatch(hs, Empty, [99], [e], Some([107]));
    KeyedPlanOnEmpty(hs, e);
    var s1 := Start.(log := [Committed(cmd, batch)], waiting := map[7 := 0]);
    assert CommitStep(hs, Start, s1, 7, cmd, batch) by {
      assert Start.log + [Committed(cmd, batch)] == s1.log;
    }
    assert CrashStep(s1, Start, 0) by {
      assert s1.log[..0] == [];
    }
    trace := [Start, s1, Start];
    answer := Appended(0, [1]);
    assert s1.log[..0] == [];
    CommitsIsNext(hs, Empty, cmd, batch);
    EmptyIsSound(hs.tree);
    ReplayedAppend(hs, Empty, [99], [e], [107], [], [e]);
  }

  /** An append that is answered: it commits, flushes, and holds the first seq of its chain. */
  lemma AppendCanBeAcknowledged(hs: Hashes, e: EntryInput) returns (trace: seq<System>, a: Ack)
    ensures Trace(hs, trace) && |trace| == 3
    ensures trace[2].acks == {a} && trace[2].durable == 1 == |trace[2].log|
    ensures a == Ack(0, Append([99], [e], Some([107])), Appended(0, [1]))
  {
    hide AppendPlan, AppendBatch, ApplyAll;
    var cmd := Append([99], [e], Some([107]));
    var batch := AppendBatch(hs, Empty, [99], [e], Some([107]));
    KeyedPlanOnEmpty(hs, e);
    a := Ack(0, cmd, Appended(0, [1]));
    var s1 := System([Committed(cmd, batch)], 0, map[7 := 0], {});
    var s2 := System([Committed(cmd, batch)], 1, map[], {a});
    assert CommitStep(hs, Start, s1, 7, cmd, batch) by {
      assert Start.log + [Committed(cmd, batch)] == s1.log;
    }
    assert s1.log[..0] == [];
    assert FlushStep(hs, s1, s2, 7, 1) by {
      assert s1.waiting - {7} == map[];
    }
    trace := [Start, s1, s2];
  }
}

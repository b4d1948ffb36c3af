/** What an acknowledged operation other than an append leaves behind for good, and when a
    create that finds its chain already there can be believed. */
module Acknowledged {
  import opened Bytes
  import opened Outcomes
  import opened Store
  import opened Graph
  import opened Chain
  import opened ChainInvariant
  import opened ChainRuns
  import opened Crash

  /** What a finished command has made true of every later state. */
  ghost predicate Lasting(cmd: Command, st: State) {
    match cmd
    case CreateChain(chain, verified) => GetMeta(st, chain) == Some(verified)
    case Redact(chain, n) => (chain, n) in st.entries ==> IsRedacted(st.entries[(chain, n)])
    case HardDelete(chain, n, _) => (chain, n) !in st.entries
    case _ => true
  }

  predicate IsRedacted(rec: EntryRecord) {
    rec.payload == [] && rec.redacted
  }

  lemma CreateLasts(hs: Hashes, st: State, cmd: Command, batch: Batch)
    requires cmd.CreateChain? && Commits(hs, st, cmd, batch)
    ensures GetMeta(Next(hs, st, cmd), cmd.chain) == Some(cmd.verified)
  {
    ApplyAllOne(st, PutMeta(cmd.chain, cmd.verified));
  }

  lemma SlotBelowHead(hs: Hashes, st: State, chain: Text, n: int)
    requires Sound(hs.tree, st) && (chain, n) in st.entries
    ensures n <= GetHead(st, chain)
  {
    hide NodesExact, NoNodes, LeavesOf;
    assert ChainOk(hs.tree, st, chain);
  }

  lemma RedactLasts(hs: Hashes, st: State, cmd: Command, batch: Batch)
    requires cmd.Redact? && Commits(hs, st, cmd, batch) && Sound(hs.tree, st)
    ensures var after := Next(hs, st, cmd);
      && (cmd.chain, cmd.seqNo) in after.entries && IsRedacted(after.entries[(cmd.chain, cmd.seqNo)])
      && cmd.seqNo <= GetHead(after, cmd.chain)
  {
    hide Sound;
    SlotBelowHead(hs, st, cmd.chain, cmd.seqNo);
    ApplyAllOne(st, PutEntry(cmd.chain, cmd.seqNo, Redacted(st.entries[(cmd.chain, cmd.seqNo)])));
  }

  lemma DeleteLasts(hs: Hashes, st: State, cmd: Command, batch: Batch)
    requires cmd.HardDelete? && Commits(hs, st, cmd, batch) && Sound(hs.tree, st)
    ensures var after := Next(hs, st, cmd);
      (cmd.chain, cmd.seqNo) !in after.entries && cmd.seqNo <= GetHead(after, cmd.chain)
  {
    hide Sound, ApplyAll, AddDeltas;
    SlotBelowHead(hs, st, cmd.chain, cmd.seqNo);
    HardDeleteEffect(st, cmd.chain, cmd.seqNo, cmd.retractEdges);
  }

  /** What was made true stays true: modes are fixed, a slot once past is never filled again,
      and a redacted record has nothing left to show. */
  lemma LastsOn(st: State, after: State, cmd: Command)
    requires cmd.CreateChain? || cmd.Redact? || cmd.HardDelete?
    requires Evolves(st, after, cmd.chain) && Lasting(cmd, st)
    requires !cmd.CreateChain? ==> cmd.seqNo <= GetHead(st, cmd.chain)
    ensures Lasting(cmd, after)
  {
    hide LeavesOf;
  }

  /** What the command at `at` made true holds of the state behind any log it is in. */
  lemma LogLasts(hs: Hashes, log: seq<Committed>, at: nat)
    requires LogOk(hs, log) && at < |log|
    ensures Lasting(log[at].cmd, StateOf(log))
    ensures var cmd := log[at].cmd;
      cmd.Redact? ==> (cmd.chain, cmd.seqNo) in StateOf(log).entries || Deletes(Commands(log)[at + 1..], cmd.chain, cmd.seqNo)
  {
    hide Sound, Evolves, LogOk, StateOf, Run, Next, Deletes, Lasting, Commits;
    var cmd, batch, before := log[at].cmd, log[at].batch, StateOf(log[..at]);
    LogOkPrefix(hs, log, at);
    StateOfIsSound(hs, log[..at]);
    CommittedAt(hs, log, at);
    StateOfNext(hs, log, at);
    LogContinues(hs, log, at + 1);
    NextKeeps(hs, before, cmd);
    var first, rest := Next(hs, before, cmd), Commands(log)[at + 1..];
    if cmd.CreateChain? || cmd.Redact? || cmd.HardDelete? {
      RunEvolves(hs, first, rest, cmd.chain);
      Lasts(hs, before, cmd, batch);
      LastsOn(first, StateOf(log), cmd);
      if cmd.Redact? && !Deletes(rest, cmd.chain, cmd.seqNo) {
        RedactLasts(hs, before, cmd, batch);
        RunKeepsSlot(hs, first, rest, cmd.chain, cmd.seqNo);
      }
    } else {
      OthersLast(cmd, StateOf(log));
    }
  }

  /** An operation that was answered after its own flush is in every log a crash can leave, and
      what it promised holds of every state recovered from one: the mode is the one created, the
      payload is gone for good, the slot stays empty. */
  lemma FinishedSurvives(hs: Hashes, trace: seq<System>, i: nat, kept: nat, a: Ack)
    requires Trace(hs, trace) && i < |trace| && trace[i].durable <= kept <= |trace[i].log|
    requires a in trace[i].acks
    ensures a.at < kept && trace[i].log[a.at].cmd == a.cmd
    ensures Lasting(a.cmd, StateOf(trace[i].log[..kept]))
    ensures a.cmd.Redact? ==>
      || (a.cmd.chain, a.cmd.seqNo) in StateOf(trace[i].log[..kept]).entries
      || Deletes(Commands(trace[i].log[..kept])[a.at + 1..], a.cmd.chain, a.cmd.seqNo)
  {
    hide LogOk, StateOf, Deletes, Lasting, IsAnswer;
    TraceOk(hs, trace, i);
    assert AckOk(hs, trace[i], a);
    LogOkPrefix(hs, trace[i].log, kept);
    LogLasts(hs, trace[i].log[..kept], a.at);
  }

  lemma CommittedAt(hs: Hashes, log: seq<Committed>, at: nat)
    requires LogOk(hs, log) && at < |log|
    ensures Commits(hs, StateOf(log[..at]), log[at].cmd, log[at].batch)
  {
    hide Commits, StateOf;
  }

  lemma Lasts(hs: Hashes, st: State, cmd: Command, batch: Batch)
    requires cmd.CreateChain? || cmd.Redact? || cmd.HardDelete?
    requires Commits(hs, st, cmd, batch) && Sound(hs.tree, st)
    ensures Lasting(cmd, Next(hs, st, cmd))
    ensures !cmd.CreateChain? ==> cmd.seqNo <= GetHead(Next(hs, st, cmd), cmd.chain)
  {
    hide Commits, Sound, Next;
    if cmd.CreateChain? {
      CreateLasts(hs, st, cmd, batch);
    } else if cmd.Redact? {
      RedactLasts(hs, st, cmd, batch);
    } else {
      DeleteLasts(hs, st, cmd, batch);
    }
  }

  lemma OthersLast(cmd: Command, st: State)
    requires !cmd.CreateChain? && !cmd.Redact? && !cmd.HardDelete?
    ensures Lasting(cmd, st)
  {
  }

  // ---- A create that finds its chain ----

  /** The command at `at` is the one that created the chain, with this mode. */
  ghost predicate CreatedAt(log: seq<Committed>, at: nat, chain: Text, verified: bool) {
    && at < |log|
    && GetMeta(StateOf(log[..at]), chain) == None
    && GetMeta(StateOf(log[..at + 1]), chain) == Some(verified)
  }

  /** Every chain there is was created by one command of the log. */
  lemma {:induction false} WasCreated(log: seq<Committed>, chain: Text, verified: bool, n: nat) returns (at: nat)
    requires n <= |log| && GetMeta(StateOf(log[..n]), chain) == Some(verified)
    requires forall k | 0 <= k <= n :: GetMeta(StateOf(log[..k]), chain) in {None, Some(verified)}
    ensures CreatedAt(log, at, chain, verified)
    decreases n
  {
    hide StateOf;
    NothingYet(log);
    if GetMeta(StateOf(log[..n - 1]), chain) == None {
      at := n - 1;
    } else {
      at := WasCreated(log, chain, verified, n - 1);
    }
  }

  lemma NothingYet(log: seq<Committed>)
    ensures StateOf(log[..0]) == Empty
  {
  }

  /** The mode of a chain over the prefixes of a log. */
  lemma ModeOverPrefixes(hs: Hashes, log: seq<Committed>, chain: Text, m: nat, n: nat)
    requires LogOk(hs, log) && m <= n <= |log|
    ensures GetMeta(StateOf(log[..m]), chain).Some? ==> GetMeta(StateOf(log[..n]), chain) == GetMeta(StateOf(log[..m]), chain)
  {
    hide StateOf, LogOk, Run, Sound;
    LogOkPrefix(hs, log, n);
    LogOkPrefix(hs, log, m);
    assert log[..n][..m] == log[..m];
    StateOfIsSound(hs, log[..m]);
    LogContinues(hs, log[..n], m);
    RunEvolves(hs, StateOf(log[..m]), Commands(log[..n])[m..], chain);
    HeadOfEvolved(StateOf(log[..m]), StateOf(log[..n]), chain);
  }

  /** A create that finds its chain with the mode asked for answers without a flush. The answer
      is safe against every crash exactly when the batch that created the chain was flushed. */
  lemma CreateReplySurvivesExactly(hs: Hashes, s: System, chain: Text, verified: bool) returns (at: nat)
    requires SystemOk(hs, s) && CreatePlan(StateOf(s.log), chain, verified) == Reply(Ok(()))
    ensures CreatedAt(s.log, at, chain, verified)
    ensures (forall s', kept :: CrashStep(s, s', kept) ==> GetMeta(StateOf(s'.log), chain) == Some(verified)) <==> at < s.durable
  {
    hide StateOf, LogOk;
    assert s.log[..|s.log|] == s.log;
    forall k | 0 <= k <= |s.log|
      ensures GetMeta(StateOf(s.log[..k]), chain) in {None, Some(verified)}
    {
      ModeOverPrefixes(hs, s.log, chain, k, |s.log|);
    }
    at := WasCreated(s.log, chain, verified, |s.log|);
    var lost := s.(log := s.log[..s.durable], waiting := map[]);
    assert CrashStep(s, lost, s.durable);
    if at >= s.durable {
      ModeOverPrefixes(hs, s.log, chain, s.durable, at);
    }
    forall s', kept | at < s.durable && CrashStep(s, s', kept)
      ensures GetMeta(StateOf(s'.log), chain) == Some(verified)
    {
      ModeOverPrefixes(hs, s.log, chain, at + 1, kept);
    }
  }

  /** One client creates a chain, a second asks for the same and is answered, and a crash before
      any flush leaves no chain. */
  lemma CreateReplyCanBeLost(hs: Hashes, verified: bool) returns (trace: seq<System>)
    ensures Trace(hs, trace) && |trace| == 3
    ensures CreatePlan(StateOf(trace[1].log), [99], verified) == Reply(Ok(()))
    ensures GetMeta(StateOf(trace[2].log), [99]) == None
  {
    hide Next, ApplyAll;
    var cmd := CreateChain([99], verified);
    var batch := [PutMeta([99], verified)];
    var s1 := Start.(log := [Committed(cmd, batch)], waiting := map[7 := 0]);
    assert CommitStep(hs, Start, s1, 7, cmd, batch) by {
      assert Start.log + [Committed(cmd, batch)] == s1.log;
    }
    assert s1.log[..0] == [];
    assert CrashStep(s1, Start, 0);
    trace := [Start, s1, Start];
    CreateLasts(hs, Empty, cmd, batch);
    CommitsIsNext(hs, Empty, cmd, batch);
  }
}

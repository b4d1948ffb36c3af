/** What holds over every run of the evidence handle: the invariant, what a chain never
    loses, and proofs served across time that the verifiers accept. */
module ChainRuns {
  import opened Merkle
  import opened MerkleVerify
  import opened ConsistencyVerify
  import opened Frontiers
  import opened Bytes
  import opened Outcomes
  import opened Store
  import opened StoredProofs
  import opened Graph
  import opened Chain
  import opened ChainInvariant

  datatype Command =
    | CreateChain(chain: Text, verified: bool)
    | Append(chain: Text, entries: seq<EntryInput>, idem: Option<Text>)
    | Redact(chain: Text, seqNo: int)
    | HardDelete(chain: Text, seqNo: int, retractEdges: bool)
    | ApplyEdges(deltas: seq<EdgeDelta>)
    | Drop(graph: Text)

  function Dropped(st: State, graph: Text): State {
    st.(edges := OtherGraphs(st.edges, graph),
        outs := (set k | k in st.outs && k.id.graph != graph),
        ins := (set k | k in st.ins && k.id.graph != graph))
  }

  function Done<A>(st: State, plan: Plan<A>): State {
    match plan
    case Reply(_) => st
    case Write(batch, _) => ApplyAll(st, batch)
  }

  /** The store after one command. */
  function Next(hs: Hashes, st: State, cmd: Command): State {
    match cmd
    case CreateChain(chain, verified) => Done(st, CreatePlan(st, chain, verified))
    case Append(chain, entries, idem) => Done(st, AppendPlan(hs, st, chain, entries, idem))
    case Redact(chain, seqNo) => Done(st, RedactPlan(st, chain, seqNo))
    case HardDelete(chain, seqNo, retractEdges) => Done(st, HardDeletePlan(st, chain, seqNo, retractEdges))
    case ApplyEdges(deltas) => ApplyAll(st, AddDeltas(st, NoDeltas, deltas).ops)
    case Drop(graph) => Dropped(st, graph)
  }

  function Run(hs: Hashes, st: State, cmds: seq<Command>): State
    decreases |cmds|
  {
    if cmds == [] then st else Next(hs, Run(hs, st, cmds[..|cmds| - 1]), cmds[|cmds| - 1])
  }

  // ---- The invariant over every run ----

  lemma DroppedConsistent(st: State, graph: Text)
    requires Consistent(st)
    ensures Consistent(Dropped(st, graph))
  {
    forall k: Weighted
      ensures k in Dropped(st, graph).outs <==> IsEdge(Dropped(st, graph), k)
      ensures k in Dropped(st, graph).ins <==> IsEdge(Dropped(st, graph), k)
    {
      assert k in st.outs <==> IsEdge(st, k);
      assert k in st.ins <==> IsEdge(st, k);
    }
  }

  lemma NextKeeps(hs: Hashes, st: State, cmd: Command)
    requires Sound(hs.tree, st)
    ensures Sound(hs.tree, Next(hs, st, cmd))
  {
    hide Sound, ApplyAll, AppendBatch, AddDeltas, Effects, OtherGraphs;
    match cmd
    case CreateChain(chain, verified) =>
      if GetMeta(st, chain) == None {
        CreateKeeps(hs.tree, st, chain, verified);
      }
    case Append(chain, entries, idem) =>
      if entries != [] {
        AppendKeeps(hs, st, chain, entries, idem);
      }
    case Redact(chain, seqNo) =>
      if (chain, seqNo) in st.entries {
        RedactKeeps(hs.tree, st, chain, seqNo);
      }
    case HardDelete(chain, seqNo, retractEdges) =>
      if !ModeOf(st, chain) && (chain, seqNo) in st.entries {
        HardDeleteKeeps(hs.tree, st, chain, seqNo, retractEdges);
      }
    case ApplyEdges(deltas) =>
      SoundParts(hs.tree, st);
      BatchEffect(st, deltas);
      GraphWriteKeeps(hs.tree, st, ApplyAll(st, AddDeltas(st, NoDeltas, deltas).ops));
    case Drop(graph) =>
      SoundParts(hs.tree, st);
      DroppedConsistent(st, graph);
      GraphWriteKeeps(hs.tree, st, Dropped(st, graph));
  }

  lemma SoundParts(h: Hasher, st: State)
    requires Sound(h, st)
    ensures Consistent(st)
  {
  }

  /** Every store that any sequence of commands reaches satisfies the invariant. */
  lemma {:induction false} RunIsSound(hs: Hashes, st: State, cmds: seq<Command>)
    requires Sound(hs.tree, st)
    ensures Sound(hs.tree, Run(hs, st, cmds))
    decreases |cmds|
  {
    hide Sound;
    if cmds != [] {
      RunIsSound(hs, st, cmds[..|cmds| - 1]);
      NextKeeps(hs, Run(hs, st, cmds[..|cmds| - 1]), cmds[|cmds| - 1]);
    }
  }

  // ---- What a chain never loses ----

  /** How a chain may look later: its mode is fixed, its head only grows, a slot once past is
      never filled again and holds its record or the redaction of it, remembered answers
      stay, and the leaves of a verified chain are only added to. */
  ghost predicate Evolves(st: State, after: State, c: Text) {
    && (GetMeta(st, c).Some? ==> GetMeta(after, c) == GetMeta(st, c))
    && GetHead(st, c) <= GetHead(after, c)
    && (forall s :: (c, s) in after.entries && s <= GetHead(st, c) ==>
          (c, s) in st.entries && Descends(st.entries[(c, s)], after.entries[(c, s)]))
    && (forall token :: (c, token) in st.idems ==> (c, token) in after.idems && after.idems[(c, token)] == st.idems[(c, token)])
    && (ModeOf(after, c) ==> LeavesOf(st, c) <= LeavesOf(after, c))
  }

  /** A record, or what is left of it after redaction: all of it but the payload. */
  predicate Descends(rec: EntryRecord, later: EntryRecord) {
    || later == rec
    || (later.redacted && later.payload == [] && later.etype == rec.etype && later.at == rec.at && later.edges == rec.edges
        && later.leafHash == rec.leafHash)
  }

  lemma SameEvolves(st: State, after: State, c: Text)
    requires SameChain(st, after, c)
    ensures Evolves(st, after, c)
  {
    SameLeaves(st, after, c);
  }

  lemma EvolvesTransitive(a: State, b: State, d: State, c: Text)
    requires Evolves(a, b, c) && Evolves(b, d, c)
    requires GetMeta(b, c) == None ==> LeavesOf(b, c) == []
    ensures Evolves(a, d, c)
  {
    hide LeavesOf;
    if ModeOf(d, c) {
      if GetMeta(b, c) == None {
        assert ModeOf(b, c);
      }
    }
  }

  lemma AppendEvolves(hs: Hashes, st: State, chain: Text, entries: seq<EntryInput>, idem: Option<Text>)
    requires GetHead(st, chain) >= 0
    requires idem.Some? ==> GetIdem(st, chain, idem.value) == None
    ensures Evolves(st, AppendState(hs, st, chain, entries, idem), chain)
  {
    hide ApplyAll, AddDeltas, NodesAfter, EntriesAfter, Peaks, LeavesIn, LeavesOf;
    var after := AppendState(hs, st, chain, entries, idem);
    AppendMode(hs, st, chain, entries, idem);
    if ModeOf(st, chain) {
      AppendLeaves(hs, st, chain, entries, idem);
    }
    forall s | (chain, s) in after.entries && s <= GetHead(st, chain)
      ensures (chain, s) in st.entries && Descends(st.entries[(chain, s)], after.entries[(chain, s)])
    {
      AppendEntries(hs, st, chain, entries, idem, chain, s);
    }
  }

  lemma NextEvolves(hs: Hashes, st: State, cmd: Command, c: Text)
    requires Sound(hs.tree, st)
    ensures Evolves(st, Next(hs, st, cmd), c)
  {
    hide Sound, ApplyAll, AppendBatch, AddDeltas, Effects, OtherGraphs, LeavesOf, Evolves;
    var after := Next(hs, st, cmd);
    match cmd
    case CreateChain(chain, verified) =>
      CreateEvolves(hs.tree, st, chain, verified, c);
    case Append(chain, entries, idem) =>
      if AppendPlan(hs, st, chain, entries, idem).Reply? {
        StutterEvolves(st, c);
      } else {
        AppendEffect(hs, st, chain, entries, idem);
        if c == chain {
          ChainIsOk(hs.tree, st, c);
          AppendEvolves(hs, st, chain, entries, idem);
        } else {
          AppendElsewhere(hs, st, chain, entries, idem, c);
          SameEvolves(st, after, c);
        }
      }
    case Redact(chain, seqNo) =>
      RedactEvolves(hs.tree, st, chain, seqNo, c);
    case HardDelete(chain, seqNo, retractEdges) =>
      HardDeleteEvolves(hs.tree, st, chain, seqNo, retractEdges, c);
    case ApplyEdges(deltas) =>
      BatchEffect(st, deltas);
      SameEvolves(st, after, c);
    case Drop(graph) =>
      SameEvolves(st, after, c);
  }

  lemma ChainIsOk(h: Hasher, st: State, c: Text)
    requires Sound(h, st)
    ensures ChainOk(h, st, c) && GetHead(st, c) >= 0
  {
    assert ChainOk(h, st, c);
    HeadIsNat(h, st, c);
  }

  lemma StutterEvolves(st: State, c: Text)
    ensures Evolves(st, st, c)
  {
  }

  lemma CreateEvolves(h: Hasher, st: State, chain: Text, verified: bool, c: Text)
    requires Sound(h, st)
    ensures Evolves(st, Done(st, CreatePlan(st, chain, verified)), c)
  {
    ApplyAllOne(st, PutMeta(chain, verified));
    assert ChainOk(h, st, chain);
  }

  lemma RedactEvolves(h: Hasher, st: State, chain: Text, seqNo: int, c: Text)
    ensures Evolves(st, Done(st, RedactPlan(st, chain, seqNo)), c)
  {
    if (chain, seqNo) in st.entries {
      ApplyAllOne(st, PutEntry(chain, seqNo, Redacted(st.entries[(chain, seqNo)])));
      RedactLeaves(st, chain, seqNo, c);
    }
  }

  lemma HardDeleteEvolves(h: Hasher, st: State, chain: Text, seqNo: int, retractEdges: bool, c: Text)
    ensures Evolves(st, Done(st, HardDeletePlan(st, chain, seqNo, retractEdges)), c)
  {
    hide ApplyAll, Effects, AddDeltas;
    if !ModeOf(st, chain) && (chain, seqNo) in st.entries {
      HardDeleteEffect(st, chain, seqNo, retractEdges);
      if c != chain {
        SameEvolves(st, ApplyAll(st, HardDeleteBatch(st, chain, seqNo, retractEdges)), c);
      }
    }
  }

  /** Over any run every chain evolves in this way. */
  lemma {:induction false} RunEvolves(hs: Hashes, st: State, cmds: seq<Command>, c: Text)
    requires Sound(hs.tree, st)
    ensures Evolves(st, Run(hs, st, cmds), c)
    decreases |cmds|
  {
    hide Sound, Evolves, LeavesOf;
    if cmds == [] {
      StutterEvolves(st, c);
    } else {
      var mid := Run(hs, st, cmds[..|cmds| - 1]);
      RunEvolves(hs, st, cmds[..|cmds| - 1], c);
      RunIsSound(hs, st, cmds[..|cmds| - 1]);
      NextEvolves(hs, mid, cmds[|cmds| - 1], c);
      AbsentHasNoLeaves(hs.tree, mid, c);
      EvolvesTransitive(st, mid, Run(hs, st, cmds), c);
    }
  }

  lemma AbsentHasNoLeaves(h: Hasher, st: State, c: Text)
    requires Sound(h, st)
    ensures GetMeta(st, c) == None ==> LeavesOf(st, c) == []
  {
    assert ChainOk(h, st, c);
  }

  /** A slot is emptied only by a hard delete of that very slot. */
  lemma NextKeepsSlot(hs: Hashes, st: State, cmd: Command, c: Text, s: int)
    requires (c, s) in st.entries
    requires !(cmd.HardDelete? && cmd.chain == c && cmd.seqNo == s)
    ensures (c, s) in Next(hs, st, cmd).entries
  {
    hide ApplyAll, AddDeltas, Effects, LeavesOf, AppendBatch, OtherGraphs, NodesAfter, EntriesAfter, Peaks;
    match cmd
    case CreateChain(chain, verified) =>
      ApplyAllOne(st, PutMeta(chain, verified));
    case Append(chain, entries, idem) =>
      AppendEffect(hs, st, chain, entries, idem);
      AppendEntries(hs, st, chain, entries, idem, c, s);
    case Redact(chain, seqNo) =>
      if (chain, seqNo) in st.entries {
        ApplyAllOne(st, PutEntry(chain, seqNo, Redacted(st.entries[(chain, seqNo)])));
      }
    case HardDelete(chain, seqNo, retractEdges) =>
      if (chain, seqNo) in st.entries {
        HardDeleteEffect(st, chain, seqNo, retractEdges);
      }
    case ApplyEdges(deltas) =>
      BatchEffect(st, deltas);
    case Drop(graph) =>
  }

  /** `cmds` hard-delete slot `s` of chain `c`. */
  predicate Deletes(cmds: seq<Command>, c: Text, s: int) {
    exists cmd | cmd in cmds :: cmd.HardDelete? && cmd.chain == c && cmd.seqNo == s
  }

  lemma {:induction false} RunKeepsSlot(hs: Hashes, st: State, cmds: seq<Command>, c: Text, s: int)
    requires (c, s) in st.entries && !Deletes(cmds, c, s)
    ensures (c, s) in Run(hs, st, cmds).entries
    decreases |cmds|
  {
    hide Next;
    if cmds != [] {
      var n := |cmds| - 1;
      assert cmds[n] in cmds;
      RunKeepsSlot(hs, st, cmds[..n], c, s);
      NextKeepsSlot(hs, Run(hs, st, cmds[..n]), cmds[n], c, s);
    }
  }

  // ---- Digests and proofs ----

  /** The digest of a chain that is not plain is its head and the tree hash of its stored
      leaf hashes. */
  lemma DigestIsRoot(h: Hasher, st: State, chain: Text)
    requires Sound(h, st)
    ensures DigestOf(h, st, chain)
         == if ModeOf(st, chain) then Ok(ChainDigest(GetHead(st, chain), Root(h, LeavesOf(st, chain))))
            else Err(NotVerified(chain))
  {
    assert ChainOk(h, st, chain);
    BagIsRoot(h, LeavesOf(st, chain));
  }

  /** In a sound store a chain's records are those of its leaves. */
  lemma SoundHolds(h: Hasher, st: State, chain: Text)
    requires Sound(h, st) && ModeOf(st, chain)
    ensures KeepsTree(h, st, chain, LeavesOf(st, chain))
  {
    hide RangeRoot, Peaks;
    assert ChainOk(h, st, chain);
    var leaves := LeavesOf(st, chain);
    if GetMeta(st, chain) == None {
      NoNodesIsExact(h, st.nodes, chain);
    }
    assert HoldsNodes(h, st, chain, leaves) by {
      forall level: nat, index: nat | IsSubtree(level, index, |leaves|)
        ensures (chain, level, index) in st.nodes && st.nodes[(chain, level, index)] == RangeRoot(h, leaves, level, index)
      {
        assert NodeExact(h, st.nodes, chain, leaves, level, index);
      }
    }
    assert HoldsLeaves(st, chain, leaves) by {
      forall i | 0 <= i < |leaves|
        ensures LeafIs(st, chain, i, leaves[i])
      {
        assert (chain, i + 1) in st.entries;
      }
    }
  }

  /** Inclusion answers: exactly which requests are refused and how, and otherwise the pure
      audit path against the requested size. */
  lemma InclusionAnswers(h: Hasher, st: State, chain: Text, seqNo: int, size: Option<int>)
    requires Sound(h, st)
    ensures var n := if size.Some? then size.value else GetHead(st, chain);
      InclusionOf(h, st, chain, seqNo, size)
      == if !ModeOf(st, chain) then Err(NotVerified(chain))
         else if n < 1 || n > GetHead(st, chain) || seqNo < 1 then Err(InvalidArgument)
         else if seqNo > n then Err(EntryNotFound(chain, seqNo))
         else Ok(InclusionAnswer(seqNo, n, InclusionProof(h, LeavesOf(st, chain)[..n], seqNo - 1)))
  {
    hide Sound, InclusionProof, LeavesOf, Inclusion, KeepsTree;
    if ModeOf(st, chain) {
      var n := if size.Some? then size.value else GetHead(st, chain);
      if 1 <= n <= GetHead(st, chain) && 1 <= seqNo <= n {
        SoundHolds(h, st, chain);
        StoredProofsArePure(h, st, chain, LeavesOf(st, chain), n);
      }
    }
  }

  lemma ConsistencyAnswers(h: Hasher, st: State, chain: Text, first: int, second: Option<int>)
    requires Sound(h, st)
    ensures var n := if second.Some? then second.value else GetHead(st, chain);
      ConsistencyOf(h, st, chain, first, second)
      == if !ModeOf(st, chain) then Err(NotVerified(chain))
         else if first < 1 || first > n || n > GetHead(st, chain) then Err(InvalidArgument)
         else Ok(ConsistencyAnswer(first, n, ConsistencyProof(h, LeavesOf(st, chain)[..n], first)))
  {
    hide Sound, ConsistencyProof, LeavesOf, Consistency, KeepsTree;
    if ModeOf(st, chain) {
      var n := if second.Some? then second.value else GetHead(st, chain);
      if 1 <= first <= n <= GetHead(st, chain) {
        SoundHolds(h, st, chain);
        StoredProofsArePure(h, st, chain, LeavesOf(st, chain), n);
      }
    }
  }

  /** Writes are refused, or answered without one, in these cases and no others. */
  lemma WriteRefusals(hs: Hashes, st: State, chain: Text, verified: bool, seqNo: int, retractEdges: bool)
    ensures var mode := GetMeta(st, chain);
      CreatePlan(st, chain, verified).Reply? <==> mode.Some?
    ensures var mode := GetMeta(st, chain);
      mode.Some? ==> CreatePlan(st, chain, verified).result == if mode.value == verified then Ok(()) else Err(ChainModeConflict(chain))
    ensures RedactPlan(st, chain, seqNo).Reply? <==> (chain, seqNo) !in st.entries
    ensures (chain, seqNo) !in st.entries ==> RedactPlan(st, chain, seqNo).result == Err(EntryNotFound(chain, seqNo))
    ensures HardDeletePlan(st, chain, seqNo, retractEdges).Reply? <==> GetMeta(st, chain) != Some(false) || (chain, seqNo) !in st.entries
    ensures GetMeta(st, chain) != Some(false) ==>
      HardDeletePlan(st, chain, seqNo, retractEdges).result == Err(VerifiedNoDelete(chain))
    ensures GetMeta(st, chain) == Some(false) && (chain, seqNo) !in st.entries ==>
      HardDeletePlan(st, chain, seqNo, retractEdges).result == Err(EntryNotFound(chain, seqNo))
  {
  }

  lemma AppendedState(hs: Hashes, st: State, chain: Text, entries: seq<EntryInput>, idem: Option<Text>)
    requires AppendPlan(hs, st, chain, entries, idem).Write?
    ensures Next(hs, st, Append(chain, entries, idem)) == AppendState(hs, st, chain, entries, idem)
    ensures entries != [] && (idem.Some? ==> GetIdem(st, chain, idem.value) == None)
    ensures AppendPlan(hs, st, chain, entries, idem).answer
         == Appended(GetHead(st, chain), Seqs(GetHead(st, chain), |entries|))
  {
    AppendEffect(hs, st, chain, entries, idem);
  }

  /** An entry once appended to a verified chain keeps its leaf hash in every later store, and
      the digest of then is the tree hash over it. */
  lemma AppendedLeafStays(hs: Hashes, st: State, chain: Text, entries: seq<EntryInput>, idem: Option<Text>,
                          cmds: seq<Command>, j: nat)
    requires Sound(hs.tree, st) && ModeOf(st, chain) && j < |entries|
    requires AppendPlan(hs, st, chain, entries, idem).Write?
    ensures var later := Run(hs, Next(hs, st, Append(chain, entries, idem)), cmds);
      var seqNo := GetHead(st, chain) + 1 + j;
      var leaves := LeavesOf(later, chain);
      && AppendPlan(hs, st, chain, entries, idem).answer.seqs[j] == seqNo
      && Sound(hs.tree, later) && ModeOf(later, chain) && GetHead(later, chain) == |leaves|
      && 0 < seqNo <= |leaves| && leaves[seqNo - 1] == hs.leaf(entries[j])
      && DigestOf(hs.tree, later, chain) == Ok(ChainDigest(|leaves|, Root(hs.tree, leaves)))
  {
    hide Sound, InclusionProof, LeavesOf, Root, Evolves, LeavesIn, DigestOf;
    hide Next, Run, AppendState, AppendPlan;
    var first := Next(hs, st, Append(chain, entries, idem));
    var later := Run(hs, first, cmds);
    AppendedState(hs, st, chain, entries, idem);
    ChainIsOk(hs.tree, st, chain);
    AppendMode(hs, st, chain, entries, idem);
    AppendLeaves(hs, st, chain, entries, idem);
    NextKeeps(hs, st, Append(chain, entries, idem));
    RunIsSound(hs, first, cmds);
    RunEvolves(hs, first, cmds, chain);
    EvolvedLeaves(first, later, chain);
    ChainIsOk(hs.tree, later, chain);
    DigestIsRoot(hs.tree, later, chain);
    LeavesInAt(hs, entries, j);
  }

  /** An entry once appended to a verified chain is provable against every later digest: in
      any later store its inclusion proof rebuilds that store's root from the leaf hash of
      what was appended, redacted or not. */
  lemma AppendedStaysProvable(hs: Hashes, st: State, chain: Text, entries: seq<EntryInput>, idem: Option<Text>,
                              cmds: seq<Command>, j: nat)
    requires Sound(hs.tree, st) && ModeOf(st, chain) && j < |entries|
    requires AppendPlan(hs, st, chain, entries, idem).Write?
    ensures var first := Next(hs, st, Append(chain, entries, idem));
      var later := Run(hs, first, cmds);
      var seqNo := AppendPlan(hs, st, chain, entries, idem).answer.seqs[j];
      && DigestOf(hs.tree, later, chain).Ok?
      && InclusionOf(hs.tree, later, chain, seqNo, None).Ok?
      && var d, a := DigestOf(hs.tree, later, chain).value, InclusionOf(hs.tree, later, chain, seqNo, None).value;
         0 < seqNo <= d.size
         && InclusionRoot(hs.tree, hs.leaf(entries[j]), seqNo - 1, d.size, a.auditPath) == Some(d.root)
  {
    hide Sound, InclusionProof, LeavesOf, Root, DigestOf, InclusionOf, InclusionRoot;
    hide Next, Run, AppendPlan;
    AppendedLeafStays(hs, st, chain, entries, idem, cmds, j);
    var later := Run(hs, Next(hs, st, Append(chain, entries, idem)), cmds);
    var leaves := LeavesOf(later, chain);
    var seqNo := GetHead(st, chain) + 1 + j;
    InclusionAnswers(hs.tree, later, chain, seqNo, None);
    assert leaves[..|leaves|] == leaves;
    InclusionComplete(hs.tree, leaves, seqNo - 1);
  }

  lemma EvolvedLeaves(st: State, after: State, c: Text)
    requires Evolves(st, after, c) && GetMeta(st, c) == Some(true)
    ensures GetMeta(after, c) == Some(true) && LeavesOf(st, c) <= LeavesOf(after, c)
    ensures GetHead(st, c) <= GetHead(after, c)
  {
  }

  /** A digest taken at one time and a digest taken at any later time are consistent: the
      proof served at the later time is accepted for the two digests. */
  lemma DigestsStayConsistent(hs: Hashes, st: State, chain: Text, cmds: seq<Command>)
    requires Sound(hs.tree, st) && GetMeta(st, chain) == Some(true) && GetHead(st, chain) >= 1
    ensures var later := Run(hs, st, cmds);
      && DigestOf(hs.tree, st, chain).Ok? && DigestOf(hs.tree, later, chain).Ok?
      && var d1, d2 := DigestOf(hs.tree, st, chain).value, DigestOf(hs.tree, later, chain).value;
         1 <= d1.size <= d2.size
         && ConsistencyOf(hs.tree, later, chain, d1.size, Some(d2.size)).Ok?
         && ConsistencyVerdict(hs.tree, d1.size, d2.size, ConsistencyOf(hs.tree, later, chain, d1.size, Some(d2.size)).value.proof,
                               d1.root, d2.root) == Accepted
  {
    hide Sound, ConsistencyProof, LeavesOf, Root, Evolves, DigestOf, ConsistencyOf, ConsistencyVerdict;
    var later := Run(hs, st, cmds);
    RunIsSound(hs, st, cmds);
    RunEvolves(hs, st, cmds, chain);
    EvolvedLeaves(st, later, chain);
    ChainIsOk(hs.tree, st, chain);
    ChainIsOk(hs.tree, later, chain);
    DigestIsRoot(hs.tree, st, chain);
    DigestIsRoot(hs.tree, later, chain);
    var size, leaves := GetHead(st, chain), LeavesOf(later, chain);
    ConsistencyAnswers(hs.tree, later, chain, size, Some(GetHead(later, chain)));
    assert leaves[..|leaves|] == leaves;
    assert leaves[..size] == LeavesOf(st, chain);
    ConsistencyComplete(hs.tree, leaves, size);
  }

  // ---- Redaction ----

  /** Redaction changes no digest and no proof of any chain, in any store at all. */
  lemma RedactionIsInvisible(h: Hasher, st: State, chain: Text, seqNo: int, c: Text)
    requires RedactPlan(st, chain, seqNo).Write?
    ensures var after := ApplyAll(st, RedactPlan(st, chain, seqNo).batch);
      && DigestOf(h, after, c) == DigestOf(h, st, c)
      && (forall s, size :: InclusionOf(h, after, c, s, size) == InclusionOf(h, st, c, s, size))
      && (forall first, second :: ConsistencyOf(h, after, c, first, second) == ConsistencyOf(h, st, c, first, second))
  {
    hide Inclusion, Consistency, Incl, StoredSubproof, ApplyAll;
    ApplyAllOne(st, PutEntry(chain, seqNo, Redacted(st.entries[(chain, seqNo)])));
    var after := ApplyAll(st, RedactPlan(st, chain, seqNo).batch);
    assert SameReads(st, after, c);
    forall s, size
      ensures InclusionOf(h, after, c, s, size) == InclusionOf(h, st, c, s, size)
    {
      var n := if size.Some? then size.value else GetHead(st, c);
      if 1 <= s <= n {
        SameIncl(h, st, after, c, 0, n, s - 1);
        InclusionIsIncl(h, st, c, s - 1, n);
        InclusionIsIncl(h, after, c, s - 1, n);
      }
    }
    forall first, second
      ensures ConsistencyOf(h, after, c, first, second) == ConsistencyOf(h, st, c, first, second)
    {
      var n := if second.Some? then second.value else GetHead(st, c);
      if 1 <= first <= n {
        SameSubproof(h, st, after, c, first, 0, n, true);
        ConsistencyIsSubproof(h, st, c, first, n);
        ConsistencyIsSubproof(h, after, c, first, n);
      }
    }
  }

  lemma InclusionIsIncl(h: Hasher, st: State, c: Text, index: nat, size: nat)
    requires index < size
    ensures Inclusion(h, st, c, index, size) == Incl(h, st, c, 0, size, index)
  {
  }

  lemma ConsistencyIsSubproof(h: Hasher, st: State, c: Text, first: nat, second: nat)
    requires 0 < first <= second
    ensures Consistency(h, st, c, first, second) == StoredSubproof(h, st, c, first, 0, second, true)
  {
  }

  /** The reads that proofs are made of. */
  ghost predicate SameReads(st: State, after: State, c: Text) {
    && (forall lo: nat :: ReadLeaf(st, c, lo) == ReadLeaf(after, c, lo))
    && st.nodes == after.nodes
  }

  lemma {:induction false} SameSubtreeRoot(h: Hasher, st: State, after: State, c: Text, lo: nat, hi: nat)
    requires SameReads(st, after, c) && lo < hi
    ensures SubtreeRoot(h, st, c, lo, hi) == SubtreeRoot(h, after, c, lo, hi)
    decreases hi - lo
  {
    if hi - lo > 1 {
      var k := SplitPoint(hi - lo);
      SameSubtreeRoot(h, st, after, c, lo, lo + k);
      SameSubtreeRoot(h, st, after, c, lo + k, hi);
    }
  }

  lemma {:induction false} SameIncl(h: Hasher, st: State, after: State, c: Text, lo: nat, hi: nat, index: nat)
    requires SameReads(st, after, c) && lo <= index < hi
    ensures Incl(h, st, c, lo, hi, index) == Incl(h, after, c, lo, hi, index)
    decreases hi - lo
  {
    hide SubtreeRoot, SplitPoint, SameReads;
    if hi - lo > 1 {
      var mid := lo + SplitPoint(hi - lo);
      SameSubtreeRoot(h, st, after, c, lo, mid);
      SameSubtreeRoot(h, st, after, c, mid, hi);
      if index < mid {
        SameIncl(h, st, after, c, lo, mid, index);
      } else {
        SameIncl(h, st, after, c, mid, hi, index);
      }
    }
  }

  lemma {:induction false} SameSubproof(h: Hasher, st: State, after: State, c: Text, m: nat, lo: nat, hi: nat, known: bool)
    requires SameReads(st, after, c) && lo < hi && 0 < m <= hi - lo
    ensures StoredSubproof(h, st, c, m, lo, hi, known) == StoredSubproof(h, after, c, m, lo, hi, known)
    decreases hi - lo
  {
    hide SubtreeRoot, SplitPoint, SameReads;
    if m == hi - lo {
      SameSubtreeRoot(h, st, after, c, lo, hi);
    } else {
      var k := SplitPoint(hi - lo);
      SameSubtreeRoot(h, st, after, c, lo, lo + k);
      SameSubtreeRoot(h, st, after, c, lo + k, hi);
      if m <= k {
        SameSubproof(h, st, after, c, m, lo, lo + k, known);
      } else {
        SameSubproof(h, st, after, c, m - k, lo + k, hi, false);
      }
    }
  }

  // ---- Idempotency ----

  /** Repeating a keyed non-empty append after any run changes nothing and gives the first
      answer; reusing the key for entries with another fingerprint is a conflict. */
  lemma ReplayedAppend(hs: Hashes, st: State, chain: Text, entries: seq<EntryInput>, key: Text,
                       cmds: seq<Command>, again: seq<EntryInput>)
    requires Sound(hs.tree, st)
    requires AppendPlan(hs, st, chain, entries, Some(key)).Write? && again != []
    ensures var later := Run(hs, Next(hs, st, Append(chain, entries, Some(key))), cmds);
      AppendPlan(hs, later, chain, again, Some(key))
      == Reply(if hs.fingerprint(again) == hs.fingerprint(entries)
               then Ok(AppendPlan(hs, st, chain, entries, Some(key)).answer)
               else Err(IdemConflict))
  {
    hide Sound, LeavesOf, EntriesAfter, NodesAfter, NewNodes, Peaks, LeavesIn, AddDeltas, Next, Run;
    var first := Next(hs, st, Append(chain, entries, Some(key)));
    AppendedState(hs, st, chain, entries, Some(key));
    NextKeeps(hs, st, Append(chain, entries, Some(key)));
    RunEvolves(hs, first, cmds, chain);
    assert (chain, key) in first.idems;
  }
}

/** The numbers given to new splits over a run, and when their names sort in the order the
    splits were created: a number is one past the highest that the manifest still lists, so
    compacting the last split away makes the numbers start over. */
module SplitOrder {
  import opened Bytes
  import opened Splits
  import opened SplitNames
  import opened Compaction
  import opened FtsIndex
  import opened FtsMeaning

  /** A step that writes a new appended split, whether or not the manifest comes to list it. */
  predicate Mints(ix: Stored, s: IndexStep) {
    (s.op.Append? || s.op.Update?) && Done(ix, s) >= 1
  }

  /** The numbers of the appended splits written over a run, oldest first. */
  function Minted(steps: seq<IndexStep>): seq<nat>
    decreases |steps|
  {
    if steps == [] then []
    else
      var past, s := steps[..|steps| - 1], steps[|steps| - 1];
      var ix := IndexRun(NewIndex, past);
      Minted(past) + if Mints(ix, s) then [NextSeq(ix.manifest)] else []
  }

  /** One past the highest. */
  function Top(s: seq<nat>): (t: nat)
    ensures forall m :: m in s ==> m < t
    ensures t > 0 ==> t - 1 in s
    decreases |s|
  {
    if s == [] then 0
    else
      var t := Top(s[..|s| - 1]);
      assert s == s[..|s| - 1] + [s[|s| - 1]];
      if s[|s| - 1] >= t then s[|s| - 1] + 1 else t
  }

  // ---- The manifest ----

  /** The appended splits of a manifest are listed in ascending number. */
  ghost predicate AppendedAscend(manifest: Manifest) {
    forall i, j :: 0 <= i < j < |manifest| && manifest[i].id.Appended? && manifest[j].id.Appended? ==>
      manifest[i].id.seqNo < manifest[j].id.seqNo
  }

  ghost predicate ListsOnly(manifest: Manifest, minted: seq<nat>) {
    forall sm :: sm in manifest && sm.id.Appended? ==> sm.id.seqNo in minted
  }

  lemma {:induction false} NextSeqAttained(manifest: Manifest)
    ensures NextSeq(manifest) > 0 ==> exists sm :: sm in manifest && sm.id == Appended(NextSeq(manifest) - 1)
    decreases |manifest|
  {
    if manifest != [] {
      var n := |manifest| - 1;
      NextSeqAttained(manifest[..n]);
      assert manifest == manifest[..n] + [manifest[n]];
      assert manifest[n] in manifest;
    }
  }

  lemma {:induction false} OthersAscend(manifest: Manifest, plan: set<SplitId>)
    requires AppendedAscend(manifest)
    ensures AppendedAscend(Others(manifest, plan)) && forall sm :: sm in Others(manifest, plan) ==> sm in manifest
    decreases |manifest|
  {
    if manifest != [] {
      var n := |manifest| - 1;
      OthersAscend(manifest[..n], plan);
      var rest := Others(manifest[..n], plan);
      forall i | 0 <= i < |rest| && rest[i].id.Appended? && manifest[n].id.Appended?
        ensures rest[i].id.seqNo < manifest[n].id.seqNo
      {
        assert rest[i] in manifest[..n];
      }
    }
  }

  lemma CompactManifest(ix: Stored, plan: set<SplitId>, k: nat)
    requires k <= NumWrites(ix, CompactSplits(plan))
    ensures var r := Compact(ix.manifest, ix.tombstones, Inputs(ix, plan));
      && r.meta.id.Compacted? && r.manifest == Others(ix.manifest, InputIds(Inputs(ix, plan))) + [r.meta]
      && After(ix, CompactSplits(plan), k).manifest == if k < 2 then ix.manifest else r.manifest
  {
    hide MaxGeneration, Carried, DroppedIds, Superseded, Others, Inputs;
  }

  /** What the manifest may be after one more step. */
  lemma ManifestAfter(ix: Stored, op: FtsOp, k: nat)
    requires k <= NumWrites(ix, op)
    ensures var after := After(ix, op, k).manifest;
      || after == ix.manifest
      || ((op.Append? || op.Update?) && k >= 2 && exists sm: SplitMeta :: sm.id == Appended(NextSeq(ix.manifest)) && after == ix.manifest + [sm])
      || (op.CompactSplits? && exists plan, sm: SplitMeta :: sm.id.Compacted? && after == Others(ix.manifest, plan) + [sm])
  {
    hide NextSeq, MaxGeneration, Carried, DroppedIds, Superseded;
    match op
    case Append(docs) => assert NewSplit(ix, docs).id == Appended(NextSeq(ix.manifest));
    case Update(_, docs) => assert NewSplit(ix, docs).id == Appended(NextSeq(ix.manifest));
    case CompactSplits(plan) =>
      CompactManifest(ix, plan, k);
    case _ =>
  }

  /** Over every run with crashes: the numbers written so far leave no gap, the next one is at
      most one past them, and every manifest lists appended splits in ascending number. */
  lemma {:induction false} RunNumbers(steps: seq<IndexStep>)
    ensures var ix, minted := IndexRun(NewIndex, steps), Minted(steps);
      && AppendedAscend(ix.manifest) && ListsOnly(ix.manifest, minted)
      && NextSeq(ix.manifest) <= Top(minted)
      && (forall m: nat :: m in minted <==> m < Top(minted))
    decreases |steps|
  {
    hide FtsIndex.After, NextSeq, Top, NumWrites;
    if steps == [] {
      NewNumbers();
    } else {
      var past, s := steps[..|steps| - 1], steps[|steps| - 1];
      RunNumbers(past);
      var ix := IndexRun(NewIndex, past);
      ManifestAfter(ix, s.op, Done(ix, s));
      MintKeeps(Minted(past), NextSeq(ix.manifest));
      ManifestKeeps(ix.manifest, IndexRun(NewIndex, steps).manifest, Minted(past), Minted(steps));
      NextSeqBelow(IndexRun(NewIndex, steps).manifest, Minted(steps));
    }
  }

  lemma NewNumbers()
    ensures Minted([]) == [] && Top([]) == 0 && NextSeq(NewIndex.manifest) == 0
  {
  }

  lemma MintKeeps(minted: seq<nat>, n: nat)
    requires (forall m: nat :: m in minted <==> m < Top(minted)) && n <= Top(minted)
    ensures forall m: nat :: m in minted + [n] <==> m < Top(minted + [n])
  {
    assert (minted + [n])[..|minted|] == minted;
  }

  lemma ManifestKeeps(before: Manifest, after: Manifest, minted: seq<nat>, minted': seq<nat>)
    requires AppendedAscend(before) && ListsOnly(before, minted) && forall m :: m in minted ==> m in minted'
    requires || after == before
             || (NextSeq(before) in minted' && exists sm: SplitMeta :: sm.id == Appended(NextSeq(before)) && after == before + [sm])
             || (exists plan, sm: SplitMeta :: sm.id.Compacted? && after == Others(before, plan) + [sm])
    ensures AppendedAscend(after) && ListsOnly(after, minted')
  {
    hide NextSeq;
    if after != before {
      if sm: SplitMeta :| sm.id == Appended(NextSeq(before)) && after == before + [sm] && NextSeq(before) in minted' {
        assert forall i :: 0 <= i < |before| ==> before[i] in before;
      } else {
        var plan, sm: SplitMeta :| sm.id.Compacted? && after == Others(before, plan) + [sm];
        OthersAscend(before, plan);
      }
    }
  }

  lemma NextSeqBelow(manifest: Manifest, minted: seq<nat>)
    requires ListsOnly(manifest, minted)
    ensures NextSeq(manifest) <= Top(minted)
  {
    hide NextSeq, Top;
    NextSeqAttained(manifest);
    if NextSeq(manifest) > 0 {
      assert NextSeq(manifest) - 1 in minted;
    }
  }

  // ---- The next name ----

  /** The highest number written so far is still listed. */
  predicate LastIsListed(steps: seq<IndexStep>) {
    var top := Top(Minted(steps));
    top == 0 || Lists(IndexRun(NewIndex, steps).manifest, Appended(top - 1))
  }

  /** The next number is a new one exactly if the last is still listed, or there is none. */
  lemma NextIsNewExactly(steps: seq<IndexStep>)
    ensures NextSeq(IndexRun(NewIndex, steps).manifest) == Top(Minted(steps)) <==> LastIsListed(steps)
  {
    hide IndexRun, Minted, NextSeq, Top, Lists;
    RunNumbers(steps);
    var manifest, top := IndexRun(NewIndex, steps).manifest, Top(Minted(steps));
    NextSeqAttained(manifest);
    if top > 0 {
      ListsIn(manifest, Appended(top - 1));
    }
  }

  /** In any run with crashes, the name of the next appended split sorts after the names of all
      those written before exactly if none was, or the manifest still lists the highest-numbered
      one and six digits are enough for the next number, or it is all nines but for its last
      digit. */
  lemma NextNameIsLastExactly(steps: seq<IndexStep>)
    ensures var next := NextSeq(IndexRun(NewIndex, steps).manifest);
      (forall m :: m in Minted(steps) ==> SplitBefore(m, next))
      <==> Minted(steps) == [] || (LastIsListed(steps) && NameIsLast(next))
  {
    hide IndexRun, Minted, NextSeq, Top, SplitBefore, NameIsLast, LastIsListed;
    RunNumbers(steps);
    NextIsNewExactly(steps);
    var minted, next := Minted(steps), NextSeq(IndexRun(NewIndex, steps).manifest);
    if next < Top(minted) {
      assert next in minted;
      NotBeforeItself(next);
    } else {
      LastNameExactly(next);
    }
  }

  lemma NotBeforeItself(n: nat)
    ensures !SplitBefore(n, n)
  {
    hide Less;
    LessIrreflexive(BlobName(Appended(n)));
  }

  // ---- All names of a run ----

  /** Every split was written while the one before it was still listed. */
  ghost predicate NeverStartsOver(steps: seq<IndexStep>) {
    forall i :: 0 <= i < |steps| && Mints(IndexRun(NewIndex, steps[..i]), steps[i]) ==> LastIsListed(steps[..i])
  }

  predicate Counts(s: seq<nat>) {
    forall i :: 0 <= i < |s| ==> s[i] == i
  }

  lemma {:induction false} CountsTop(s: seq<nat>)
    requires Counts(s)
    ensures Top(s) == |s|
    decreases |s|
  {
    if s != [] {
      CountsTop(s[..|s| - 1]);
    }
  }

  lemma {:induction false} CountsExactly(steps: seq<IndexStep>)
    ensures Counts(Minted(steps)) <==> NeverStartsOver(steps)
    decreases |steps|
  {
    hide IndexRun, NextSeq, Top, Mints, LastIsListed;
    if steps != [] {
      var n := |steps| - 1;
      var past, s := steps[..n], steps[n];
      CountsExactly(past);
      OverSnoc(steps);
      NextIsNewExactly(past);
      var minted, next := Minted(past), NextSeq(IndexRun(NewIndex, past).manifest);
      assert minted + [] == minted;
      if Counts(minted) {
        CountsTop(minted);
        assert (minted + [next])[|minted|] == next;
        assert Counts(minted + [next]) <==> next == |minted|;
      } else {
        CountsPrefix(minted, Minted(steps));
      }
    }
  }

  lemma CountsPrefix(s: seq<nat>, t: seq<nat>)
    requires s <= t
    ensures Counts(t) ==> Counts(s)
  {
  }

  lemma OverSnoc(steps: seq<IndexStep>)
    requires steps != []
    ensures var past, s := steps[..|steps| - 1], steps[|steps| - 1];
      NeverStartsOver(steps) <==> NeverStartsOver(past) && (Mints(IndexRun(NewIndex, past), s) ==> LastIsListed(past))
  {
    hide IndexRun, Mints, LastIsListed;
    var n := |steps| - 1;
    var past := steps[..n];
    forall i | 0 <= i < n
      ensures past[..i] == steps[..i] && past[i] == steps[i]
    {
    }
    assert steps[..n] == past;
  }

  ghost predicate NamesInTurn(s: seq<nat>) {
    forall i, j :: 0 <= i < j < |s| ==> SplitBefore(s[i], s[j])
  }

  /** Names that ascend never repeat a number, so a gapless run of them counts up. */
  lemma {:induction false} AscendingCounts(steps: seq<IndexStep>)
    requires NamesInTurn(Minted(steps))
    ensures Counts(Minted(steps))
    decreases |steps|
  {
    hide IndexRun, NextSeq, Top, SplitBefore;
    if steps != [] {
      var past := steps[..|steps| - 1];
      var minted := Minted(past);
      assert NamesInTurn(minted) by {
        assert forall i :: 0 <= i < |minted| ==> Minted(steps)[i] == minted[i];
      }
      AscendingCounts(past);
      CountsTop(minted);
      RunNumbers(past);
      var next := NextSeq(IndexRun(NewIndex, past).manifest);
      if next < |minted| && |Minted(steps)| > |minted| {
        assert Minted(steps)[next] == next && Minted(steps)[|minted|] == next;
        NotBeforeItself(next);
      }
    }
  }

  /** The names of the appended splits of a run sort in the order these were written exactly if
      each was written while the one before was still listed, and there are at most a million. */
  lemma NamesSortByCreation(steps: seq<IndexStep>)
    ensures NamesInTurn(Minted(steps)) <==> NeverStartsOver(steps) && |Minted(steps)| <= 1_000_000
  {
    hide Minted, SplitBefore, NeverStartsOver;
    var minted := Minted(steps);
    CountsExactly(steps);
    NamesSortByNumber(|minted|);
    if NamesInTurn(minted) {
      AscendingCounts(steps);
      forall a: nat, b: nat | a < b < |minted|
        ensures SplitBefore(a, b)
      {
        assert minted[a] == a && minted[b] == b;
      }
    }
  }

  // ---- After a compaction ----

  /** Once a compaction of every split has written its manifest, the numbers start at zero. */
  lemma FullCompactionStartsOver(ix: Stored, plan: set<SplitId>, k: nat, docs: seq<Doc>)
    requires CoversAll(ix.manifest, plan) && 2 <= k <= NumWrites(ix, CompactSplits(plan))
    ensures NewSplit(After(ix, CompactSplits(plan), k), docs).id == Appended(0)
  {
    hide Carried, DroppedIds, Superseded, MaxGeneration, FtsIndex.After, Compact, NumWrites;
    AllInputs(ix.manifest, ix.blobs, plan);
    NothingElse(ix.manifest, InputIds(Inputs(ix, plan)));
    CompactManifest(ix, plan, k);
    var r := Compact(ix.manifest, ix.tombstones, Inputs(ix, plan));
    assert r.manifest == [r.meta] && r.manifest[..0] == [];
    assert NextSeq([]) == 0;
  }

  lemma RunSnoc(steps: seq<IndexStep>, s: IndexStep)
    ensures var ix := IndexRun(NewIndex, steps);
      && IndexRun(NewIndex, steps + [s]) == After(ix, s.op, Done(ix, s))
      && Minted(steps + [s]) == Minted(steps) + if Mints(ix, s) then [NextSeq(ix.manifest)] else []
  {
    hide FtsIndex.After, NextSeq, Mints, NumWrites;
    assert (steps + [s])[..|steps|] == steps;
  }

  lemma AppendOne(ix: Stored, docs: seq<Doc>)
    ensures After(ix, FtsOp.Append(docs), 2).manifest == ix.manifest + [NewSplit(ix, docs)]
    ensures NewSplit(ix, docs).id == Appended(NextSeq(ix.manifest))
    ensures NextSeq(ix.manifest + [NewSplit(ix, docs)]) == NextSeq(ix.manifest) + 1
  {
    assert (ix.manifest + [NewSplit(ix, docs)])[..|ix.manifest|] == ix.manifest;
  }

  lemma FourSteps(s1: IndexStep, s2: IndexStep, s3: IndexStep, s4: IndexStep)
    ensures var ix1 := After(NewIndex, s1.op, Done(NewIndex, s1));
      var ix2 := After(ix1, s2.op, Done(ix1, s2));
      var ix3 := After(ix2, s3.op, Done(ix2, s3));
      Mints(NewIndex, s1) && Mints(ix1, s2) && !Mints(ix2, s3) && Mints(ix3, s4) ==>
        Minted([s1, s2, s3, s4]) == [NextSeq(NewIndex.manifest), NextSeq(ix1.manifest), NextSeq(ix3.manifest)]
  {
    hide FtsIndex.After, NextSeq, IndexRun, Minted, Mints, NumWrites;
    NewRun();
    NewNumbers();
    RunSnoc([], s1);
    RunSnoc([s1], s2);
    RunSnoc([s1, s2], s3);
    RunSnoc([s1, s2, s3], s4);
    assert [] + [s1] == [s1] && [s1] + [s2] == [s1, s2] && [s1, s2] + [s3] == [s1, s2, s3];
    assert [s1, s2, s3] + [s4] == [s1, s2, s3, s4];
  }

  /** Two appends, a compaction of both, and one more: the third split has the name of the first,
      which sorts before the second. */
  lemma CompactionBreaksOrder(a: seq<Doc>, b: seq<Doc>, c: seq<Doc>) returns (steps: seq<IndexStep>)
    ensures steps == [IndexStep(FtsOp.Append(a), 2), IndexStep(FtsOp.Append(b), 2),
                      IndexStep(CompactSplits({Appended(0), Appended(1)}), 3), IndexStep(FtsOp.Append(c), 2)]
    ensures Minted(steps) == [0, 1, 0] && SplitBefore(0, 1) && !NamesInTurn(Minted(steps))
  {
    hide FtsIndex.After, NextSeq, SplitBefore, NewSplit, IndexRun, Minted, Compact;
    var plan := {Appended(0), Appended(1)};
    var s1, s2, s3, s4 := IndexStep(FtsOp.Append(a), 2), IndexStep(FtsOp.Append(b), 2),
                          IndexStep(CompactSplits(plan), 3), IndexStep(FtsOp.Append(c), 2);
    NewNumbers();
    AppendOne(NewIndex, a);
    var ix1 := After(NewIndex, s1.op, 2);
    AppendOne(ix1, b);
    var ix2 := After(ix1, s2.op, 2);
    assert ix2.manifest == [NewSplit(NewIndex, a), NewSplit(ix1, b)];
    FullCompactionStartsOver(ix2, plan, 3, c);
    AppendOne(After(ix2, s3.op, 3), c);
    FourSteps(s1, s2, s3, s4);
    steps := [s1, s2, s3, s4];
    LastNameExactly(1);
    NotBeforeItself(0);
    assert Minted(steps)[0] == 0 == Minted(steps)[2];
  }

  lemma NewRun()
    ensures IndexRun(NewIndex, []) == NewIndex
  {
  }

  // ---- Generations ----

  /** How many steps of a run wrote a manifest. */
  function ManifestWrites(steps: seq<IndexStep>): nat
    decreases |steps|
  {
    if steps == [] then 0
    else
      var past, s := steps[..|steps| - 1], steps[|steps| - 1];
      ManifestWrites(past) + if WritesManifest(IndexRun(NewIndex, past), s) then 1 else 0
  }

  predicate WritesManifest(ix: Stored, s: IndexStep) {
    (s.op.Append? || s.op.Update? || s.op.CompactSplits?) && Done(ix, s) >= 2
  }

  lemma {:induction false} MaxGenerationIs(manifest: Manifest, g: nat)
    requires (forall sm :: sm in manifest ==> sm.generation <= g) && exists sm :: sm in manifest && sm.generation == g
    ensures MaxGeneration(manifest) == g
  {
  }

  lemma {:induction false} OthersIn(manifest: Manifest, plan: set<SplitId>)
    ensures forall sm :: sm in Others(manifest, plan) ==> sm in manifest
    decreases |manifest|
  {
    if manifest != [] {
      OthersIn(manifest[..|manifest| - 1], plan);
    }
  }

  lemma StepGeneration(ix: Stored, s: IndexStep)
    ensures MaxGeneration(After(ix, s.op, Done(ix, s)).manifest)
         == MaxGeneration(ix.manifest) + if WritesManifest(ix, s) then 1 else 0
  {
    hide MaxGeneration, NextSeq, Carried, DroppedIds, Superseded, Others, OpenedOf;
    var after := After(ix, s.op, Done(ix, s));
    var g := MaxGeneration(ix.manifest) + 1;
    if WritesManifest(ix, s) {
      match s.op {
        case CompactSplits(plan) =>
          CompactManifest(ix, plan, Done(ix, s));
          OthersIn(ix.manifest, InputIds(Inputs(ix, plan)));
        case _ =>
      }
      assert after.manifest[|after.manifest| - 1].generation == g;
      assert after.manifest[|after.manifest| - 1] in after.manifest;
      MaxGenerationIs(after.manifest, g);
    }
  }

  /** The largest generation counts the manifests written, over every run with crashes. */
  lemma {:induction false} GenerationsCount(steps: seq<IndexStep>)
    ensures MaxGeneration(IndexRun(NewIndex, steps).manifest) == ManifestWrites(steps)
    decreases |steps|
  {
    hide FtsIndex.After, MaxGeneration, WritesManifest;
    if steps == [] {
      NoGenerations();
    } else {
      GenerationsCount(steps[..|steps| - 1]);
      StepGeneration(IndexRun(NewIndex, steps[..|steps| - 1]), steps[|steps| - 1]);
    }
  }

  lemma NoGenerations()
    ensures MaxGeneration(NewIndex.manifest) == 0
  {
  }
}

/** Searching the durable index in any state that its operations can reach. */
module FtsSearch {
  import opened Bytes
  import opened Splits
  import opened Compaction
  import opened FtsIndex
  import opened FtsMeaning
  import opened Search
  import M = MergedSearch

  // ---- Each split has each id once ----

  ghost predicate SplitsDistinct(ix: Stored) {
    forall sm :: sm in ix.manifest ==> DistinctIds(DocsOf(ix.blobs, sm.id))
  }

  /** Documents that are all live, and live once, have different ids. */
  lemma OneEachDistinct(docs: seq<Doc>, m: Docs)
    requires forall d :: multiset(docs)[d] <= One(m, d)
    ensures DistinctIds(docs)
  {
    forall i, j | 0 <= i < j < |docs|
      ensures docs[i].id != docs[j].id
    {
      assert docs[i] in multiset(docs) && docs[j] in multiset(docs);
      if docs[i] == docs[j] {
        Twice(docs, i, j);
      }
    }
  }

  lemma CarriedDistinct(ix: Stored, plan: set<SplitId>, m: Docs)
    requires Refines(ix, m)
    ensures DistinctIds(Carried(Inputs(ix, plan), ix.tombstones))
  {
    hide Live, Carried, OpenedOf, Others;
    LivePartition(ix.manifest, ix.tombstones, ix.blobs, plan);
    var docs := Carried(Inputs(ix, plan), ix.tombstones);
    forall d
      ensures multiset(docs)[d] <= One(m, d)
    {
      assert LiveOf(ix)[d] == One(m, d);
    }
    OneEachDistinct(docs, m);
  }

  /** Splits already named keep their documents; a split newly named has distinct ids. */
  lemma WriteDistinct(ix: Stored, m: Docs, op: FtsOp, k: nat)
    requires SplitsSound(ix) && Refines(ix, m) && Valid(ix, op) && k <= NumWrites(ix, op) && Allowed(m, op, k)
    requires SplitsDistinct(ix)
    ensures SplitsDistinct(After(ix, op, k))
  {
    hide Refines, LiveOf, DistinctIds, NextSeq, MaxGeneration, DeleteDocsAt, Compact, NewIds, Lists, Base;
    match op
    case Append(docs) => PutsDistinct(ix, docs, [], k);
    case Update(oldIds, docs) => PutsDistinct(ix, docs, oldIds, k);
    case Delete(_) =>
    case CompactSplits(plan) =>
      CompactDistinct(ix, plan, if k <= 3 then k else 3, m);
      if k > 3 {
        var r := Compact(ix.manifest, ix.tombstones, Inputs(ix, plan));
        SupersededGone(ix, plan);
        AfterThree(ix, r);
        RemovedDistinct(AfterCompactPuts(ix, r, 3), r.superseded, k - 3);
      }
    case Collect(keys) => RemovedDistinct(ix, keys, k);
  }

  lemma PutsDistinct(ix: Stored, docs: seq<Doc>, oldIds: seq<Text>, k: nat)
    requires SplitsDistinct(ix) && (k >= 2 ==> DistinctIds(docs))
    ensures SplitsDistinct(AfterPuts(ix, docs, oldIds, k))
  {
    hide DistinctIds, NextSeq, MaxGeneration, DeleteDocsAt;
    var sm := NewSplit(ix, docs);
    assert forall x :: x in ix.manifest ==> x.id != sm.id;
  }

  lemma CompactDistinct(ix: Stored, plan: set<SplitId>, k: nat, m: Docs)
    requires SplitsSound(ix) && SplitsDistinct(ix) && Refines(ix, m) && k <= 3
    ensures SplitsDistinct(AfterCompactPuts(ix, Compact(ix.manifest, ix.tombstones, Inputs(ix, plan)), k))
  {
    hide DistinctIds, Carried, OpenedOf, Others, Superseded, DroppedIds, MaxGeneration, IdsOf, InputIds, Refines;
    CarriedDistinct(ix, plan, m);
    FreshName(ix, plan);
    InputIdsOf(ix, plan);
    OthersAre(ix.manifest, plan);
  }

  lemma RemovedDistinct(ix: Stored, keys: seq<SplitId>, j: nat)
    requires SplitsDistinct(ix) && j <= |keys| && forall key :: key in keys ==> !Lists(ix.manifest, key)
    ensures SplitsDistinct(Removed(ix, keys, j))
  {
    hide DistinctIds, Lists;
    forall sm | sm in ix.manifest
      ensures DocsOf(Removed(ix, keys, j).blobs, sm.id) == DocsOf(ix.blobs, sm.id)
    {
      ListsIn(ix.manifest, sm.id);
      assert forall key :: key in keys[..j] ==> key in keys;
    }
  }

  lemma {:induction false} RunDistinct(steps: seq<IndexStep>)
    requires RunAllowed(NewIndex, map[], steps)
    ensures SplitsDistinct(IndexRun(NewIndex, steps))
    decreases |steps|
  {
    hide Refines, SplitsSound, Scoped, FtsIndex.After, Meaning, Allowed, Valid, SplitsDistinct;
    if steps == [] {
      NothingDistinct();
    } else {
      var n := |steps| - 1;
      var past, s := steps[..n], steps[n];
      PastAllowed(steps);
      RunDistinct(past);
      RunRefines(past);
      assert StepAllowed(NewIndex, map[], past, s);
      var before := IndexRun(NewIndex, past);
      WriteDistinct(before, RunMeaning(NewIndex, map[], past), s.op, Done(before, s));
    }
  }

  lemma NothingDistinct()
    ensures SplitsDistinct(NewIndex)
  {
  }

  lemma PastAllowed(steps: seq<IndexStep>)
    requires steps != [] && RunAllowed(NewIndex, map[], steps)
    ensures RunAllowed(NewIndex, map[], steps[..|steps| - 1])
  {
    hide StepAllowed;
    var past := steps[..|steps| - 1];
    forall i | 0 <= i < |past|
      ensures StepAllowed(NewIndex, map[], past[..i], past[i])
    {
      assert steps[..i] == past[..i];
      assert StepAllowed(NewIndex, map[], steps[..i], steps[i]);
    }
  }

  // ---- Searching it ----

  /** The splits of the manifest, opened, with the documents of each that match, by rank. A
      match is addressed by the position of its document. */
  ghost predicate IsSearchOf(ix: Stored, handles: seq<Handle>) {
    && |handles| == |ix.manifest|
    && forall i :: 0 <= i < |handles| ==> IsMatchesOf(ix, ix.manifest[i], handles[i])
  }

  ghost predicate IsMatchesOf(ix: Stored, sm: SplitMeta, h: Handle) {
    && h.generation == sm.generation
    && Ranked(HitsOf(0, h.ranked))
    && (forall i, j :: 0 <= i < j < |h.ranked| ==> h.ranked[i].doc != h.ranked[j].doc)
    && (forall mt :: mt in h.ranked ==> IsMatchOf(DocsOf(ix.blobs, sm.id), mt))
  }

  predicate IsMatchOf(docs: seq<Doc>, mt: Match) {
    mt.doc < |docs| && docs[mt.doc].id == mt.id
  }

  lemma MatchesWellRanked(ix: Stored, sm: SplitMeta, h: Handle)
    requires IsMatchesOf(ix, sm, h) && DistinctIds(DocsOf(ix.blobs, sm.id))
    ensures WellRanked(h)
  {
    hide Ranked;
    forall i, j | 0 <= i < j < |h.ranked|
      ensures h.ranked[i].id != h.ranked[j].id
    {
      assert h.ranked[i] in h.ranked && h.ranked[j] in h.ranked;
    }
  }

  /** The document behind a live candidate. */
  function DocAt(ix: Stored, c: M.Candidate): Doc
    requires c.hit.split < |ix.manifest| && c.hit.doc < |DocsOf(ix.blobs, ix.manifest[c.hit.split].id)|
  {
    DocsOf(ix.blobs, ix.manifest[c.hit.split].id)[c.hit.doc]
  }

  ghost predicate IsLiveAt(ix: Stored, c: M.Candidate) {
    && c.hit.split < |ix.manifest| && c.hit.doc < |DocsOf(ix.blobs, ix.manifest[c.hit.split].id)|
    && DocAt(ix, c).id == c.id && !IsDeletedAt(ix.tombstones, c.id, ix.manifest[c.hit.split].generation)
  }

  lemma {:induction false} CandidatesLive(ix: Stored, handles: seq<Handle>, n: nat)
    requires IsSearchOf(ix, handles) && n <= |handles|
    ensures forall c :: c in M.AllLive(handles[..n], ix.tombstones) ==> c.hit.split < n && IsLiveAt(ix, c)
    decreases n
  {
    hide LiveMatches, IsDeletedAt, DocsOf, Ranked;
    if n > 0 {
      CandidatesLive(ix, handles, n - 1);
      var h := handles[n - 1];
      assert handles[..n][..n - 1] == handles[..n - 1];
      var live := LiveMatches(h.ranked, ix.tombstones, h.generation);
      var cs := M.CandidatesOf(n - 1, h, live);
      forall c | c in cs
        ensures c.hit.split < n && IsLiveAt(ix, c)
      {
        var i :| 0 <= i < |cs| && cs[i] == c;
        InLive(h.ranked, ix.tombstones, h.generation, live[i]);
      }
    }
  }

  /** The live copies count each live position. */
  lemma {:induction false} LiveCounts(manifest: Manifest, tombs: Tombstones, blobs: Blobs, i: nat, d: Doc)
    requires i < |manifest| && d in DocsOf(blobs, manifest[i].id) && !IsDeletedAt(tombs, d.id, manifest[i].generation)
    ensures Live(manifest, tombs, blobs)[d] >= 1
    decreases |manifest|
  {
    hide DocsOf, IsDeletedAt, LiveDocs, Live;
    var n := |manifest| - 1;
    LiveUnfold(manifest, tombs, blobs, d);
    if i < n {
      LiveCounts(manifest[..n], tombs, blobs, i, d);
    } else {
      LiveDocsAre(DocsOf(blobs, manifest[n].id), tombs, manifest[n].generation, d);
    }
  }

  lemma {:induction false} LiveCountsTwo(manifest: Manifest, tombs: Tombstones, blobs: Blobs, i: nat, j: nat, d: Doc)
    requires i < j < |manifest|
    requires d in DocsOf(blobs, manifest[i].id) && !IsDeletedAt(tombs, d.id, manifest[i].generation)
    requires d in DocsOf(blobs, manifest[j].id) && !IsDeletedAt(tombs, d.id, manifest[j].generation)
    ensures Live(manifest, tombs, blobs)[d] >= 2
    decreases |manifest|
  {
    hide DocsOf, IsDeletedAt, LiveDocs, Live;
    var n := |manifest| - 1;
    LiveUnfold(manifest, tombs, blobs, d);
    if j < n {
      LiveCountsTwo(manifest[..n], tombs, blobs, i, j, d);
    } else {
      LiveCounts(manifest[..n], tombs, blobs, i, d);
      LiveDocsAre(DocsOf(blobs, manifest[n].id), tombs, manifest[n].generation, d);
    }
  }

  /** A live candidate is a document of the map. */
  lemma CandidateInMap(ix: Stored, m: Docs, c: M.Candidate)
    requires Refines(ix, m) && IsLiveAt(ix, c)
    ensures c.id in m && m[c.id] == DocAt(ix, c).body
  {
    hide Live, IsDeletedAt;
    var d := DocAt(ix, c);
    LiveCounts(ix.manifest, ix.tombstones, ix.blobs, c.hit.split, d);
    assert LiveOf(ix)[d] == One(m, d);
  }

  /** No id is live in two splits. */
  lemma OneSplit(ix: Stored, m: Docs, a: M.Candidate, b: M.Candidate)
    requires Refines(ix, m) && IsLiveAt(ix, a) && IsLiveAt(ix, b) && a.hit.split < b.hit.split
    ensures a.id != b.id
  {
    hide Live, IsDeletedAt, Refines;
    if a.id == b.id {
      CandidateInMap(ix, m, a);
      CandidateInMap(ix, m, b);
      LiveCountsTwo(ix.manifest, ix.tombstones, ix.blobs, a.hit.split, b.hit.split, DocAt(ix, a));
      AtMostOne(ix, m, DocAt(ix, a));
    }
  }

  lemma AtMostOne(ix: Stored, m: Docs, d: Doc)
    requires Refines(ix, m)
    ensures LiveOf(ix)[d] <= 1
  {
    hide Live;
    assert LiveOf(ix)[d] == One(m, d);
  }

  lemma {:induction false} CandidatesDistinct(ix: Stored, m: Docs, handles: seq<Handle>, n: nat)
    requires IsSearchOf(ix, handles) && Refines(ix, m) && n <= |handles|
    requires forall i :: 0 <= i < |handles| ==> WellRanked(handles[i])
    ensures M.DistinctIds(M.AllLive(handles[..n], ix.tombstones))
    decreases n
  {
    hide LiveMatches, IsDeletedAt, Refines, IsSearchOf, IsLiveAt, WellRanked;
    if n > 0 {
      CandidatesDistinct(ix, m, handles, n - 1);
      CandidatesLive(ix, handles, n - 1);
      CandidatesLive(ix, handles, n);
      var h := handles[n - 1];
      assert handles[..n][..n - 1] == handles[..n - 1];
      var before := M.AllLive(handles[..n - 1], ix.tombstones);
      var cs := M.CandidatesOf(n - 1, h, LiveMatches(h.ranked, ix.tombstones, h.generation));
      LiveIdsDistinct(h.ranked, ix.tombstones, h.generation, h);
      forall a, b | a in before && b in cs
        ensures a.id != b.id
      {
        assert b in before + cs && b.hit.split == n - 1;
        OneSplit(ix, m, a, b);
      }
      CandidateIds(n - 1, h, LiveMatches(h.ranked, ix.tombstones, h.generation));
      ApartDistinct(before, cs);
    }
  }

  lemma ApartDistinct(a: seq<M.Candidate>, b: seq<M.Candidate>)
    requires M.DistinctIds(a) && M.DistinctIds(b) && forall x, y :: x in a && y in b ==> x.id != y.id
    ensures M.DistinctIds(a + b)
  {
    forall i, j | 0 <= i < j < |a + b|
      ensures (a + b)[i].id != (a + b)[j].id
    {
      if i < |a| <= j {
        assert a[i] in a && b[j - |a|] in b;
      }
    }
  }

  lemma MatchSnoc(ms: seq<Match>, mt: Match)
    requires DistinctMatches(ms) && forall i :: 0 <= i < |ms| ==> ms[i].id != mt.id
    ensures DistinctMatches(ms + [mt])
  {
  }

  lemma NoMatches(tombs: Tombstones, g: nat)
    ensures DistinctMatches(LiveMatches([], tombs, g))
  {
  }

  lemma CandidateIds(n: nat, h: Handle, ms: seq<Match>)
    requires DistinctMatches(ms)
    ensures M.DistinctIds(M.CandidatesOf(n, h, ms))
  {
  }

  lemma {:induction false} LiveIdsDistinct(ms: seq<Match>, tombs: Tombstones, g: nat, h: Handle)
    requires WellRanked(h) && ms <= h.ranked
    ensures DistinctMatches(LiveMatches(ms, tombs, g))
    decreases |ms|
  {
    hide IsDeletedAt, Ranked, DistinctMatches;
    if ms == [] {
      NoMatches(tombs, g);
    } else {
      var n := |ms| - 1;
      LiveIdsDistinct(ms[..n], tombs, g, h);
      var live := LiveMatches(ms[..n], tombs, g);
      forall i | 0 <= i < |live|
        ensures live[i].id != ms[n].id
      {
        InLive(ms[..n], tombs, g, live[i]);
        assert live[i] in ms[..n];
        var k :| 0 <= k < n && ms[k] == live[i];
        assert h.ranked[k].id != h.ranked[n].id;
      }
      MatchSnoc(live, ms[n]);
    }
  }

  /** In every state reached by an allowed run, with crashes, the filtered search returns the
      best `limit` of all matches that are live, and those are documents of the map. */
  lemma SearchIsComplete(steps: seq<IndexStep>, handles: seq<Handle>, limit: nat)
    requires RunAllowed(NewIndex, map[], steps) && IsSearchOf(IndexRun(NewIndex, steps), handles)
    ensures var tombs := IndexRun(NewIndex, steps).tombstones;
            M.Filtered(handles, tombs, limit) == Take(SortHits(M.HitsOnly(M.AllLive(handles, tombs))), limit)
    ensures var ix := IndexRun(NewIndex, steps);
            forall c :: c in M.AllLive(handles, ix.tombstones) ==>
              IsLiveAt(ix, c) && c.id in RunMeaning(NewIndex, map[], steps)
              && RunMeaning(NewIndex, map[], steps)[c.id] == DocAt(ix, c).body
  {
    hide IndexRun, RunMeaning, RunAllowed, Refines, M.Filtered, M.AllLive, SortHits, WellRanked, IsDeletedAt,
         IsMatchesOf, DistinctIds, M.DistinctIds, SplitsSound, Scoped;
    var ix, m := IndexRun(NewIndex, steps), RunMeaning(NewIndex, map[], steps);
    RunRefines(steps);
    RunDistinct(steps);
    forall i | 0 <= i < |handles|
      ensures WellRanked(handles[i])
    {
      assert ix.manifest[i] in ix.manifest;
      MatchesWellRanked(ix, ix.manifest[i], handles[i]);
    }
    assert handles[..|handles|] == handles;
    CandidatesDistinct(ix, m, handles, |handles|);
    CandidatesLive(ix, handles, |handles|);
    M.FilteredIsComplete(handles, ix.tombstones, limit);
    forall c | c in M.AllLive(handles, ix.tombstones)
      ensures IsLiveAt(ix, c)
      ensures c.id in m && IsLiveAt(ix, c) && m[c.id] == DocAt(ix, c).body
    {
      CandidateInMap(ix, m, c);
    }
  }
}

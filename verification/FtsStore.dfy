/** The mutators of the durable index, as they run: each loads the manifest and the
    tombstones, changes them, and persists split, manifest and tombstones in that order. */
module FtsStore {
  import opened Outcomes
  import opened Splits
  import opened SplitNames
  import opened Compaction
  import opened FtsIndex
  import Bytes

  type Text = Bytes.Text

  // ---- Policy ----

  datatype Policy = Policy(maxSplits: nat, maxTombstoneRatio: real, minSplitsToMerge: nat)

  function NumDocs(manifest: Manifest): nat
    decreases |manifest|
  {
    if manifest == [] then 0 else NumDocs(manifest[..|manifest| - 1]) + manifest[|manifest| - 1].numDocs
  }

  function TombstoneRatio(manifest: Manifest, tombs: Tombstones): real {
    if NumDocs(manifest) == 0 then 0.0 else |tombs| as real / NumDocs(manifest) as real
  }

  predicate ShouldCompact(p: Policy, manifest: Manifest, tombs: Tombstones) {
    && |manifest| >= p.minSplitsToMerge
    && (|manifest| > p.maxSplits || TombstoneRatio(manifest, tombs) > p.maxTombstoneRatio)
  }

  /** Every split, when the policy fires. */
  function Plan(p: Policy, manifest: Manifest, tombs: Tombstones): set<SplitId> {
    if ShouldCompact(p, manifest, tombs) then set sm | sm in manifest :: sm.id else {}
  }

  /** When the policy fires, by counts alone. */
  ghost predicate Due(p: Policy, manifest: Manifest, tombs: Tombstones) {
    && |manifest| >= 1 && |manifest| >= p.minSplitsToMerge
    && (|| |manifest| > p.maxSplits
        || (if NumDocs(manifest) == 0 then p.maxTombstoneRatio < 0.0
            else |tombs| as real > p.maxTombstoneRatio * NumDocs(manifest) as real))
  }

  lemma RatioIs(tombs: int, docs: int, ratio: real)
    requires docs > 0
    ensures tombs as real / docs as real > ratio <==> tombs as real > ratio * docs as real
  {
    var q := tombs as real / docs as real;
    assert q * docs as real == tombs as real;
    if q > ratio {
      assert (q - ratio) * docs as real > 0.0;
    } else {
      assert (ratio - q) * docs as real >= 0.0;
    }
  }

  /** A compaction is planned exactly when it is due, and then of every split. */
  lemma PlanExactly(p: Policy, manifest: Manifest, tombs: Tombstones)
    ensures Plan(p, manifest, tombs) != {} <==> Due(p, manifest, tombs)
    ensures Due(p, manifest, tombs) ==> forall sm :: sm in manifest ==> sm.id in Plan(p, manifest, tombs)
  {
    if NumDocs(manifest) > 0 {
      RatioIs(|tombs|, NumDocs(manifest), p.maxTombstoneRatio);
    }
    if manifest != [] {
      assert manifest[0] in manifest;
      if ShouldCompact(p, manifest, tombs) {
        assert manifest[0].id in Plan(p, manifest, tombs);
      }
    }
  }

  /** The documents counted are all the copies there are, hidden or not. */
  lemma {:induction false} NumDocsCounts(manifest: Manifest, blobs: Blobs)
    requires forall sm :: sm in manifest ==> sm.numDocs == |DocsOf(blobs, sm.id)|
    ensures NumDocs(manifest) == |Live(manifest, map[], blobs)|
    decreases |manifest|
  {
    hide LiveDocs, DocsOf;
    if manifest != [] {
      var n := |manifest| - 1;
      NumDocsCounts(manifest[..n], blobs);
      assert manifest[n] in manifest;
      AllLive(DocsOf(blobs, manifest[n].id), manifest[n].generation);
    }
  }

  lemma {:induction false} AllLive(docs: seq<Doc>, g: nat)
    ensures LiveDocs(docs, map[], g) == docs
    decreases |docs|
  {
    if docs != [] {
      AllLive(docs[..|docs| - 1], g);
    }
  }

  // ---- The store ----

  datatype Summary = Summary(split: SplitId, superseded: nat, deletedBlobs: nat)

  /** The states after each write of an operation. */
  function States(ix: Stored, op: FtsOp): seq<Stored> {
    StatesTo(ix, op, NumWrites(ix, op))
  }

  function StatesTo(ix: Stored, op: FtsOp, n: nat): (s: seq<Stored>)
    requires n <= NumWrites(ix, op)
    ensures |s| == n
  {
    if n == 0 then [] else StatesTo(ix, op, n - 1) + [After(ix, op, n)]
  }

  lemma FewStates(ix: Stored, op: FtsOp)
    ensures StatesTo(ix, op, 0) == []
    ensures NumWrites(ix, op) >= 1 ==> StatesTo(ix, op, 1) == [After(ix, op, 1)]
    ensures NumWrites(ix, op) >= 2 ==> StatesTo(ix, op, 2) == [After(ix, op, 1), After(ix, op, 2)]
    ensures NumWrites(ix, op) >= 3 ==> StatesTo(ix, op, 3) == [After(ix, op, 1), After(ix, op, 2), After(ix, op, 3)]
  {
    hide After, NumWrites;
  }

  function Least(a: nat, b: nat): nat {
    if a <= b then a else b
  }

  /** The object store under one index. Where a mutator takes `accepted`, the object store fails
      after that many of its writes, and the mutator stops there with an error. */
  class Index {
    var store: Stored
    /** Every state the store has been in, for crash points. */
    ghost var history: seq<Stored>

    constructor ()
      ensures store == NewIndex && history == []
    {
      store, history := NewIndex, [];
    }

    method PutBlob(id: SplitId, docs: seq<Doc>)
      modifies this
      ensures store == old(store).(blobs := old(store).blobs[id := docs]) && history == old(history) + [store]
    {
      store := store.(blobs := store.blobs[id := docs]);
      history := history + [store];
    }

    method DeleteBlob(id: SplitId)
      modifies this
      ensures store == old(store).(blobs := old(store).blobs - {id}) && history == old(history) + [store]
    {
      store := store.(blobs := store.blobs - {id});
      history := history + [store];
    }

    method PersistManifest(manifest: Manifest)
      modifies this
      ensures store == old(store).(manifest := manifest) && history == old(history) + [store]
    {
      store := store.(manifest := manifest);
      history := history + [store];
    }

    method PersistTombstones(tombs: Tombstones)
      modifies this
      ensures store == old(store).(tombstones := tombs) && history == old(history) + [store]
    {
      store := store.(tombstones := tombs);
      history := history + [store];
    }

    method Append(docs: seq<Doc>, accepted: nat) returns (id: Option<SplitId>)
      modifies this
      ensures var op := FtsOp.Append(docs);
              var n := Least(accepted, NumWrites(old(store), op));
              && history == old(history) + StatesTo(old(store), op, n)
              && store == After(old(store), op, n)
      ensures id == if accepted >= 2 then Some(NewSplit(old(store), docs).id) else None
    {
      hide StatesTo, MaxGeneration, NextSeq;
      FewStates(store, FtsOp.Append(docs));
      if accepted == 0 {
        return None;
      }
      var sm := NewSplit(store, docs);
      PutBlob(sm.id, docs);
      if accepted == 1 {
        return None;
      }
      PersistManifest(store.manifest + [sm]);
      id := Some(sm.id);
    }

    method Update(oldIds: seq<Text>, docs: seq<Doc>, accepted: nat) returns (id: Option<SplitId>)
      modifies this
      ensures var op := FtsOp.Update(oldIds, docs);
              var n := Least(accepted, NumWrites(old(store), op));
              && history == old(history) + StatesTo(old(store), op, n)
              && store == After(old(store), op, n)
      ensures id == if accepted >= 3 then Some(NewSplit(old(store), docs).id) else None
    {
      hide StatesTo, MaxGeneration, NextSeq;
      FewStates(store, FtsOp.Update(oldIds, docs));
      if accepted == 0 {
        return None;
      }
      var tombs := DeleteAll(store.tombstones, oldIds, MaxGeneration(store.manifest));
      var sm := NewSplit(store, docs);
      PutBlob(sm.id, docs);
      if accepted == 1 {
        return None;
      }
      PersistManifest(store.manifest + [sm]);
      if accepted == 2 {
        return None;
      }
      PersistTombstones(tombs);
      id := Some(sm.id);
    }

    method Delete(ids: seq<Text>, accepted: nat) returns (ok: bool)
      modifies this
      ensures var op := FtsOp.Delete(ids);
              var n := Least(accepted, NumWrites(old(store), op));
              && history == old(history) + StatesTo(old(store), op, n)
              && store == After(old(store), op, n)
      ensures ok <==> accepted >= 1
    {
      hide StatesTo, MaxGeneration;
      FewStates(store, FtsOp.Delete(ids));
      if accepted == 0 {
        return false;
      }
      var tombs := DeleteAll(store.tombstones, ids, MaxGeneration(store.manifest));
      PersistTombstones(tombs);
      ok := true;
    }

    /** Deletes blobs one by one. */
    method GcKeys(keys: seq<SplitId>, ghost states: seq<Stored>) returns (deleted: nat)
      requires |states| == |keys| && forall j :: 0 <= j < |keys| ==> states[j] == Removed(store, keys, j + 1)
      modifies this
      ensures history == old(history) + states && store == Removed(old(store), keys, |keys|) && deleted == |keys|
    {
      ghost var before := store;
      deleted := 0;
      RemovedNone(before, keys);
      for j := 0 to |keys|
        invariant deleted == j && store == Removed(before, keys, j)
        invariant history == old(history) + states[..j]
      {
        RemovedNext(before, keys, j);
        DeleteBlob(keys[j]);
        deleted := deleted + 1;
        assert states[..j + 1] == states[..j] + [states[j]];
      }
      assert states[..|keys|] == states;
    }

    /** Compacts the planned splits: new split, manifest and tombstones before any delete. */
    method MaybeCompact(policy: Policy) returns (r: Option<Summary>)
      modifies this
      ensures var plan := Plan(policy, old(store).manifest, old(store).tombstones);
              if plan == {} then r == None && store == old(store) && history == old(history)
              else
                var op := CompactSplits(plan);
                && r.Some? && IsSummary(old(store), store, r.value)
                && history == old(history) + States(old(store), op)
                && store == After(old(store), op, NumWrites(old(store), op))
    {
      hide Removed, AfterCompactPuts, Compact;
      var plan := Plan(policy, store.manifest, store.tombstones);
      if plan == {} {
        return None;
      }
      ghost var before, op := store, CompactSplits(plan);
      var inputs := Inputs(store, plan);
      var c := RunCompactor(store.manifest, store.tombstones, inputs);
      CompactStates(before, plan);
      PutsAre(before, c);
      PutBlob(c.meta.id, c.docs);
      PersistManifest(c.manifest);
      PersistTombstones(c.tombstones);
      ghost var at := store;
      ghost var states := seq(|c.superseded|, j requires 0 <= j < |c.superseded| => Removed(at, c.superseded, j + 1));
      var deleted := GcKeys(c.superseded, states);
      RemovedNone(AfterCompactPuts(before, c, 3), c.superseded);
      r := Some(Summary(c.meta.id, |c.superseded|, deleted));
      PlannedAll(before, policy);
      RemovedNamesSame(at, c.superseded);
    }

    /** The split blobs there are, in the order of their names. */
    method ListBlobs() returns (ids: seq<SplitId>)
      ensures NamesAscend(ids) && forall id :: id in ids <==> id in store.blobs
    {
      hide BlobName, Bytes.Less;
      forall a, b | a in store.blobs && b in store.blobs && BlobName(a) == BlobName(b)
        ensures a == b
      {
        NamesDistinct(a, b);
      }
      var byName := map id | id in store.blobs :: BlobName(id) := id;
      var names := Bytes.Sort(byName.Keys);
      ids := [];
      for i := 0 to |names|
        invariant |ids| == i && forall k :: 0 <= k < i ==> ids[k] in store.blobs && BlobName(ids[k]) == names[k]
      {
        assert names[i] in names;
        ids := ids + [byName[names[i]]];
      }
      forall id | id in store.blobs
        ensures id in ids
      {
        assert BlobName(id) in byName.Keys;
        var k :| 0 <= k < |names| && names[k] == BlobName(id);
        assert ids[k] == id;
      }
    }

    /** Deletes the split blobs that a manifest, as the caller loaded it, does not name, in the
        order of their names, and reports them. */
    method GcOrphanedSplits(manifest: Manifest) returns (orphaned: seq<SplitId>)
      modifies this
      ensures NamesAscend(orphaned) && forall id :: id in orphaned <==> id in Orphans(old(store).blobs, manifest)
      ensures var op := Collect(orphaned);
              && history == old(history) + States(old(store), op)
              && store == After(old(store), op, NumWrites(old(store), op))
      ensures store == Collected(old(store), manifest)
    {
      hide BlobName, Bytes.Less;
      ghost var before := store;
      var present := ListBlobs();
      orphaned := [];
      for i := 0 to |present|
        invariant forall id :: id in orphaned <==> id in present[..i] && !Lists(manifest, id)
        invariant NamesAscend(orphaned)
        invariant store == before && history == old(history)
      {
        assert present[..i + 1] == present[..i] + [present[i]];
        if !Lists(manifest, present[i]) {
          LaterName(present, i, orphaned);
          orphaned := orphaned + [present[i]];
        }
      }
      assert present[..|present|] == present;
      ghost var op := Collect(orphaned);
      assert StatesTo(before, op, 0) == [];
      RemovedNone(before, orphaned);
      for j := 0 to |orphaned|
        invariant store == Removed(before, orphaned, j) && history == old(history) + StatesTo(before, op, j)
      {
        RemovedNext(before, orphaned, j);
        DeleteBlob(orphaned[j]);
      }
      assert (set key | key in orphaned[..|orphaned|]) == Orphans(before.blobs, manifest);
    }
  }

  ghost predicate NamesAscend(ids: seq<SplitId>) {
    forall i, j :: 0 <= i < j < |ids| ==> Bytes.Less(BlobName(ids[i]), BlobName(ids[j]))
  }

  lemma LaterName(present: seq<SplitId>, i: nat, before: seq<SplitId>)
    requires i < |present| && NamesAscend(present) && NamesAscend(before) && forall id :: id in before ==> id in present[..i]
    ensures NamesAscend(before + [present[i]])
  {
    hide BlobName, Bytes.Less;
    forall k | 0 <= k < |before|
      ensures Bytes.Less(BlobName(before[k]), BlobName(present[i]))
    {
      assert before[k] in present[..i];
      var q :| 0 <= q < i && present[q] == before[k];
    }
  }

  /** The one split left in the manifest, and how many there were before, all now deleted. */
  ghost predicate IsSummary(before: Stored, after: Stored, r: Summary) {
    && |after.manifest| == 1 && after.manifest[0].id == r.split && r.split.Compacted?
    && r.superseded == |before.manifest| == r.deletedBlobs
  }

  lemma PlannedAll(ix: Stored, p: Policy)
    requires Plan(p, ix.manifest, ix.tombstones) != {}
    ensures var r := Compact(ix.manifest, ix.tombstones, Inputs(ix, Plan(p, ix.manifest, ix.tombstones)));
            r.manifest == [r.meta] && r.meta.id.Compacted? && |r.superseded| == |ix.manifest|
  {
    hide Carried, DroppedIds, MaxGeneration;
    var plan := Plan(p, ix.manifest, ix.tombstones);
    AllInputs(ix.manifest, ix.blobs, plan);
    NothingElse(ix.manifest, InputIds(Inputs(ix, plan)));
    AllSuperseded(ix.manifest, InputIds(Inputs(ix, plan)));
  }

  lemma RemovedNamesSame(ix: Stored, keys: seq<SplitId>)
    ensures Removed(ix, keys, |keys|).manifest == ix.manifest
  {
  }

  lemma RemovedNone(ix: Stored, keys: seq<SplitId>)
    ensures Removed(ix, keys, 0) == ix
  {
    assert (set key | key in keys[..0]) == {};
  }

  lemma RemovedNext(ix: Stored, keys: seq<SplitId>, j: nat)
    requires j < |keys|
    ensures var at := Removed(ix, keys, j);
            Removed(ix, keys, j + 1) == at.(blobs := at.blobs - {keys[j]})
  {
    assert keys[..j + 1] == keys[..j] + [keys[j]];
  }

  lemma PutsAre(ix: Stored, r: Outcome)
    ensures AfterCompactPuts(ix, r, 1) == ix.(blobs := ix.blobs[r.meta.id := r.docs])
    ensures AfterCompactPuts(ix, r, 2) == AfterCompactPuts(ix, r, 1).(manifest := r.manifest)
    ensures AfterCompactPuts(ix, r, 3) == AfterCompactPuts(ix, r, 2).(tombstones := r.tombstones)
  {
  }

  /** The writes of a compaction: three puts, then the deletes in order. */
  lemma CompactStates(ix: Stored, plan: set<SplitId>)
    ensures var r := Compact(ix.manifest, ix.tombstones, Inputs(ix, plan));
            var at := AfterCompactPuts(ix, r, 3);
            States(ix, CompactSplits(plan))
            == [AfterCompactPuts(ix, r, 1), AfterCompactPuts(ix, r, 2), at]
               + seq(|r.superseded|, j requires 0 <= j < |r.superseded| => Removed(at, r.superseded, j + 1))
  {
    hide Compact, AfterCompactPuts, Removed;
    CompactStatesTo(ix, plan, NumWrites(ix, CompactSplits(plan)));
  }

  lemma {:induction false} CompactStatesTo(ix: Stored, plan: set<SplitId>, n: nat)
    requires 3 <= n <= NumWrites(ix, CompactSplits(plan))
    ensures var r := Compact(ix.manifest, ix.tombstones, Inputs(ix, plan));
            var at := AfterCompactPuts(ix, r, 3);
            StatesTo(ix, CompactSplits(plan), n)
            == [AfterCompactPuts(ix, r, 1), AfterCompactPuts(ix, r, 2), at]
               + seq(n - 3, j requires 0 <= j < n - 3 => Removed(at, r.superseded, j + 1))
    decreases n
  {
    hide Compact, AfterCompactPuts, Removed;
    var op := CompactSplits(plan);
    if n == 3 {
      assert StatesTo(ix, op, 1) == [After(ix, op, 1)];
      assert StatesTo(ix, op, 2) == [After(ix, op, 1), After(ix, op, 2)];
    } else {
      CompactStatesTo(ix, plan, n - 1);
    }
  }

  // ---- Orphans ----

  function Orphans(blobs: Blobs, manifest: Manifest): set<SplitId> {
    set id | id in blobs && !Lists(manifest, id)
  }

  /** The index without the blobs that `manifest` does not name. */
  function Collected(ix: Stored, manifest: Manifest): Stored {
    ix.(blobs := ix.blobs - Orphans(ix.blobs, manifest))
  }

  /** However an operation was cut short, collecting the orphans afterwards leaves exactly the
      splits the manifest names, with their contents, and the same live documents. */
  lemma CollectAfterCrash(ix: Stored, op: FtsOp, k: nat, d: Doc)
    requires SplitsSound(ix) && Scoped(ix) && Valid(ix, op) && k <= NumWrites(ix, op)
    ensures var at := After(ix, op, k);
            var clean := Collected(at, at.manifest);
            && (forall id :: id in clean.blobs <==> Lists(clean.manifest, id))
            && (forall id :: id in clean.blobs ==> clean.blobs[id] == at.blobs[id])
            && SplitsSound(clean) && Scoped(clean) && LiveOf(clean)[d] == Copies(ix, op, k, d)
  {
    hide Live, FtsIndex.After, NumWrites, Lists, Copies, MaxGeneration;
    EveryWrite(ix, op, k, d);
    var at := After(ix, op, k);
    var clean := Collected(at, at.manifest);
    forall id | Lists(at.manifest, id)
      ensures id in at.blobs
    {
      ListsIn(at.manifest, id);
    }
    forall sm | sm in at.manifest
      ensures sm.id in clean.blobs && DocsOf(clean.blobs, sm.id) == DocsOf(at.blobs, sm.id)
    {
      ListsIn(at.manifest, sm.id);
    }
    LiveSame(at.manifest, at.tombstones, at.blobs, at.tombstones, clean.blobs);
  }

  /** Collecting against a manifest that may be stale leaves an index that opens exactly if the
      stale manifest names every split the current one does; then nothing live is lost. */
  lemma StaleCollectExactly(ix: Stored, manifest: Manifest)
    requires SplitsSound(ix)
    ensures Opens(Collected(ix, manifest)) <==> forall sm :: sm in ix.manifest ==> Lists(manifest, sm.id)
    ensures Opens(Collected(ix, manifest)) ==> SplitsSound(Collected(ix, manifest)) && LiveOf(Collected(ix, manifest)) == LiveOf(ix)
  {
    hide Lists, Live;
    var clean := Collected(ix, manifest);
    forall sm | sm in ix.manifest
      ensures sm.id in clean.blobs <==> Lists(manifest, sm.id)
    {
    }
    if Opens(clean) {
      forall sm | sm in ix.manifest
        ensures DocsOf(clean.blobs, sm.id) == DocsOf(ix.blobs, sm.id)
      {
      }
      LiveSame(ix.manifest, ix.tombstones, ix.blobs, ix.tombstones, clean.blobs);
    }
  }

  /** A collection whose manifest was loaded before an append completed deletes the new split,
      which the manifest by then names. */
  lemma CollectRacesAppend(ix: Stored, docs: seq<Doc>)
    ensures var after := After(ix, FtsOp.Append(docs), 2);
            && Lists(after.manifest, NewSplit(ix, docs).id)
            && NewSplit(ix, docs).id !in Collected(after, ix.manifest).blobs
            && !Opens(Collected(after, ix.manifest))
  {
    hide MaxGeneration, NextSeq;
    var sm := NewSplit(ix, docs);
    var after := After(ix, FtsOp.Append(docs), 2);
    assert after.manifest[|ix.manifest|] == sm;
    assert forall i :: 0 <= i < |ix.manifest| ==> ix.manifest[i] in ix.manifest;
    assert sm in after.manifest;
  }
}

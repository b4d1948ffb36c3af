/** The durable index: append, update, delete, compaction and garbage collection, each a
    sequence of single writes to the blob store, and the plain map from ids to documents
    that the index means. */
module FtsIndex {
  import opened Bytes
  import opened Splits
  import opened Compaction

  datatype FtsOp =
    | Append(docs: seq<Doc>)
    | Update(oldIds: seq<Text>, docs: seq<Doc>)
    | Delete(ids: seq<Text>)
    | CompactSplits(plan: set<SplitId>)
    | Collect(keys: seq<SplitId>)

  // ---- Operations as sequences of writes ----

  function NewSplit(ix: Stored, docs: seq<Doc>): SplitMeta {
    SplitMeta(Appended(NextSeq(ix.manifest)), |docs|, MaxGeneration(ix.manifest) + 1)
  }

  /** The index with the blobs of the first `j` keys deleted. */
  function Removed(ix: Stored, keys: seq<SplitId>, j: nat): Stored
    requires j <= |keys|
  {
    ix.(blobs := ix.blobs - (set key | key in keys[..j]))
  }

  function NumWrites(ix: Stored, op: FtsOp): nat {
    match op
    case Append(_) => 2
    case Update(_, _) => 3
    case Delete(_) => 1
    case CompactSplits(plan) => 3 + |Compact(ix.manifest, ix.tombstones, Inputs(ix, plan)).superseded|
    case Collect(keys) => |keys|
  }

  /** The stored state after the first `k` writes of an operation. */
  function After(ix: Stored, op: FtsOp, k: nat): Stored
    requires k <= NumWrites(ix, op)
  {
    match op
    case Append(docs) => AfterPuts(ix, docs, [], k)
    case Update(oldIds, docs) => AfterPuts(ix, docs, oldIds, k)
    case Delete(ids) =>
      if k == 0 then ix else ix.(tombstones := DeleteDocsAt(ix.tombstones, ids, MaxGeneration(ix.manifest)))
    case CompactSplits(plan) =>
      var r := Compact(ix.manifest, ix.tombstones, Inputs(ix, plan));
      if k <= 3 then AfterCompactPuts(ix, r, k) else Removed(AfterCompactPuts(ix, r, 3), r.superseded, k - 3)
    case Collect(keys) => Removed(ix, keys, k)
  }

  /** The split first, then the manifest that names it, then the tombstones. */
  function AfterPuts(ix: Stored, docs: seq<Doc>, oldIds: seq<Text>, k: nat): Stored {
    var sm := NewSplit(ix, docs);
    Stored(if k >= 2 then ix.manifest + [sm] else ix.manifest,
           if k >= 3 then DeleteDocsAt(ix.tombstones, oldIds, MaxGeneration(ix.manifest)) else ix.tombstones,
           if k >= 1 then ix.blobs[sm.id := docs] else ix.blobs)
  }

  function AfterCompactPuts(ix: Stored, r: Outcome, k: nat): Stored {
    Stored(if k >= 2 then r.manifest else ix.manifest,
           if k >= 3 then r.tombstones else ix.tombstones,
           if k >= 1 then ix.blobs[r.meta.id := r.docs] else ix.blobs)
  }

  /** Garbage collection is given blobs the manifest does not name. */
  ghost predicate Valid(ix: Stored, op: FtsOp) {
    op.Collect? ==> forall key :: key in op.keys ==> !Lists(ix.manifest, key)
  }

  /** How many live copies of a document there are after the first `k` writes. */
  ghost function Copies(ix: Stored, op: FtsOp, k: nat, d: Doc): nat {
    var now := LiveOf(ix)[d];
    match op
    case Append(docs) => if k < 2 then now else now + multiset(docs)[d]
    case Update(oldIds, docs) =>
      if k < 2 then now
      else if k < 3 || d.id !in oldIds then now + multiset(docs)[d]
      else multiset(docs)[d]
    case Delete(ids) => if k == 0 || d.id !in ids then now else 0
    case _ => now
  }

  // ---- Appends and updates ----

  lemma {:induction false} ListsIn(manifest: Manifest, id: SplitId)
    ensures Lists(manifest, id) <==> exists sm :: sm in manifest && sm.id == id
  {
    if Lists(manifest, id) {
      var i :| 0 <= i < |manifest| && manifest[i].id == id;
      assert manifest[i] in manifest;
    }
    if sm :| sm in manifest && sm.id == id {
      var i :| 0 <= i < |manifest| && manifest[i] == sm;
    }
  }

  lemma MaxSnoc(manifest: Manifest, sm: SplitMeta)
    requires sm.generation > MaxGeneration(manifest)
    ensures MaxGeneration(manifest + [sm]) == sm.generation
  {
    assert (manifest + [sm])[..|manifest|] == manifest;
  }

  lemma PutsSound(ix: Stored, docs: seq<Doc>, oldIds: seq<Text>, k: nat)
    requires SplitsSound(ix)
    ensures SplitsSound(AfterPuts(ix, docs, oldIds, k))
  {
    hide NextSeq, MaxGeneration, DeleteDocsAt;
    var sm := NewSplit(ix, docs);
    assert forall x :: x in ix.manifest ==> x.id != sm.id;
    var after := AfterPuts(ix, docs, oldIds, k);
    forall i, j | 0 <= i < j < |after.manifest|
      ensures after.manifest[i].id != after.manifest[j].id
    {
      assert ix.manifest[i] in ix.manifest;
    }
  }

  ghost predicate Bounded(tombs: Tombstones, bound: nat) {
    forall id :: id in tombs ==> tombs[id] <= bound
  }

  lemma {:induction false} TombBound(tombs: Tombstones, ids: seq<Text>, g: nat)
    requires Bounded(tombs, g)
    ensures Bounded(DeleteDocsAt(tombs, ids, g), g)
    decreases |ids|
  {
    if ids != [] {
      TombBound(tombs, ids[..|ids| - 1], g);
      TombBoundOne(DeleteDocsAt(tombs, ids[..|ids| - 1], g), ids[|ids| - 1], g);
    }
  }

  lemma TombBoundOne(tombs: Tombstones, id: Text, g: nat)
    requires Bounded(tombs, g)
    ensures Bounded(DeleteDocAt(tombs, id, g), g)
  {
  }

  lemma PutsScoped(ix: Stored, docs: seq<Doc>, oldIds: seq<Text>, k: nat)
    requires Scoped(ix)
    ensures Scoped(AfterPuts(ix, docs, oldIds, k))
  {
    hide NextSeq, MaxGeneration, DeleteDocsAt;
    var sm := NewSplit(ix, docs);
    var g := MaxGeneration(ix.manifest);
    MaxSnoc(ix.manifest, sm);
    TombBound(ix.tombstones, oldIds, g);
  }

  lemma DeletesKeepNew(ix: Stored, ids: seq<Text>, docs: seq<Doc>)
    requires Scoped(ix)
    ensures var g := MaxGeneration(ix.manifest);
            && LiveDocs(docs, DeleteDocsAt(ix.tombstones, ids, g), g + 1) == docs
            && LiveDocs(docs, ix.tombstones, g + 1) == docs
  {
    hide DeleteDocsAt;
    var g := MaxGeneration(ix.manifest);
    TombBound(ix.tombstones, ids, g);
    AllLive(docs, DeleteDocsAt(ix.tombstones, ids, g), g + 1);
    AllLive(docs, ix.tombstones, g + 1);
  }

  lemma PutsLive(ix: Stored, docs: seq<Doc>, oldIds: seq<Text>, k: nat, d: Doc)
    requires SplitsSound(ix) && Scoped(ix)
    ensures LiveOf(AfterPuts(ix, docs, oldIds, k))[d]
         == (if k >= 3 && d.id in oldIds then 0 else LiveOf(ix)[d]) + if k >= 2 then multiset(docs)[d] else 0
  {
    hide NextSeq, MaxGeneration, DeleteDocsAt, Live, LiveDocs, IsDeletedAt;
    var sm := NewSplit(ix, docs);
    var g := MaxGeneration(ix.manifest);
    var after := AfterPuts(ix, docs, oldIds, k);
    assert forall x :: x in ix.manifest ==> x.id != sm.id;
    LiveSame(ix.manifest, ix.tombstones, ix.blobs, ix.tombstones, after.blobs);
    if k >= 2 {
      LiveSnoc(ix.manifest, sm, after.tombstones, after.blobs);
      DeletesKeepNew(ix, oldIds, docs);
      if k >= 3 {
        LiveAfterDelete(ix.manifest, ix.tombstones, after.blobs, oldIds, g, d);
      }
    }
  }

  // ---- Compaction and collection ----

  lemma RemovedFrame(ix: Stored, keys: seq<SplitId>, j: nat)
    requires SplitsSound(ix) && j <= |keys| && forall key :: key in keys ==> !Lists(ix.manifest, key)
    ensures SplitsSound(Removed(ix, keys, j)) && LiveOf(Removed(ix, keys, j)) == LiveOf(ix)
  {
    hide Lists, Live;
    var after := Removed(ix, keys, j);
    forall sm | sm in ix.manifest
      ensures sm.id in after.blobs && DocsOf(after.blobs, sm.id) == DocsOf(ix.blobs, sm.id)
    {
      ListsIn(ix.manifest, sm.id);
      assert forall key :: key in keys[..j] ==> key in keys;
    }
    LiveSame(ix.manifest, ix.tombstones, ix.blobs, ix.tombstones, after.blobs);
  }

  lemma CompactPutsKeep(ix: Stored, plan: set<SplitId>, k: nat)
    requires SplitsSound(ix) && k <= 3
    ensures var r := Compact(ix.manifest, ix.tombstones, Inputs(ix, plan));
            var after := AfterCompactPuts(ix, r, k);
            && SplitsSound(after) && LiveOf(after) == LiveOf(ix) && (Scoped(ix) ==> Scoped(after))
  {
    hide Carried, OpenedOf, Others, Superseded, Live, DroppedIds, MaxGeneration, IdsOf, InputIds;
    var r := Compact(ix.manifest, ix.tombstones, Inputs(ix, plan));
    var after := AfterCompactPuts(ix, r, k);
    FreshName(ix, plan);
    InputIdsOf(ix, plan);
    OthersAre(ix.manifest, plan);
    if k < 2 {
      LiveSame(ix.manifest, ix.tombstones, ix.blobs, ix.tombstones, after.blobs);
    } else {
      CompactLive(ix, plan, after.tombstones, after.blobs);
      CompactedUnique(ix, plan, r);
      CompactedMax(ix.manifest, plan, r.meta);
    }
  }

  lemma CompactedUnique(ix: Stored, plan: set<SplitId>, r: Outcome)
    requires SplitsSound(ix) && r.manifest == Others(ix.manifest, plan) + [r.meta]
    requires r.meta.id == Compacted(MaxGeneration(ix.manifest) + 1)
    ensures UniqueIds(r.manifest)
  {
    hide Others, MaxGeneration;
    FreshName(ix, plan);
    OthersAre(ix.manifest, plan);
    var others := Others(ix.manifest, plan);
    forall i | 0 <= i < |others|
      ensures others[i].id != r.meta.id
    {
      assert others[i] in others;
    }
  }

  lemma CompactedMax(manifest: Manifest, plan: set<SplitId>, meta: SplitMeta)
    requires meta.generation == MaxGeneration(manifest) + 1
    ensures MaxGeneration(Others(manifest, plan) + [meta]) == meta.generation
  {
    hide Others;
    OthersAre(manifest, plan);
    var others := Others(manifest, plan);
    assert forall sm :: sm in others ==> sm.generation <= MaxGeneration(manifest);
    MaxSnoc(others, meta);
  }

  /** What the compactor supersedes, the new manifest does not name. */
  lemma SupersededGone(ix: Stored, plan: set<SplitId>)
    requires SplitsSound(ix)
    ensures var r := Compact(ix.manifest, ix.tombstones, Inputs(ix, plan));
            forall key :: key in r.superseded ==> !Lists(r.manifest, key)
  {
    hide Carried, OpenedOf, Others, Superseded, DroppedIds, MaxGeneration, IdsOf, InputIds, Lists;
    var r := Compact(ix.manifest, ix.tombstones, Inputs(ix, plan));
    FreshName(ix, plan);
    InputIdsOf(ix, plan);
    OthersAre(ix.manifest, plan);
    forall key | key in r.superseded
      ensures !Lists(r.manifest, key)
    {
      ListsIn(ix.manifest, key);
      ListsIn(r.manifest, key);
    }
  }

  // ---- Every write of every operation ----

  /** At every point of every operation, the splits the manifest names exist, and the live
      copies are as `Copies` says: those of before, or those of after, but for one moment of
      an update in which the new copies show beside the old. */
  lemma EveryWrite(ix: Stored, op: FtsOp, k: nat, d: Doc)
    requires SplitsSound(ix) && Scoped(ix) && Valid(ix, op) && k <= NumWrites(ix, op)
    ensures SplitsSound(After(ix, op, k)) && Scoped(After(ix, op, k))
    ensures LiveOf(After(ix, op, k))[d] == Copies(ix, op, k, d)
  {
    hide Live, SplitsSound, Scoped, DeleteDocsAt, MaxGeneration, Compact, Inputs, AfterPuts, AfterCompactPuts;
    match op
    case Append(docs) =>
      PutsSound(ix, docs, [], k);
      PutsScoped(ix, docs, [], k);
      PutsLive(ix, docs, [], k, d);
    case Update(oldIds, docs) =>
      PutsSound(ix, docs, oldIds, k);
      PutsScoped(ix, docs, oldIds, k);
      PutsLive(ix, docs, oldIds, k, d);
    case Delete(ids) =>
      DeleteKeeps(ix, ids, d);
    case CompactSplits(plan) =>
      var r := Compact(ix.manifest, ix.tombstones, Inputs(ix, plan));
      if k <= 3 {
        CompactPutsKeep(ix, plan, k);
      } else {
        CompactPutsKeep(ix, plan, 3);
        SupersededGone(ix, plan);
        AfterThree(ix, r);
        RemovedFrame(AfterCompactPuts(ix, r, 3), r.superseded, k - 3);
        RemovedScoped(AfterCompactPuts(ix, r, 3), r.superseded, k - 3);
      }
    case Collect(keys) =>
      RemovedFrame(ix, keys, k);
      RemovedScoped(ix, keys, k);
  }

  lemma AfterThree(ix: Stored, r: Outcome)
    ensures AfterCompactPuts(ix, r, 3).manifest == r.manifest
  {
  }

  lemma RemovedScoped(ix: Stored, keys: seq<SplitId>, j: nat)
    requires Scoped(ix) && j <= |keys|
    ensures Scoped(Removed(ix, keys, j))
  {
  }

  lemma DeleteKeeps(ix: Stored, ids: seq<Text>, d: Doc)
    requires SplitsSound(ix) && Scoped(ix)
    ensures var after := ix.(tombstones := DeleteDocsAt(ix.tombstones, ids, MaxGeneration(ix.manifest)));
            && SplitsSound(after) && Scoped(after)
            && LiveOf(after)[d] == if d.id in ids then 0 else LiveOf(ix)[d]
  {
    hide DeleteDocsAt, Live, MaxGeneration;
    var g := MaxGeneration(ix.manifest);
    TombBound(ix.tombstones, ids, g);
    LiveAfterDelete(ix.manifest, ix.tombstones, ix.blobs, ids, g, d);
  }
}

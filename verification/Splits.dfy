/** The generational full-text index as stored: immutable splits named by a manifest, and
    deletes scoped to split generations. */
module Splits {
  import opened Bytes

  /** `split-NNNNNN` for an appended split, `compacted-NNNNNN` for a compacted one. */
  datatype SplitId = Appended(seqNo: nat) | Compacted(gen: nat)

  datatype SplitMeta = SplitMeta(id: SplitId, numDocs: nat, generation: nat)

  type Manifest = seq<SplitMeta>

  datatype Doc = Doc(id: Text, body: Text)

  /** For each deleted id, the generation at which it was deleted. */
  type Tombstones = map<Text, nat>

  type Blobs = map<SplitId, seq<Doc>>

  /** What the blob store holds for one index. */
  datatype Stored = Stored(manifest: Manifest, tombstones: Tombstones, blobs: Blobs)

  const NewIndex := Stored([], map[], map[])

  // ---- Manifest ----

  function MaxGeneration(manifest: Manifest): (g: nat)
    ensures forall sm :: sm in manifest ==> sm.generation <= g
    ensures g == 0 || exists sm :: sm in manifest && sm.generation == g
    decreases |manifest|
  {
    if manifest == [] then 0
    else
      var n := |manifest| - 1;
      var g := MaxGeneration(manifest[..n]);
      assert forall sm :: sm in manifest ==> sm in manifest[..n] || sm == manifest[n];
      if manifest[n].generation > g then manifest[n].generation else g
  }

  /** Past the highest number of an appended split in the manifest. */
  function NextSeq(manifest: Manifest): (s: nat)
    ensures forall sm :: sm in manifest && sm.id.Appended? ==> sm.id.seqNo < s
    decreases |manifest|
  {
    if manifest == [] then 0
    else
      var n := |manifest| - 1;
      var s := NextSeq(manifest[..n]);
      assert forall sm :: sm in manifest ==> sm in manifest[..n] || sm == manifest[n];
      if manifest[n].id.Appended? && manifest[n].id.seqNo >= s then manifest[n].id.seqNo + 1 else s
  }

  predicate Lists(manifest: Manifest, id: SplitId) {
    exists i :: 0 <= i < |manifest| && manifest[i].id == id
  }

  // ---- Tombstones ----

  /** Hidden if deleted at the split's generation or later. */
  predicate IsDeletedAt(tombs: Tombstones, id: Text, generation: nat) {
    id in tombs && generation <= tombs[id]
  }

  /** A later delete of the same id wins. */
  function DeleteDocAt(tombs: Tombstones, id: Text, generation: nat): (r: Tombstones)
    ensures forall i, g: nat :: IsDeletedAt(r, i, g) <==> IsDeletedAt(tombs, i, g) || (i == id && g <= generation)
  {
    tombs[id := if id in tombs && tombs[id] > generation then tombs[id] else generation]
  }

  function DeleteDocsAt(tombs: Tombstones, ids: seq<Text>, generation: nat): Tombstones
    decreases |ids|
  {
    if ids == [] then tombs
    else DeleteDocAt(DeleteDocsAt(tombs, ids[..|ids| - 1], generation), ids[|ids| - 1], generation)
  }

  lemma {:induction false} DeletedDocs(tombs: Tombstones, ids: seq<Text>, generation: nat, i: Text, g: nat)
    ensures IsDeletedAt(DeleteDocsAt(tombs, ids, generation), i, g)
       <==> IsDeletedAt(tombs, i, g) || (i in ids && g <= generation)
    decreases |ids|
  {
    hide IsDeletedAt;
    if ids != [] {
      DeletedDocs(tombs, ids[..|ids| - 1], generation, i, g);
      assert i in ids <==> i in ids[..|ids| - 1] || i == ids[|ids| - 1];
    }
  }

  method DeleteAll(tombs: Tombstones, ids: seq<Text>, generation: nat) returns (r: Tombstones)
    ensures r == DeleteDocsAt(tombs, ids, generation)
  {
    r := tombs;
    for i := 0 to |ids|
      invariant r == DeleteDocsAt(tombs, ids[..i], generation)
    {
      assert ids[..i + 1][..i] == ids[..i];
      r := DeleteDocAt(r, ids[i], generation);
    }
    assert ids[..|ids|] == ids;
  }

  // ---- Live documents ----

  /** The copies of a split that are not hidden, in order. */
  function LiveDocs(docs: seq<Doc>, tombs: Tombstones, generation: nat): (live: seq<Doc>)
    decreases |docs|
  {
    if docs == [] then []
    else
      var n := |docs| - 1;
      LiveDocs(docs[..n], tombs, generation)
      + if IsDeletedAt(tombs, docs[n].id, generation) then [] else [docs[n]]
  }

  function DocsOf(blobs: Blobs, id: SplitId): seq<Doc> {
    if id in blobs then blobs[id] else []
  }

  /** All copies a search can see. */
  function Live(manifest: Manifest, tombs: Tombstones, blobs: Blobs): multiset<Doc>
    decreases |manifest|
  {
    if manifest == [] then multiset{}
    else
      var n := |manifest| - 1;
      Live(manifest[..n], tombs, blobs)
      + multiset(LiveDocs(DocsOf(blobs, manifest[n].id), tombs, manifest[n].generation))
  }

  function LiveOf(ix: Stored): multiset<Doc> {
    Live(ix.manifest, ix.tombstones, ix.blobs)
  }

  /** Every split the manifest names exists. */
  ghost predicate Opens(ix: Stored) {
    forall sm :: sm in ix.manifest ==> sm.id in ix.blobs
  }

  ghost predicate UniqueIds(manifest: Manifest) {
    forall i, j :: 0 <= i < j < |manifest| ==> manifest[i].id != manifest[j].id
  }

  /** Kept by every operation: splits exist, are named once, and are counted right; a
      compacted split is named after its generation. */
  ghost predicate SplitsSound(ix: Stored) {
    && Opens(ix)
    && UniqueIds(ix.manifest)
    && (forall sm :: sm in ix.manifest ==> sm.numDocs == |DocsOf(ix.blobs, sm.id)|)
    && (forall sm :: sm in ix.manifest && sm.id.Compacted? ==> sm.generation == sm.id.gen)
  }

  /** No delete is newer than the newest split. (A tombstone of the old format, deleted at the
      largest generation there is, is not of this kind.) */
  ghost predicate Scoped(ix: Stored) {
    forall id :: id in ix.tombstones ==> ix.tombstones[id] <= MaxGeneration(ix.manifest)
  }

  // ---- What liveness depends on ----

  lemma {:induction false} LiveDocsSame(docs: seq<Doc>, t1: Tombstones, g1: nat, t2: Tombstones, g2: nat)
    requires forall d :: d in docs ==> (IsDeletedAt(t1, d.id, g1) <==> IsDeletedAt(t2, d.id, g2))
    ensures LiveDocs(docs, t1, g1) == LiveDocs(docs, t2, g2)
    decreases |docs|
  {
    hide IsDeletedAt;
    if docs != [] {
      var n := |docs| - 1;
      assert docs[n] in docs;
      assert forall d :: d in docs[..n] ==> d in docs;
      LiveDocsSame(docs[..n], t1, g1, t2, g2);
    }
  }

  lemma LiveDocsSnoc(docs: seq<Doc>, d: Doc, tombs: Tombstones, g: nat)
    ensures LiveDocs(docs + [d], tombs, g)
         == LiveDocs(docs, tombs, g) + if IsDeletedAt(tombs, d.id, g) then [] else [d]
  {
    assert (docs + [d])[..|docs|] == docs;
  }

  lemma {:induction false} LiveDocsAre(docs: seq<Doc>, tombs: Tombstones, g: nat, d: Doc)
    ensures d in LiveDocs(docs, tombs, g) <==> d in docs && !IsDeletedAt(tombs, d.id, g)
    ensures multiset(LiveDocs(docs, tombs, g))[d] == if IsDeletedAt(tombs, d.id, g) then 0 else multiset(docs)[d]
    decreases |docs|
  {
    hide IsDeletedAt;
    if docs != [] {
      var n := |docs| - 1;
      LiveDocsAre(docs[..n], tombs, g, d);
      assert docs == docs[..n] + [docs[n]];
    }
  }

  /** Liveness of a manifest depends on its splits and on what is deleted in them. */
  lemma {:induction false} LiveSame(manifest: Manifest, t1: Tombstones, b1: Blobs, t2: Tombstones, b2: Blobs)
    requires forall sm :: sm in manifest ==> DocsOf(b1, sm.id) == DocsOf(b2, sm.id)
    requires forall sm, d :: sm in manifest && d in DocsOf(b1, sm.id) ==>
      (IsDeletedAt(t1, d.id, sm.generation) <==> IsDeletedAt(t2, d.id, sm.generation))
    ensures Live(manifest, t1, b1) == Live(manifest, t2, b2)
    decreases |manifest|
  {
    hide IsDeletedAt, DocsOf, LiveDocs;
    if manifest != [] {
      var n := |manifest| - 1;
      assert manifest[n] in manifest;
      assert forall sm :: sm in manifest[..n] ==> sm in manifest;
      LiveSame(manifest[..n], t1, b1, t2, b2);
      LiveDocsSame(DocsOf(b1, manifest[n].id), t1, manifest[n].generation, t2, manifest[n].generation);
    }
  }

  lemma LiveSnoc(manifest: Manifest, sm: SplitMeta, tombs: Tombstones, blobs: Blobs)
    ensures Live(manifest + [sm], tombs, blobs)
         == Live(manifest, tombs, blobs) + multiset(LiveDocs(DocsOf(blobs, sm.id), tombs, sm.generation))
  {
    assert (manifest + [sm])[..|manifest|] == manifest;
  }

  lemma LiveUnfold(manifest: Manifest, tombs: Tombstones, blobs: Blobs, d: Doc)
    ensures manifest == [] ==> Live(manifest, tombs, blobs)[d] == 0
    ensures manifest != [] ==>
      var n := |manifest| - 1;
      Live(manifest, tombs, blobs)[d] == Live(manifest[..n], tombs, blobs)[d]
        + multiset(LiveDocs(DocsOf(blobs, manifest[n].id), tombs, manifest[n].generation))[d]
  {
  }

  /** Deleting at or above every generation hides the ids everywhere, and nothing else. */
  lemma {:induction false} LiveAfterDelete(manifest: Manifest, tombs: Tombstones, blobs: Blobs, ids: seq<Text>, g: nat, d: Doc)
    requires forall sm :: sm in manifest ==> sm.generation <= g
    ensures Live(manifest, DeleteDocsAt(tombs, ids, g), blobs)[d]
         == if d.id in ids then 0 else Live(manifest, tombs, blobs)[d]
    decreases |manifest|
  {
    hide IsDeletedAt, DocsOf, DeleteDocsAt, Live, LiveDocs;
    LiveUnfold(manifest, tombs, blobs, d);
    LiveUnfold(manifest, DeleteDocsAt(tombs, ids, g), blobs, d);
    if manifest != [] {
      var n := |manifest| - 1;
      var sm := manifest[n];
      assert sm in manifest;
      assert forall x :: x in manifest[..n] ==> x in manifest;
      LiveAfterDelete(manifest[..n], tombs, blobs, ids, g, d);
      LiveDocsAre(DocsOf(blobs, sm.id), tombs, sm.generation, d);
      LiveDocsAre(DocsOf(blobs, sm.id), DeleteDocsAt(tombs, ids, g), sm.generation, d);
      DeletedDocs(tombs, ids, g, d.id, sm.generation);
    }
  }
}

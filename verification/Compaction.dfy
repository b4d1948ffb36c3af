/** Compaction: folds splits into one that holds their live documents, rewrites the manifest,
    and clears the tombstones nothing can need any more. */
module Compaction {
  import opened Bytes
  import opened Splits

  /** A split opened for compaction, with its generation from the manifest. */
  datatype Opened = Opened(id: SplitId, generation: nat, docs: seq<Doc>)

  datatype Outcome = Outcome(docs: seq<Doc>, meta: SplitMeta, manifest: Manifest, tombstones: Tombstones,
                             superseded: seq<SplitId>)

  // ---- What compaction computes ----

  function Inputs(ix: Stored, plan: set<SplitId>): seq<Opened> {
    OpenedOf(ix.manifest, ix.blobs, plan)
  }

  /** The planned splits, in manifest order. */
  function OpenedOf(manifest: Manifest, blobs: Blobs, plan: set<SplitId>): seq<Opened>
    decreases |manifest|
  {
    if manifest == [] then []
    else
      var sm := manifest[|manifest| - 1];
      OpenedOf(manifest[..|manifest| - 1], blobs, plan)
      + if sm.id in plan then [Opened(sm.id, sm.generation, DocsOf(blobs, sm.id))] else []
  }

  function Others(manifest: Manifest, plan: set<SplitId>): Manifest
    decreases |manifest|
  {
    if manifest == [] then []
    else
      var sm := manifest[|manifest| - 1];
      Others(manifest[..|manifest| - 1], plan) + if sm.id in plan then [] else [sm]
  }

  function Superseded(manifest: Manifest, plan: set<SplitId>): seq<SplitId>
    decreases |manifest|
  {
    if manifest == [] then []
    else
      var sm := manifest[|manifest| - 1];
      Superseded(manifest[..|manifest| - 1], plan) + if sm.id in plan then [sm.id] else []
  }

  function InputIds(inputs: seq<Opened>): set<SplitId> {
    set o | o in inputs :: o.id
  }

  function Carried(inputs: seq<Opened>, tombs: Tombstones): seq<Doc>
    decreases |inputs|
  {
    if inputs == [] then []
    else
      var o := inputs[|inputs| - 1];
      Carried(inputs[..|inputs| - 1], tombs) + LiveDocs(o.docs, tombs, o.generation)
  }

  function IdsOf(docs: seq<Doc>): set<Text> {
    set d | d in docs :: d.id
  }

  function DeadIds(docs: seq<Doc>, tombs: Tombstones, generation: nat): set<Text> {
    set d | d in docs && IsDeletedAt(tombs, d.id, generation) :: d.id
  }

  function DroppedIds(inputs: seq<Opened>, tombs: Tombstones): set<Text>
    decreases |inputs|
  {
    if inputs == [] then {}
    else
      var o := inputs[|inputs| - 1];
      DroppedIds(inputs[..|inputs| - 1], tombs) + DeadIds(o.docs, tombs, o.generation)
  }

  predicate CoversAll(manifest: Manifest, ids: set<SplitId>) {
    forall sm :: sm in manifest ==> sm.id in ids
  }

  function Compact(manifest: Manifest, tombs: Tombstones, inputs: seq<Opened>): Outcome {
    var docs := Carried(inputs, tombs);
    var ids := InputIds(inputs);
    var generation := MaxGeneration(manifest) + 1;
    var meta := SplitMeta(Compacted(generation), |docs|, generation);
    Outcome(docs, meta, Others(manifest, ids) + [meta],
            if CoversAll(manifest, ids) then tombs - (DroppedIds(inputs, tombs) - IdsOf(docs)) else tombs,
            Superseded(manifest, ids))
  }

  // ---- The loops of the compactor ----

  /** Walks every document of every input split: dead ones are dropped, live ones carried. */
  method Reindex(tombs: Tombstones, inputs: seq<Opened>) returns (docs: seq<Doc>, kept: set<Text>, dropped: set<Text>)
    ensures docs == Carried(inputs, tombs) && kept == IdsOf(docs) && dropped == DroppedIds(inputs, tombs)
  {
    hide LiveDocs, DeadIds, IsDeletedAt;
    docs, kept, dropped := [], {}, {};
    for i := 0 to |inputs|
      invariant docs == Carried(inputs[..i], tombs) && kept == IdsOf(docs)
      invariant dropped == DroppedIds(inputs[..i], tombs)
    {
      var o := inputs[i];
      ghost var before := (docs, dropped);
      NothingWalked(o, tombs);
      for k := 0 to |o.docs|
        invariant docs == before.0 + LiveDocs(o.docs[..k], tombs, o.generation) && kept == IdsOf(docs)
        invariant dropped == before.1 + DeadIds(o.docs[..k], tombs, o.generation)
      {
        var d := o.docs[k];
        WalkStep(o.docs, k, tombs, o.generation);
        if IsDeletedAt(tombs, d.id, o.generation) {
          dropped := dropped + {d.id};
        } else {
          IdsSnoc(docs, d);
          docs, kept := docs + [d], kept + {d.id};
        }
      }
      assert o.docs[..|o.docs|] == o.docs;
      InputStep(inputs, i, tombs);
    }
    assert inputs[..|inputs|] == inputs;
  }

  lemma NothingWalked(o: Opened, tombs: Tombstones)
    ensures LiveDocs(o.docs[..0], tombs, o.generation) == [] && DeadIds(o.docs[..0], tombs, o.generation) == {}
  {
  }

  lemma InputStep(inputs: seq<Opened>, i: nat, tombs: Tombstones)
    requires i < |inputs|
    ensures Carried(inputs[..i + 1], tombs)
         == Carried(inputs[..i], tombs) + LiveDocs(inputs[i].docs, tombs, inputs[i].generation)
    ensures DroppedIds(inputs[..i + 1], tombs)
         == DroppedIds(inputs[..i], tombs) + DeadIds(inputs[i].docs, tombs, inputs[i].generation)
  {
    assert inputs[..i + 1][..i] == inputs[..i];
  }

  lemma WalkStep(docs: seq<Doc>, k: nat, tombs: Tombstones, g: nat)
    requires k < |docs|
    ensures IsDeletedAt(tombs, docs[k].id, g) ==>
      && LiveDocs(docs[..k + 1], tombs, g) == LiveDocs(docs[..k], tombs, g)
      && DeadIds(docs[..k + 1], tombs, g) == DeadIds(docs[..k], tombs, g) + {docs[k].id}
    ensures !IsDeletedAt(tombs, docs[k].id, g) ==>
      && LiveDocs(docs[..k + 1], tombs, g) == LiveDocs(docs[..k], tombs, g) + [docs[k]]
      && DeadIds(docs[..k + 1], tombs, g) == DeadIds(docs[..k], tombs, g)
  {
    assert docs[..k + 1][..k] == docs[..k];
    assert docs[..k + 1] == docs[..k] + [docs[k]];
  }

  lemma IdsSnoc(docs: seq<Doc>, d: Doc)
    ensures IdsOf(docs + [d]) == IdsOf(docs) + {d.id}
  {
  }

  /** Splits the manifest into what stays and what is superseded. */
  method Rewrite(manifest: Manifest, ids: set<SplitId>) returns (stay: Manifest, superseded: seq<SplitId>)
    ensures stay == Others(manifest, ids) && superseded == Superseded(manifest, ids)
  {
    stay, superseded := [], [];
    for i := 0 to |manifest|
      invariant stay == Others(manifest[..i], ids) && superseded == Superseded(manifest[..i], ids)
    {
      assert manifest[..i + 1][..i] == manifest[..i];
      if manifest[i].id in ids {
        superseded := superseded + [manifest[i].id];
      } else {
        stay := stay + [manifest[i]];
      }
    }
    assert manifest[..|manifest|] == manifest;
  }

  method ClearIds(tombs: Tombstones, dropped: set<Text>, kept: set<Text>) returns (r: Tombstones)
    ensures r == tombs - (dropped - kept)
  {
    r := tombs;
    var rest := dropped;
    while rest != {}
      invariant rest <= dropped && r == tombs - (dropped - kept - rest)
      decreases rest
    {
      var id :| id in rest;
      rest := rest - {id};
      if id !in kept {
        r := r - {id};
      }
    }
  }

  method RunCompactor(manifest: Manifest, tombs: Tombstones, inputs: seq<Opened>) returns (r: Outcome)
    ensures r == Compact(manifest, tombs, inputs)
  {
    hide Carried, DroppedIds, Others, Superseded;
    var ids := InputIds(inputs);
    var docs, kept, dropped := Reindex(tombs, inputs);
    var generation := MaxGeneration(manifest) + 1;
    var meta := SplitMeta(Compacted(generation), |docs|, generation);
    var stay, superseded := Rewrite(manifest, ids);
    var cleared := tombs;
    if CoversAll(manifest, ids) {
      cleared := ClearIds(tombs, dropped, kept);
    }
    r := Outcome(docs, meta, stay + [meta], cleared, superseded);
  }

  // ---- A compaction of everything ----

  lemma {:induction false} NothingElse(manifest: Manifest, plan: set<SplitId>)
    requires CoversAll(manifest, plan)
    ensures Others(manifest, plan) == []
    decreases |manifest|
  {
    if manifest != [] {
      assert manifest[|manifest| - 1] in manifest;
      NothingElse(manifest[..|manifest| - 1], plan);
    }
  }

  lemma {:induction false} AllInputs(manifest: Manifest, blobs: Blobs, plan: set<SplitId>)
    requires CoversAll(manifest, plan)
    ensures CoversAll(manifest, InputIds(OpenedOf(manifest, blobs, plan)))
    decreases |manifest|
  {
    if manifest != [] {
      var n := |manifest| - 1;
      assert manifest[n] in manifest;
      AllInputs(manifest[..n], blobs, plan);
      var inputs := OpenedOf(manifest[..n], blobs, plan);
      var o := Opened(manifest[n].id, manifest[n].generation, DocsOf(blobs, manifest[n].id));
      assert InputIds(inputs + [o]) == InputIds(inputs) + {o.id};
      assert manifest == manifest[..n] + [manifest[n]];
    }
  }

  lemma {:induction false} AllSuperseded(manifest: Manifest, plan: set<SplitId>)
    requires CoversAll(manifest, plan)
    ensures |Superseded(manifest, plan)| == |manifest|
    decreases |manifest|
  {
    if manifest != [] {
      assert manifest[|manifest| - 1] in manifest;
      AllSuperseded(manifest[..|manifest| - 1], plan);
    }
  }

  // ---- Why it is right ----

  lemma {:induction false} OpenedAre(manifest: Manifest, blobs: Blobs, plan: set<SplitId>)
    ensures forall o :: o in OpenedOf(manifest, blobs, plan) ==>
      o.id in plan && SplitMetaIn(manifest, o.id, o.generation)
    ensures forall sm :: sm in manifest && sm.id in plan ==> sm.id in InputIds(OpenedOf(manifest, blobs, plan))
    decreases |manifest|
  {
    if manifest != [] {
      var n := |manifest| - 1;
      OpenedAre(manifest[..n], blobs, plan);
      var before, all := OpenedOf(manifest[..n], blobs, plan), OpenedOf(manifest, blobs, plan);
      assert manifest[n] in manifest;
      forall o | o in all
        ensures o.id in plan && SplitMetaIn(manifest, o.id, o.generation)
      {
        if o in before {
          var sm :| sm in manifest[..n] && sm.id == o.id && sm.generation == o.generation;
          assert sm in manifest;
        }
      }
      forall sm | sm in manifest && sm.id in plan
        ensures sm.id in InputIds(all)
      {
        if sm in manifest[..n] {
          var o :| o in before && o.id == sm.id;
          assert o in all;
        } else {
          assert all[|all| - 1] in all;
        }
      }
    }
  }

  ghost predicate SplitMetaIn(manifest: Manifest, id: SplitId, generation: nat) {
    exists sm :: sm in manifest && sm.id == id && sm.generation == generation
  }

  /** Only the part of a plan that the manifest lists matters. */
  lemma {:induction false} OthersSame(manifest: Manifest, p: set<SplitId>, q: set<SplitId>)
    requires forall sm :: sm in manifest ==> (sm.id in p <==> sm.id in q)
    ensures Others(manifest, p) == Others(manifest, q) && Superseded(manifest, p) == Superseded(manifest, q)
    decreases |manifest|
  {
    if manifest != [] {
      assert manifest[|manifest| - 1] in manifest;
      assert forall sm :: sm in manifest[..|manifest| - 1] ==> sm in manifest;
      OthersSame(manifest[..|manifest| - 1], p, q);
    }
  }

  lemma InputIdsOf(ix: Stored, plan: set<SplitId>)
    ensures var ids := InputIds(Inputs(ix, plan));
            && (forall sm :: sm in ix.manifest ==> (sm.id in ids <==> sm.id in plan))
            && Others(ix.manifest, ids) == Others(ix.manifest, plan)
            && Superseded(ix.manifest, ids) == Superseded(ix.manifest, plan)
  {
    hide OpenedOf, Others, Superseded;
    OpenedAre(ix.manifest, ix.blobs, plan);
    OthersSame(ix.manifest, InputIds(Inputs(ix, plan)), plan);
  }

  lemma {:induction false} OthersAre(manifest: Manifest, plan: set<SplitId>)
    ensures forall sm :: sm in Others(manifest, plan) <==> sm in manifest && sm.id !in plan
    ensures UniqueIds(manifest) ==> UniqueIds(Others(manifest, plan))
    ensures forall id :: id in Superseded(manifest, plan) <==> id in plan && Lists(manifest, id)
    decreases |manifest|
  {
    if manifest != [] {
      var n := |manifest| - 1;
      OthersAre(manifest[..n], plan);
      assert manifest == manifest[..n] + [manifest[n]];
      ListsSnoc(manifest[..n], manifest[n]);
      if UniqueIds(manifest) {
        forall sm | sm in manifest[..n]
          ensures sm.id != manifest[n].id
        {
        }
      }
    }
  }

  lemma ListsSnoc(manifest: Manifest, sm: SplitMeta)
    ensures forall id :: Lists(manifest + [sm], id) <==> Lists(manifest, id) || id == sm.id
  {
    var all := manifest + [sm];
    forall id
      ensures Lists(all, id) <==> Lists(manifest, id) || id == sm.id
    {
      if Lists(manifest, id) {
        var i :| 0 <= i < |manifest| && manifest[i].id == id;
        assert all[i].id == id;
      }
      assert all[|manifest|] == sm;
    }
  }

  /** The live documents are those carried over and those of the other splits. */
  lemma {:induction false} LivePartition(manifest: Manifest, tombs: Tombstones, blobs: Blobs, plan: set<SplitId>)
    ensures Live(manifest, tombs, blobs)
         == Live(Others(manifest, plan), tombs, blobs) + multiset(Carried(OpenedOf(manifest, blobs, plan), tombs))
    decreases |manifest|
  {
    hide LiveDocs, DocsOf, Live, Others, OpenedOf, Carried;
    if manifest == [] {
      NothingLive(tombs, blobs, plan);
    } else {
      var n := |manifest| - 1;
      var sm := manifest[n];
      var rest := manifest[..n];
      assert manifest == rest + [sm];
      LivePartition(rest, tombs, blobs, plan);
      LiveSnoc(rest, sm, tombs, blobs);
      LiveSnoc(Others(rest, plan), sm, tombs, blobs);
      PlanSnoc(rest, sm, blobs, plan);
      CarriedSnoc(OpenedOf(rest, blobs, plan), Opened(sm.id, sm.generation, DocsOf(blobs, sm.id)), tombs);
    }
  }

  lemma NothingLive(tombs: Tombstones, blobs: Blobs, plan: set<SplitId>)
    ensures Live([], tombs, blobs) == multiset{} && Others([], plan) == []
    ensures multiset(Carried(OpenedOf([], blobs, plan), tombs)) == multiset{}
  {
  }

  lemma PlanSnoc(rest: Manifest, sm: SplitMeta, blobs: Blobs, plan: set<SplitId>)
    ensures Others(rest + [sm], plan) == if sm.id in plan then Others(rest, plan) else Others(rest, plan) + [sm]
    ensures OpenedOf(rest + [sm], blobs, plan)
         == if sm.id in plan then OpenedOf(rest, blobs, plan) + [Opened(sm.id, sm.generation, DocsOf(blobs, sm.id))]
            else OpenedOf(rest, blobs, plan)
  {
    assert (rest + [sm])[..|rest|] == rest;
    assert OpenedOf(rest, blobs, plan) + [] == OpenedOf(rest, blobs, plan);
    assert Others(rest, plan) + [] == Others(rest, plan);
  }

  lemma CarriedSnoc(inputs: seq<Opened>, o: Opened, tombs: Tombstones)
    ensures multiset(Carried(inputs + [o], tombs))
         == multiset(Carried(inputs, tombs)) + multiset(LiveDocs(o.docs, tombs, o.generation))
  {
    assert (inputs + [o])[..|inputs|] == inputs;
  }

  /** A carried document was live in some split, so no delete reaches the new generation. */
  lemma {:induction false} CarriedLive(inputs: seq<Opened>, tombs: Tombstones, g: nat)
    requires forall o :: o in inputs ==> o.generation <= g
    ensures forall d :: d in Carried(inputs, tombs) ==> !IsDeletedAt(tombs, d.id, g)
    decreases |inputs|
  {
    hide LiveDocs;
    if inputs != [] {
      var n := |inputs| - 1;
      assert inputs[n] in inputs;
      assert forall o :: o in inputs[..n] ==> o in inputs;
      CarriedLive(inputs[..n], tombs, g);
      forall d | d in Carried(inputs, tombs)
        ensures !IsDeletedAt(tombs, d.id, g)
      {
        LiveDocsAre(inputs[n].docs, tombs, inputs[n].generation, d);
      }
    }
  }

  lemma {:induction false} AllLive(docs: seq<Doc>, tombs: Tombstones, g: nat)
    requires forall d :: d in docs ==> !IsDeletedAt(tombs, d.id, g)
    ensures LiveDocs(docs, tombs, g) == docs
    decreases |docs|
  {
    hide IsDeletedAt, LiveDocs;
    if docs == [] {
      NoDocs(tombs, g);
    } else {
      var n := |docs| - 1;
      assert docs[n] in docs;
      AllLive(docs[..n], tombs, g);
      LiveDocsSnoc(docs[..n], docs[n], tombs, g);
      assert docs == docs[..n] + [docs[n]];
    }
  }

  lemma NoDocs(tombs: Tombstones, g: nat)
    ensures LiveDocs([], tombs, g) == []
  {
  }

  lemma InputGenerations(ix: Stored, plan: set<SplitId>)
    ensures forall o :: o in Inputs(ix, plan) ==> o.generation <= MaxGeneration(ix.manifest)
  {
    hide OpenedOf;
    OpenedAre(ix.manifest, ix.blobs, plan);
    forall o | o in Inputs(ix, plan)
      ensures o.generation <= MaxGeneration(ix.manifest)
    {
      var sm :| sm in ix.manifest && sm.id == o.id && sm.generation == o.generation;
    }
  }

  /** The new split's name is not in use. */
  lemma FreshName(ix: Stored, plan: set<SplitId>)
    requires SplitsSound(ix)
    ensures forall sm :: sm in ix.manifest ==> sm.id != Compacted(MaxGeneration(ix.manifest) + 1)
  {
  }

  /** The new manifest shows the same documents with the old tombstones as with the new. */
  lemma CompactLive(ix: Stored, plan: set<SplitId>, tombs: Tombstones, blobs: Blobs)
    requires SplitsSound(ix)
    requires var r := Compact(ix.manifest, ix.tombstones, Inputs(ix, plan));
             && (tombs == ix.tombstones || tombs == r.tombstones)
             && r.meta.id in blobs && blobs[r.meta.id] == r.docs
             && (forall sm :: sm in Others(ix.manifest, plan) ==> DocsOf(blobs, sm.id) == DocsOf(ix.blobs, sm.id))
    ensures Live(Compact(ix.manifest, ix.tombstones, Inputs(ix, plan)).manifest, tombs, blobs) == LiveOf(ix)
  {
    hide Carried, OpenedOf, Others, Superseded, Live, LiveDocs, DroppedIds;
    var inputs := Inputs(ix, plan);
    var r := Compact(ix.manifest, ix.tombstones, inputs);
    var others := Others(ix.manifest, plan);
    InputIdsOf(ix, plan);
    InputGenerations(ix, plan);
    CarriedLive(inputs, ix.tombstones, r.meta.generation);
    AllLive(r.docs, tombs, r.meta.generation);
    LiveSnoc(others, r.meta, tombs, blobs);
    OthersAre(ix.manifest, plan);
    LiveSame(others, tombs, blobs, ix.tombstones, ix.blobs);
    LivePartition(ix.manifest, ix.tombstones, ix.blobs, plan);
  }
}

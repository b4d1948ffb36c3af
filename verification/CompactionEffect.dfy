/** What a compaction does, said of the splits and documents themselves: which tombstones it
    clears, and which documents it carries over in which order. */
module CompactionEffect {
  import opened Bytes
  import opened Splits
  import opened Compaction
  import opened FtsIndex

  /** A planned split holds a copy of the id that its tombstone hides, or one that it does not. */
  ghost predicate HoldsCopy(ix: Stored, plan: set<SplitId>, id: Text, hidden: bool)
    requires id in ix.tombstones
  {
    exists sm, d :: IsCopy(ix, plan, sm, d) && d.id == id && (sm.generation <= ix.tombstones[id] <==> hidden)
  }

  ghost predicate IsCopy(ix: Stored, plan: set<SplitId>, sm: SplitMeta, d: Doc) {
    sm in ix.manifest && sm.id in plan && sm.id in ix.blobs && d in ix.blobs[sm.id]
  }

  lemma {:induction false} CarriedIds(manifest: Manifest, blobs: Blobs, tombs: Tombstones, plan: set<SplitId>, id: Text)
    ensures var inputs := OpenedOf(manifest, blobs, plan);
      && (id in IdsOf(Carried(inputs, tombs)) <==>
            exists sm, d :: IsCopy(Stored(manifest, tombs, blobs), plan, sm, d) && d.id == id && !IsDeletedAt(tombs, id, sm.generation))
      && (id in DroppedIds(inputs, tombs) <==>
            exists sm, d :: IsCopy(Stored(manifest, tombs, blobs), plan, sm, d) && d.id == id && IsDeletedAt(tombs, id, sm.generation))
    decreases |manifest|
  {
    hide IsDeletedAt, LiveDocs, DeadIds;
    if manifest != [] {
      var n := |manifest| - 1;
      var sm := manifest[n];
      CarriedIds(manifest[..n], blobs, tombs, plan, id);
      CopiesSnoc(manifest, tombs, blobs, plan, id);
      if sm.id in plan {
        var o := Opened(sm.id, sm.generation, DocsOf(blobs, sm.id));
        LiveDocIds(o.docs, tombs, o.generation, id);
        CarriedSnoc(OpenedOf(manifest[..n], blobs, plan), o, tombs, id);
        assert OpenedOf(manifest, blobs, plan) == OpenedOf(manifest[..n], blobs, plan) + [o];
      } else {
        assert OpenedOf(manifest, blobs, plan) == OpenedOf(manifest[..n], blobs, plan);
      }
    }
  }

  lemma CarriedSnoc(inputs: seq<Opened>, o: Opened, tombs: Tombstones, id: Text)
    ensures id in IdsOf(Carried(inputs + [o], tombs))
       <==> id in IdsOf(Carried(inputs, tombs)) || id in IdsOf(LiveDocs(o.docs, tombs, o.generation))
    ensures DroppedIds(inputs + [o], tombs) == DroppedIds(inputs, tombs) + DeadIds(o.docs, tombs, o.generation)
  {
    hide LiveDocs, DeadIds;
    assert (inputs + [o])[..|inputs|] == inputs;
  }

  /** The copies in a longer manifest are those before and those of its last split. */
  lemma CopiesSnoc(manifest: Manifest, tombs: Tombstones, blobs: Blobs, plan: set<SplitId>, id: Text)
    requires manifest != []
    ensures var n := |manifest| - 1;
      forall sm, d :: IsCopy(Stored(manifest, tombs, blobs), plan, sm, d) <==>
        || IsCopy(Stored(manifest[..n], tombs, blobs), plan, sm, d)
        || (sm == manifest[n] && sm.id in plan && d in DocsOf(blobs, sm.id))
  {
    var n := |manifest| - 1;
    assert manifest == manifest[..n] + [manifest[n]];
  }

  lemma {:induction false} LiveDocIds(docs: seq<Doc>, tombs: Tombstones, g: nat, id: Text)
    ensures id in IdsOf(LiveDocs(docs, tombs, g)) <==> (exists d :: d in docs && d.id == id) && !IsDeletedAt(tombs, id, g)
    ensures id in DeadIds(docs, tombs, g) <==> (exists d :: d in docs && d.id == id) && IsDeletedAt(tombs, id, g)
    decreases |docs|
  {
    hide IsDeletedAt;
    if docs != [] {
      var n := |docs| - 1;
      LiveDocIds(docs[..n], tombs, g, id);
      assert docs == docs[..n] + [docs[n]];
    }
  }

  /** A compaction clears a tombstone exactly if it covers every split, a planned copy of the id
      was hidden, and no planned copy of it is live; all others keep their generation, and none
      is new. */
  lemma ClearsExactly(ix: Stored, plan: set<SplitId>, id: Text)
    ensures var after := After(ix, CompactSplits(plan), 3).tombstones;
      if id !in ix.tombstones then id !in after
      else
        && (id in after ==> after[id] == ix.tombstones[id])
        && (id !in after <==>
              && (forall sm :: sm in ix.manifest ==> sm.id in plan)
              && HoldsCopy(ix, plan, id, true)
              && !HoldsCopy(ix, plan, id, false))
  {
    hide Carried, DroppedIds, Others, Superseded, MaxGeneration;
    var inputs := Inputs(ix, plan);
    CarriedIds(ix.manifest, ix.blobs, ix.tombstones, plan, id);
    assert Stored(ix.manifest, ix.tombstones, ix.blobs) == ix;
    CoversAre(ix, plan);
    assert After(ix, CompactSplits(plan), 3).tombstones == Compact(ix.manifest, ix.tombstones, inputs).tombstones;
  }

  lemma CoversAre(ix: Stored, plan: set<SplitId>)
    ensures CoversAll(ix.manifest, InputIds(Inputs(ix, plan))) <==> forall sm :: sm in ix.manifest ==> sm.id in plan
  {
    OpenedAre(ix.manifest, ix.blobs, plan);
  }

  // ---- What is carried over ----

  /** A document by its split among the inputs and its place there. */
  datatype Place = Place(input: nat, doc: nat)

  predicate Earlier(a: Place, b: Place) {
    a.input < b.input || (a.input == b.input && a.doc < b.doc)
  }

  ghost predicate IsLivePlace(inputs: seq<Opened>, tombs: Tombstones, p: Place) {
    && p.input < |inputs| && p.doc < |inputs[p.input].docs|
    && !IsDeletedAt(tombs, inputs[p.input].docs[p.doc].id, inputs[p.input].generation)
  }

  /** The places of the documents carried over: the live ones, each once, in order. */
  ghost predicate AreCarried(inputs: seq<Opened>, tombs: Tombstones, docs: seq<Doc>, at: seq<Place>) {
    && |at| == |docs|
    && (forall i :: 0 <= i < |at| ==> IsLivePlace(inputs, tombs, at[i]) && inputs[at[i].input].docs[at[i].doc] == docs[i])
    && (forall i, j :: 0 <= i < j < |at| ==> Earlier(at[i], at[j]))
    && (forall p :: IsLivePlace(inputs, tombs, p) ==> p in at)
  }

  /** The places of the live documents among the first `k` of the last input. */
  ghost predicate AreLast(inputs: seq<Opened>, tombs: Tombstones, k: nat, live: seq<Doc>, at: seq<Place>)
    requires inputs != []
  {
    && |at| == |live|
    && (forall i :: 0 <= i < |at| ==>
          && at[i].input == |inputs| - 1 && at[i].doc < k && IsLivePlace(inputs, tombs, at[i])
          && inputs[at[i].input].docs[at[i].doc] == live[i])
    && (forall i, j :: 0 <= i < j < |at| ==> Earlier(at[i], at[j]))
    && (forall p :: IsLivePlace(inputs, tombs, p) && p.input == |inputs| - 1 && p.doc < k ==> p in at)
  }

  lemma {:induction false} LivePlaces(inputs: seq<Opened>, tombs: Tombstones, k: nat) returns (at: seq<Place>)
    requires inputs != [] && k <= |inputs[|inputs| - 1].docs|
    ensures var o := inputs[|inputs| - 1];
            AreLast(inputs, tombs, k, LiveDocs(o.docs[..k], tombs, o.generation), at)
    decreases k
  {
    hide IsDeletedAt, AreLast, LiveDocs;
    var o := inputs[|inputs| - 1];
    if k == 0 {
      at := [];
      NoneLast(inputs, tombs);
    } else {
      at := LivePlaces(inputs, tombs, k - 1);
      WalkStep(o.docs, k - 1, tombs, o.generation);
      LastStep(inputs, tombs, k - 1, LiveDocs(o.docs[..k - 1], tombs, o.generation), at);
      if !IsDeletedAt(tombs, o.docs[k - 1].id, o.generation) {
        at := at + [Place(|inputs| - 1, k - 1)];
      }
    }
  }

  lemma NoneLast(inputs: seq<Opened>, tombs: Tombstones)
    requires inputs != []
    ensures AreLast(inputs, tombs, 0, LiveDocs(inputs[|inputs| - 1].docs[..0], tombs, inputs[|inputs| - 1].generation), [])
  {
  }

  lemma LastStep(inputs: seq<Opened>, tombs: Tombstones, k: nat, live: seq<Doc>, at: seq<Place>)
    requires inputs != [] && k < |inputs[|inputs| - 1].docs| && AreLast(inputs, tombs, k, live, at)
    ensures var o, p := inputs[|inputs| - 1], Place(|inputs| - 1, k);
      if IsDeletedAt(tombs, o.docs[k].id, o.generation) then AreLast(inputs, tombs, k + 1, live, at)
      else AreLast(inputs, tombs, k + 1, live + [o.docs[k]], at + [p])
  {
    hide IsDeletedAt;
    var p := Place(|inputs| - 1, k);
    var all := at + [p];
    forall q | IsLivePlace(inputs, tombs, q) && q.input == |inputs| - 1 && q.doc < k + 1
      ensures q == p || q in at
    {
    }
  }

  lemma PlaceBefore(inputs: seq<Opened>, tombs: Tombstones, p: Place)
    requires inputs != [] && p.input < |inputs| - 1
    ensures IsLivePlace(inputs, tombs, p) <==> IsLivePlace(inputs[..|inputs| - 1], tombs, p)
  {
  }

  lemma Join(inputs: seq<Opened>, tombs: Tombstones, docs: seq<Doc>, live: seq<Doc>, before: seq<Place>, last: seq<Place>)
    requires inputs != [] && AreCarried(inputs[..|inputs| - 1], tombs, docs, before)
    requires AreLast(inputs, tombs, |inputs[|inputs| - 1].docs|, live, last)
    ensures AreCarried(inputs, tombs, docs + live, before + last)
  {
    hide IsLivePlace;
    var at, all, n := before + last, docs + live, |inputs| - 1;
    forall i | 0 <= i < |at|
      ensures at[i].input < |inputs| && at[i].doc < |inputs[at[i].input].docs|
      ensures IsLivePlace(inputs, tombs, at[i]) && inputs[at[i].input].docs[at[i].doc] == all[i]
      ensures at[i].input < n <==> i < |before|
    {
      if i < |before| {
        InRange(inputs[..n], tombs, before[i]);
        PlaceBefore(inputs, tombs, before[i]);
      } else {
        assert at[i] == last[i - |before|];
        InRange(inputs, tombs, last[i - |before|]);
      }
    }
    forall i, j | 0 <= i < j < |at|
      ensures Earlier(at[i], at[j])
    {
      if i >= |before| {
        assert at[i] == last[i - |before|] && at[j] == last[j - |before|];
      } else if j < |before| {
        assert at[i] == before[i] && at[j] == before[j];
      }
    }
    forall p | IsLivePlace(inputs, tombs, p)
      ensures p in at
    {
      InRange(inputs, tombs, p);
      if p.input < n {
        PlaceBefore(inputs, tombs, p);
      } else {
        assert p in last;
      }
    }
  }

  lemma InRange(inputs: seq<Opened>, tombs: Tombstones, p: Place)
    requires IsLivePlace(inputs, tombs, p)
    ensures p.input < |inputs| && p.doc < |inputs[p.input].docs|
  {
  }

  /** A compaction carries over exactly the live documents of its inputs, each once, in the order
      of the splits and within each in the order of its documents. */
  lemma {:induction false} CarriesInOrder(inputs: seq<Opened>, tombs: Tombstones) returns (at: seq<Place>)
    ensures AreCarried(inputs, tombs, Carried(inputs, tombs), at)
    decreases |inputs|
  {
    hide LiveDocs, AreLast;
    if inputs == [] {
      at := [];
    } else {
      hide AreCarried;
      var n := |inputs| - 1;
      var before := CarriesInOrder(inputs[..n], tombs);
      var last := LivePlaces(inputs, tombs, |inputs[n].docs|);
      assert inputs[n].docs[..|inputs[n].docs|] == inputs[n].docs;
      at := before + last;
      Join(inputs, tombs, Carried(inputs[..n], tombs), LiveDocs(inputs[n].docs, tombs, inputs[n].generation), before, last);
    }
  }
}

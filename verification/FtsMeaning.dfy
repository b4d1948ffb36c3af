/** What the durable index means: a plain map from ids to documents, over every run of its
    operations with crashes between their writes. */
module FtsMeaning {
  import opened Bytes
  import opened Splits
  import opened Compaction
  import opened FtsIndex

  type Docs = map<Text, Text>

  function One(m: Docs, d: Doc): nat {
    if d.id in m && m[d.id] == d.body then 1 else 0
  }

  /** The live copies are the documents of the map, one copy each. */
  ghost predicate Refines(ix: Stored, m: Docs) {
    forall d :: LiveOf(ix)[d] == One(m, d)
  }

  function Put(m: Docs, docs: seq<Doc>): Docs
    decreases |docs|
  {
    if docs == [] then m
    else
      var d := docs[|docs| - 1];
      Put(m, docs[..|docs| - 1])[d.id := d.body]
  }

  function Without(m: Docs, ids: seq<Text>): Docs {
    m - (set id | id in ids)
  }

  predicate DistinctIds(docs: seq<Doc>) {
    forall i, j :: 0 <= i < j < |docs| ==> docs[i].id != docs[j].id
  }

  predicate NewIds(m: Docs, docs: seq<Doc>) {
    forall i :: 0 <= i < |docs| ==> docs[i].id !in m
  }

  /** The map without what the first `k` writes delete. */
  function Base(m: Docs, op: FtsOp, k: nat): Docs {
    match op
    case Update(oldIds, _) => if k < 3 then m else Without(m, oldIds)
    case Delete(ids) => if k == 0 then m else Without(m, ids)
    case _ => m
  }

  /** The documents that the first `k` writes add. */
  function Added(op: FtsOp, k: nat): seq<Doc> {
    match op
    case Append(docs) => if k < 2 then [] else docs
    case Update(_, docs) => if k < 2 then [] else docs
    case _ => []
  }

  function Meaning(m: Docs, op: FtsOp, k: nat): Docs {
    Put(Base(m, op, k), Added(op, k))
  }

  /** Ids in a batch are distinct, appended ids are not live, and updates list the ids they
      reuse. */
  predicate Allowed(m: Docs, op: FtsOp, k: nat) {
    DistinctIds(Added(op, k)) && NewIds(Base(m, op, k), Added(op, k))
  }

  // ---- One operation ----

  lemma {:induction false} PutKeys(m: Docs, docs: seq<Doc>, id: Text)
    ensures id in Put(m, docs) <==> id in m || exists i :: 0 <= i < |docs| && docs[i].id == id
    decreases |docs|
  {
    if docs != [] {
      var n := |docs| - 1;
      PutKeys(m, docs[..n], id);
      if i :| 0 <= i < |docs| && docs[i].id == id && i < n {
        assert docs[..n][i].id == id;
      }
    }
  }

  lemma {:induction false} PutOne(m: Docs, docs: seq<Doc>, d: Doc)
    requires DistinctIds(docs) && NewIds(m, docs)
    ensures One(Put(m, docs), d) == One(m, d) + multiset(docs)[d]
    decreases |docs|
  {
    if docs != [] {
      var n := |docs| - 1;
      PutOne(m, docs[..n], d);
      PutKeys(m, docs[..n], docs[n].id);
      CountSnoc(docs[..n], docs[n], d);
      assert docs == docs[..n] + [docs[n]];
      PutLast(m, docs);
      AddOne(Put(m, docs[..n]), docs[n], d);
    }
  }

  lemma PutLast(m: Docs, docs: seq<Doc>)
    requires docs != []
    ensures Put(m, docs) == Put(m, docs[..|docs| - 1])[docs[|docs| - 1].id := docs[|docs| - 1].body]
  {
  }

  lemma AddOne(m: Docs, x: Doc, d: Doc)
    requires x.id !in m
    ensures One(m[x.id := x.body], d) == One(m, d) + if d == x then 1 else 0
  {
  }

  lemma CountSnoc(docs: seq<Doc>, x: Doc, d: Doc)
    ensures multiset(docs + [x])[d] == multiset(docs)[d] + if d == x then 1 else 0
  {
  }

  lemma CopiesAre(ix: Stored, m: Docs, op: FtsOp, k: nat, d: Doc)
    requires Refines(ix, m)
    ensures Copies(ix, op, k, d) == One(Base(m, op, k), d) + multiset(Added(op, k))[d]
  {
    hide Live;
    assert LiveOf(ix)[d] == One(m, d);
  }

  /** Two live copies of one id are not the documents of any map. */
  lemma Clash(ix: Stored, a: Doc, b: Doc, m: Docs)
    requires a.id == b.id && LiveOf(ix)[a] >= 1 && LiveOf(ix)[b] >= 1 && (a == b ==> LiveOf(ix)[a] >= 2)
    ensures !Refines(ix, m)
  {
    hide Live;
    assert One(m, a) + One(m, b) <= if a == b then 2 else 1;
  }

  lemma {:induction false} Twice(docs: seq<Doc>, i: nat, j: nat)
    requires i < j < |docs| && docs[i] == docs[j]
    ensures multiset(docs)[docs[i]] >= 2
  {
    assert docs == docs[..j] + docs[j..];
    assert docs[..j][i] == docs[i] && docs[j..][0] == docs[i];
    assert docs[i] in multiset(docs[..j]) && docs[i] in multiset(docs[j..]);
  }

  lemma ClashFound(m: Docs, docs: seq<Doc>) returns (a: Doc, b: Doc)
    requires !(DistinctIds(docs) && NewIds(m, docs))
    ensures a.id == b.id
    ensures One(m, a) + multiset(docs)[a] >= if a == b then 2 else 1
    ensures One(m, b) + multiset(docs)[b] >= 1
  {
    if i, j :| 0 <= i < j < |docs| && docs[i].id == docs[j].id {
      a, b := docs[i], docs[j];
      assert a in multiset(docs) && b in multiset(docs);
      if a == b {
        Twice(docs, i, j);
      }
    } else {
      var i :| 0 <= i < |docs| && docs[i].id in m;
      a, b := docs[i], Doc(docs[i].id, m[docs[i].id]);
      assert a in multiset(docs);
    }
  }

  /** An operation, cut after any of its writes, takes an index that means a map to one that
      means the map of `Meaning` if it is allowed, and to one that means no map if not. */
  lemma RefinesExactly(ix: Stored, m: Docs, op: FtsOp, k: nat)
    requires SplitsSound(ix) && Scoped(ix) && Valid(ix, op) && k <= NumWrites(ix, op) && Refines(ix, m)
    ensures Allowed(m, op, k) ==> Refines(After(ix, op, k), Meaning(m, op, k))
    ensures !Allowed(m, op, k) ==> forall m' :: !Refines(After(ix, op, k), m')
  {
    hide Live, LiveOf, FtsIndex.After, NumWrites, SplitsSound, Scoped, Put, Copies, Base, Added;
    var after := After(ix, op, k);
    var base, docs := Base(m, op, k), Added(op, k);
    forall d
      ensures LiveOf(after)[d] == One(base, d) + multiset(docs)[d]
    {
      EveryWrite(ix, op, k, d);
      CopiesAre(ix, m, op, k, d);
    }
    if Allowed(m, op, k) {
      forall d
        ensures LiveOf(after)[d] == One(Put(base, docs), d)
      {
        PutOne(base, docs, d);
      }
    } else {
      var a, b := ClashFound(base, docs);
      forall m'
        ensures !Refines(after, m')
      {
        Clash(after, a, b, m');
      }
    }
  }

  // ---- Every run ----

  /** An operation of which at most `cut` writes take effect before a crash or its end. */
  datatype IndexStep = IndexStep(op: FtsOp, cut: nat)

  function Done(ix: Stored, s: IndexStep): nat {
    if s.cut <= NumWrites(ix, s.op) then s.cut else NumWrites(ix, s.op)
  }

  function IndexRun(ix: Stored, steps: seq<IndexStep>): Stored
    decreases |steps|
  {
    if steps == [] then ix
    else
      var before := IndexRun(ix, steps[..|steps| - 1]);
      var s := steps[|steps| - 1];
      After(before, s.op, Done(before, s))
  }

  function RunMeaning(ix: Stored, m: Docs, steps: seq<IndexStep>): Docs
    decreases |steps|
  {
    if steps == [] then m
    else
      var n := |steps| - 1;
      Meaning(RunMeaning(ix, m, steps[..n]), steps[n].op, Done(IndexRun(ix, steps[..n]), steps[n]))
  }

  ghost predicate RunAllowed(ix: Stored, m: Docs, steps: seq<IndexStep>) {
    forall i :: 0 <= i < |steps| ==> StepAllowed(ix, m, steps[..i], steps[i])
  }

  ghost predicate StepAllowed(ix: Stored, m: Docs, past: seq<IndexStep>, s: IndexStep) {
    Valid(IndexRun(ix, past), s.op) && Allowed(RunMeaning(ix, m, past), s.op, Done(IndexRun(ix, past), s))
  }

  lemma NewIndexRefines()
    ensures SplitsSound(NewIndex) && Scoped(NewIndex) && Refines(NewIndex, map[])
  {
  }

  /** From a new index, after any run of operations and crashes that is allowed step by step,
      the live copies are exactly the map built by the same steps, and every split the
      manifest names exists. */
  lemma {:induction false} RunRefines(steps: seq<IndexStep>)
    requires RunAllowed(NewIndex, map[], steps)
    ensures var ix := IndexRun(NewIndex, steps);
            SplitsSound(ix) && Scoped(ix) && Refines(ix, RunMeaning(NewIndex, map[], steps))
    decreases |steps|
  {
    hide Refines, SplitsSound, Scoped, FtsIndex.After, Meaning, Allowed, Valid;
    if steps == [] {
      NewIndexRefines();
    } else {
      var n := |steps| - 1;
      var past, s := steps[..n], steps[n];
      assert RunAllowed(NewIndex, map[], past) by {
        forall i | 0 <= i < n
          ensures StepAllowed(NewIndex, map[], past[..i], past[i])
        {
          assert steps[..i] == past[..i];
          assert StepAllowed(NewIndex, map[], steps[..i], steps[i]);
        }
      }
      RunRefines(past);
      assert StepAllowed(NewIndex, map[], past, s);
      var before := IndexRun(NewIndex, past);
      RefinesExactly(before, RunMeaning(NewIndex, map[], past), s.op, Done(before, s));
      EveryWrite(before, s.op, Done(before, s), Doc([], []));
    }
  }

  /** Compaction keeps both live copies of an id that has two. */
  lemma CompactionKeepsDuplicates(ix: Stored, plan: set<SplitId>, k: nat, a: Doc, b: Doc, m: Docs)
    requires SplitsSound(ix) && Scoped(ix) && k <= NumWrites(ix, CompactSplits(plan))
    requires a.id == b.id && a != b && LiveOf(ix)[a] >= 1 && LiveOf(ix)[b] >= 1
    ensures !Refines(After(ix, CompactSplits(plan), k), m)
  {
    hide Live, LiveOf, FtsIndex.After, NumWrites, SplitsSound, Scoped;
    EveryWrite(ix, CompactSplits(plan), k, a);
    EveryWrite(ix, CompactSplits(plan), k, b);
    Clash(After(ix, CompactSplits(plan), k), a, b, m);
  }
}

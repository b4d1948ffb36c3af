/** Sealing: folding the live segment into the durable index, one durable write at a time,
    while searches go on and maintenance may run in between. */
module Seal {
  import opened Bytes
  import opened Decimal
  import opened Splits
  import opened FtsIndex
  import opened FtsStore
  import opened LiveTier

  /** Where a seal is: `Updating` has made `k` of the three writes of the durable update. */
  datatype Phase =
    | Idle
    | Updating(before: Stored, rows: seq<Row>, tombs: seq<Pk>, k: nat)
    | Deleting(tombs: seq<Pk>)
    | Finishing

  datatype Tiers = Tiers(segment: Segment, durable: Stored, phase: Phase)

  datatype SealStep =
    | Index(pk: Pk, text: Text)
    | Tombstone(pk: Pk)
    | Snapshot(rows: seq<Row>, tombs: seq<Pk>)
    | DurableWrite
    | Finish
    | Abort
    | Maintain(op: FtsOp, cut: nat)

  ghost predicate IsMaintenance(op: FtsOp) {
    op.CompactSplits? || op.Collect?
  }

  /** Writes to the segment wait while a seal is open; maintenance waits while an update holds
      the index lock. An update of no rows and a delete of no pks are skipped. */
  ghost predicate Enabled(t: Tiers, s: SealStep) {
    match s
    case Index(_, _) => t.phase.Idle?
    case Tombstone(_) => t.phase.Idle?
    case Snapshot(rows, tombs) =>
      t.phase.Idle? && IsListing(rows, LiveOnly(t.segment)) && IsPkListing(tombs, t.segment.tombs)
    case DurableWrite => t.phase.Updating? || t.phase.Deleting?
    case Finish => t.phase.Finishing?
    case Abort => !t.phase.Idle?
    case Maintain(op, cut) =>
      && IsMaintenance(op) && FtsIndex.Valid(t.durable, op) && cut <= NumWrites(t.durable, op)
      && (t.phase.Updating? ==> t.phase.k == 0)
  }

  ghost function Next(t: Tiers, s: SealStep): Tiers
    requires Enabled(t, s) && TiersOk(t)
  {
    match s
    case Index(pk, text) => t.(segment := Indexed(t.segment, pk, text))
    case Tombstone(pk) => t.(segment := Tombstoned(t.segment, pk))
    case Snapshot(rows, tombs) =>
      t.(phase := if rows == [] then AfterUpdate(tombs) else Updating(t.durable, rows, tombs, 0))
    case DurableWrite => WriteOnce(t)
    case Finish => Tiers(NoSegment, t.durable, Idle)
    case Abort => t.(phase := Idle)
    case Maintain(op, cut) =>
      var after := After(t.durable, op, cut);
      Tiers(t.segment, after, if t.phase.Updating? then t.phase.(before := after) else t.phase)
  }

  function AfterUpdate(tombs: seq<Pk>): Phase {
    if tombs == [] then Finishing else Deleting(tombs)
  }

  ghost function WriteOnce(t: Tiers): Tiers
    requires (t.phase.Updating? && t.phase.k < 3) || t.phase.Deleting?
  {
    match t.phase
    case Updating(before, rows, tombs, k) =>
      Tiers(t.segment, After(before, SealUpdate(rows), k + 1),
            if k + 1 == 3 then AfterUpdate(tombs) else Updating(before, rows, tombs, k + 1))
    case Deleting(tombs) => Tiers(t.segment, After(t.durable, SealDelete(tombs), 1), Finishing)
    case _ => t
  }

  // ---- The invariant ----

  /** The durable index holds exactly the live rows of the segment, for the pks it has. */
  ghost predicate RowsFolded(s: Segment, ix: Stored) {
    forall r: Row :: r.pk in LiveOnly(s) ==> LiveOf(ix)[ToDoc(r)] == if s.docs[r.pk] == r.body then 1 else 0
  }

  ghost predicate TombsFolded(s: Segment, ix: Stored) {
    forall r: Row :: r.pk in s.tombs ==> LiveOf(ix)[ToDoc(r)] == 0
  }

  ghost predicate TiersOk(t: Tiers) {
    && SegmentOk(t.segment) && SplitsSound(t.durable) && Scoped(t.durable)
    && match t.phase
       case Idle => true
       case Updating(before, rows, tombs, k) =>
         && k < 3 && SplitsSound(before) && Scoped(before) && t.durable == After(before, SealUpdate(rows), k)
         && IsListing(rows, LiveOnly(t.segment)) && IsPkListing(tombs, t.segment.tombs)
       case Deleting(tombs) => RowsFolded(t.segment, t.durable) && IsPkListing(tombs, t.segment.tombs)
       case Finishing => RowsFolded(t.segment, t.durable) && TombsFolded(t.segment, t.durable)
  }

  // ---- Durable writes ----

  lemma LiveOnlyAre(s: Segment)
    requires SegmentOk(s)
    ensures forall pk :: pk in s.covered <==> pk in LiveOnly(s) || pk in s.tombs
    ensures forall pk :: pk in LiveOnly(s) ==> pk !in s.tombs && pk in s.docs && LiveOnly(s)[pk] == s.docs[pk]
  {
  }

  /** The durable rows outside the segment's pks have not moved. */
  ghost predicate SameOutside(s: Segment, ix: Stored, after: Stored) {
    forall r: Row :: r.pk !in s.covered ==> LiveOf(after)[ToDoc(r)] == LiveOf(ix)[ToDoc(r)]
  }

  lemma SameVisible(s: Segment, ix: Stored, after: Stored, r: Row)
    requires SameOutside(s, ix, after)
    ensures Visible(s, after, r) == Visible(s, ix, r)
  {
    hide LiveOf;
  }

  lemma UpdateStep(t: Tiers)
    requires TiersOk(t) && t.phase.Updating?
    ensures TiersOk(WriteOnce(t)) && SameOutside(t.segment, t.durable, WriteOnce(t).durable)
  {
    hide SplitsSound, Scoped, LiveOf, FtsIndex.After, SealUpdate, LiveOnly, IsListing, IsPkListing, ToDoc;
    var s, before, rows, k := t.segment, t.phase.before, t.phase.rows, t.phase.k;
    var after := WriteOnce(t).durable;
    LiveOnlyAre(s);
    forall r: Row
      ensures SplitsSound(after) && Scoped(after)
      ensures r.pk !in s.covered ==> LiveOf(after)[ToDoc(r)] == LiveOf(t.durable)[ToDoc(r)]
      ensures k == 2 && r.pk in LiveOnly(s) ==> LiveOf(after)[ToDoc(r)] == if s.docs[r.pk] == r.body then 1 else 0
    {
      UpdateRows(before, rows, LiveOnly(s), k, r);
      UpdateRows(before, rows, LiveOnly(s), k + 1, r);
    }
    UpdateRows(before, rows, LiveOnly(s), k + 1, Row(0, []));
    if t.phase.tombs == [] {
      NoTombs(s, t.phase.tombs);
    }
  }

  lemma NoTombs(s: Segment, tombs: seq<Pk>)
    requires IsPkListing(tombs, s.tombs) && tombs == []
    ensures s.tombs == {}
  {
  }

  lemma DeleteStep(t: Tiers)
    requires TiersOk(t) && t.phase.Deleting?
    ensures TiersOk(WriteOnce(t)) && SameOutside(t.segment, t.durable, WriteOnce(t).durable)
  {
    hide SplitsSound, Scoped, LiveOf, FtsIndex.After, SealDelete, LiveOnly, ToDoc;
    var s, ix, tombs := t.segment, t.durable, t.phase.tombs;
    var after := WriteOnce(t).durable;
    LiveOnlyAre(s);
    forall r: Row
      ensures LiveOf(after)[ToDoc(r)] == if r.pk in s.tombs then 0 else LiveOf(ix)[ToDoc(r)]
    {
      DeleteRows(ix, tombs, 1, r);
    }
    DeleteRows(ix, tombs, 1, Row(0, []));
  }

  lemma MaintainStep(t: Tiers, op: FtsOp, cut: nat)
    requires TiersOk(t) && Enabled(t, Maintain(op, cut))
    ensures TiersOk(Next(t, Maintain(op, cut))) && SameOutside(t.segment, t.durable, Next(t, Maintain(op, cut)).durable)
  {
    hide SplitsSound, Scoped, LiveOf, FtsIndex.After, LiveOnly, IsListing, IsPkListing, FtsIndex.Valid, NumWrites, SealUpdate, ToDoc;
    var after := After(t.durable, op, cut);
    forall r: Row
      ensures LiveOf(after)[ToDoc(r)] == LiveOf(t.durable)[ToDoc(r)]
    {
      EveryWrite(t.durable, op, cut, ToDoc(r));
    }
    EveryWrite(t.durable, op, cut, Doc([], []));
    if t.phase.Updating? {
      NoWriteYet(after, t.phase.rows);
    }
  }

  lemma NoWriteYet(ix: Stored, rows: seq<Row>)
    ensures After(ix, SealUpdate(rows), 0) == ix
  {
  }

  // ---- The theorem ----

  /** The rows visible after a step: only writes to the segment change them. */
  ghost function VisibleNext(t: Tiers, s: SealStep, r: Row): nat {
    match s
    case Index(pk, text) =>
      if r.pk != pk then Visible(t.segment, t.durable, r) else if pk !in t.segment.tombs && r.body == text then 1 else 0
    case Tombstone(pk) => if r.pk == pk then 0 else Visible(t.segment, t.durable, r)
    case _ => Visible(t.segment, t.durable, r)
  }

  lemma SnapshotStep(t: Tiers, rows: seq<Row>, tombs: seq<Pk>)
    requires TiersOk(t) && Enabled(t, Snapshot(rows, tombs))
    ensures TiersOk(Next(t, Snapshot(rows, tombs)))
  {
    hide SplitsSound, Scoped, LiveOf, FtsIndex.After, LiveOnly, SealUpdate, ToDoc;
    if rows == [] {
      NoRows(rows, LiveOnly(t.segment));
      if tombs == [] {
        NoTombs(t.segment, tombs);
      }
    } else {
      NoWriteYet(t.durable, rows);
    }
  }

  lemma NoRows(rows: seq<Row>, m: map<Pk, Text>)
    requires IsListing(rows, m)
    ensures (exists pk :: pk in m) ==> rows != []
  {
    if pk :| pk in m {
      assert Row(pk, m[pk]) in rows;
    }
  }

  lemma FinishStep(t: Tiers, r: Row)
    requires TiersOk(t) && t.phase.Finishing?
    ensures Visible(NoSegment, t.durable, r) == Visible(t.segment, t.durable, r)
  {
    hide SplitsSound, Scoped, LiveOf, LiveOnly, ToDoc;
    LiveOnlyAre(t.segment);
  }

  /** No step of a seal changes what searches can see: not the snapshot, not any single
      durable write, not the finish, nor an abort at any point, nor maintenance in between.
      Indexing and deleting change exactly their own pk. */
  lemma StepVisible(t: Tiers, s: SealStep, r: Row)
    requires TiersOk(t) && Enabled(t, s)
    ensures TiersOk(Next(t, s))
    ensures Visible(Next(t, s).segment, Next(t, s).durable, r) == VisibleNext(t, s, r)
  {
    hide SplitsSound, Scoped, LiveOf, FtsIndex.After, LiveOnly, IsListing, IsPkListing, FtsIndex.Valid, NumWrites, SealUpdate,
         SealDelete, ToDoc, RowsFolded, TombsFolded, Visible;
    match s
    case Index(pk, text) => VisibleIndex(t.segment, t.durable, pk, text, r);
    case Tombstone(pk) => VisibleTombstone(t.segment, t.durable, pk, r);
    case Snapshot(rows, tombs) => SnapshotStep(t, rows, tombs);
    case DurableWrite =>
      if t.phase.Updating? {
        UpdateStep(t);
      } else {
        DeleteStep(t);
      }
      SameVisible(t.segment, t.durable, WriteOnce(t).durable, r);
    case Finish => FinishStep(t, r);
    case Abort =>
    case Maintain(op, cut) =>
      MaintainStep(t, op, cut);
      SameVisible(t.segment, t.durable, Next(t, s).durable, r);
  }

  ghost predicate RunOk(t: Tiers, steps: seq<SealStep>)
    decreases |steps|
  {
    steps == [] || (TiersOk(t) && Enabled(t, steps[0]) && RunOk(Next(t, steps[0]), steps[1..]))
  }

  ghost function SealRun(t: Tiers, steps: seq<SealStep>): Tiers
    requires RunOk(t, steps)
    decreases |steps|
  {
    if steps == [] then t else SealRun(Next(t, steps[0]), steps[1..])
  }

  ghost predicate NoSegmentWrites(steps: seq<SealStep>) {
    forall i :: 0 <= i < |steps| ==> !steps[i].Index? && !steps[i].Tombstone?
  }

  /** Any number of seals, aborted at any points, retried, with maintenance in between: the
      view is the one before. */
  lemma {:induction false} SealsInvisible(t: Tiers, steps: seq<SealStep>, r: Row)
    requires TiersOk(t) && RunOk(t, steps) && NoSegmentWrites(steps)
    ensures TiersOk(SealRun(t, steps))
    ensures Visible(SealRun(t, steps).segment, SealRun(t, steps).durable, r) == Visible(t.segment, t.durable, r)
    decreases |steps|
  {
    hide TiersOk, Enabled, Next, Visible;
    if steps != [] {
      StepVisible(t, steps[0], r);
      assert NoSegmentWrites(steps[1..]);
      SealsInvisible(Next(t, steps[0]), steps[1..], r);
    }
  }

  /** After an aborted seal, a retry that finishes converges: whatever the abort left behind,
      the durable index then holds exactly the visible rows, and the segment is empty. */
  lemma RetryConverges(t: Tiers, steps: seq<SealStep>, r: Row)
    requires TiersOk(t) && RunOk(t, steps) && NoSegmentWrites(steps) && SealRun(t, steps).segment == NoSegment
    ensures LiveOf(SealRun(t, steps).durable)[ToDoc(r)] == Visible(t.segment, t.durable, r)
  {
    hide TiersOk, RunOk, LiveOf;
    SealsInvisible(t, steps, r);
  }

  // ---- Re-indexing a tombstoned pk ----

  /** A row indexed before a seal is in the durable index once a seal has finished exactly if
      its pk was not tombstoned since the seal before. */
  lemma IndexedSurvivesExactly(t: Tiers, pk: Pk, text: Text, steps: seq<SealStep>)
    requires TiersOk(t) && t.phase.Idle?
    requires var u := Next(t, SealStep.Index(pk, text));
             RunOk(u, steps) && NoSegmentWrites(steps) && SealRun(u, steps).segment == NoSegment
    ensures var u := Next(t, SealStep.Index(pk, text));
            LiveOf(SealRun(u, steps).durable)[ToDoc(Row(pk, text))] == if pk in t.segment.tombs then 0 else 1
  {
    hide TiersOk, RunOk, LiveOf, SealRun, Visible;
    StepVisible(t, SealStep.Index(pk, text), Row(pk, text));
    RetryConverges(Next(t, SealStep.Index(pk, text)), steps, Row(pk, text));
  }

  lemma RunCons(t: Tiers, s: SealStep, steps: seq<SealStep>)
    requires TiersOk(t) && Enabled(t, s) && RunOk(Next(t, s), steps)
    ensures RunOk(t, [s] + steps) && SealRun(t, [s] + steps) == SealRun(Next(t, s), steps)
  {
    hide TiersOk, Enabled, Next;
    assert ([s] + steps)[1..] == steps;
  }

  lemma RunNone(t: Tiers)
    ensures RunOk(t, []) && SealRun(t, []) == t
  {
  }

  /** The shortest case: from nothing, a pk is deleted, indexed again and sealed; the seal
      finishes, and the row is nowhere. */
  lemma ReindexedIsDropped(pk: Pk, text: Text) returns (steps: seq<SealStep>)
    ensures var t := Tiers(NoSegment, NewIndex, Idle);
      && steps == [SealStep.Tombstone(pk), SealStep.Index(pk, text), Snapshot([], [pk]), DurableWrite, Finish]
      && RunOk(t, steps) && SealRun(t, steps).segment == NoSegment
      && LiveOf(SealRun(t, steps).durable)[ToDoc(Row(pk, text))] == 0
  {
    hide TiersOk, Visible, FtsIndex.After, SealDelete, LiveOf, SealRun, RunOk, WriteOnce;
    var t := Tiers(NoSegment, NewIndex, Idle);
    NothingIsOk();
    var t1 := Next(t, SealStep.Tombstone(pk));
    StepVisible(t, SealStep.Tombstone(pk), Row(pk, text));
    var t2 := Next(t1, SealStep.Index(pk, text));
    StepVisible(t1, SealStep.Index(pk, text), Row(pk, text));
    assert LiveOnly(t2.segment) == map[] && t2.segment.tombs == {pk};
    var t3 := Next(t2, Snapshot([], [pk]));
    StepVisible(t2, Snapshot([], [pk]), Row(pk, text));
    var t4 := Next(t3, DurableWrite);
    StepVisible(t3, DurableWrite, Row(pk, text));
    assert t4.phase == Finishing by {
      WritesDeletes(t3, [pk]);
    }
    var t5 := Next(t4, Finish);
    RunNone(t5);
    var none: seq<SealStep> := [];
    RunCons(t4, Finish, none);
    assert [Finish] + none == [Finish] && [DurableWrite] + [Finish] == [DurableWrite, Finish];
    RunCons(t3, DurableWrite, [Finish]);
    RunCons(t2, Snapshot([], [pk]), [DurableWrite, Finish]);
    var seal := [Snapshot([], [pk])] + [DurableWrite, Finish];
    IndexedSurvivesExactly(t1, pk, text, seal);
    RunCons(t1, SealStep.Index(pk, text), seal);
    RunCons(t, SealStep.Tombstone(pk), [SealStep.Index(pk, text)] + seal);
    steps := [SealStep.Tombstone(pk)] + ([SealStep.Index(pk, text)] + seal);
  }

  lemma WritesDeletes(t: Tiers, tombs: seq<Pk>)
    requires t.phase == Deleting(tombs)
    ensures WriteOnce(t).phase == Finishing
  {
  }

  lemma NothingIsOk()
    ensures TiersOk(Tiers(NoSegment, NewIndex, Idle))
  {
  }

  // ---- One seal, as it runs ----

  ghost predicate SameView(t: Tiers, u: Tiers) {
    forall r: Row :: Visible(u.segment, u.durable, r) == Visible(t.segment, t.durable, r)
  }

  lemma StepKeeps(t: Tiers, s: SealStep)
    requires TiersOk(t) && Enabled(t, s) && !s.Index? && !s.Tombstone?
    ensures TiersOk(Next(t, s)) && SameView(t, Next(t, s))
  {
    hide TiersOk, Enabled, Next, Visible;
    forall r: Row
      ensures TiersOk(Next(t, s))
      ensures Visible(Next(t, s).segment, Next(t, s).durable, r) == Visible(t.segment, t.durable, r)
    {
      StepVisible(t, s, r);
    }
    StepVisible(t, s, Row(0, []));
  }

  /** The snapshot, then the first `k` writes of the update if there are rows. */
  lemma {:induction false} UpdateKeeps(s: Segment, ix: Stored, rows: seq<Row>, tombs: seq<Pk>, k: nat) returns (t: Tiers)
    requires TiersOk(Tiers(s, ix, Idle)) && IsListing(rows, LiveOnly(s)) && IsPkListing(tombs, s.tombs)
    requires if rows == [] then k == 0 else k <= 3
    ensures t == Tiers(s, if rows == [] then ix else After(ix, SealUpdate(rows), k),
                       if rows == [] || k == 3 then AfterUpdate(tombs) else Updating(ix, rows, tombs, k))
    ensures TiersOk(t) && SameView(Tiers(s, ix, Idle), t)
    decreases k
  {
    hide TiersOk, Visible, FtsIndex.After, IsListing, IsPkListing, LiveOnly, SealUpdate;
    if k == 0 {
      var t0 := Tiers(s, ix, Idle);
      StepKeeps(t0, Snapshot(rows, tombs));
      t := Next(t0, Snapshot(rows, tombs));
      NoWriteYet(ix, rows);
    } else {
      var before := UpdateKeeps(s, ix, rows, tombs, k - 1);
      StepKeeps(before, DurableWrite);
      t := Next(before, DurableWrite);
    }
  }

  /** A seal given up after any of its writes has changed nothing that searches can see. */
  lemma AbortKeeps(s: Segment, ix: Stored, t: Tiers)
    requires TiersOk(t) && !t.phase.Idle? && t.segment == s && SameView(Tiers(s, ix, Idle), t)
    ensures SplitsSound(t.durable) && Scoped(t.durable) && SameView(Tiers(s, ix, Idle), Tiers(s, t.durable, Idle))
  {
    hide Visible, SplitsSound, Scoped;
    StepKeeps(t, Abort);
  }

  lemma DeleteKeepsView(t: Tiers, tombs: seq<Pk>) returns (u: Tiers)
    requires TiersOk(t) && t.phase == AfterUpdate(tombs)
    ensures u == Tiers(t.segment, if tombs == [] then t.durable else After(t.durable, SealDelete(tombs), 1), Finishing)
    ensures TiersOk(u) && SameView(t, u)
  {
    hide TiersOk, Visible, FtsIndex.After, SealDelete;
    u := t;
    if tombs != [] {
      StepKeeps(t, DurableWrite);
      u := Next(t, DurableWrite);
    }
  }

  /** Snapshots the segment, updates and deletes in the durable index, then finishes; if one of
      these fails, after whatever part of its writes, the seal is aborted. */
  method RunSeal(segment: LiveSegment, durable: FtsStore.Index, updateWrites: nat, deleteWrites: nat) returns (done: bool)
    requires segment.Valid() && !segment.sealing && SplitsSound(durable.store) && Scoped(durable.store)
    modifies segment, durable
    ensures segment.Valid() && !segment.sealing && SplitsSound(durable.store) && Scoped(durable.store)
    ensures segment.Contents() == if done then NoSegment else old(segment.Contents())
    ensures SameView(old(Tiers(segment.Contents(), durable.store, Idle)), Tiers(segment.Contents(), durable.store, Idle))
    ensures updateWrites >= 3 && deleteWrites >= 1 ==> done
  {
    hide LiveOf, FtsIndex.After, LiveOnly, SealUpdate, SealDelete, ToDoc, RowsFolded, TombsFolded, Visible,
         IsListing, IsPkListing, SplitsSound, Scoped, Copies, StatesTo, NumWrites, NewSplit, SegmentOk, TiersOk, Enabled;
    ghost var s, ix := segment.Contents(), durable.store;
    var rows, tombs := segment.SnapshotForSeal();
    IdleOk(s, ix);
    ghost var t := UpdateKeeps(s, ix, rows, tombs, if rows == [] then 0 else Least(updateWrites, 3));
    if rows != [] {
      var ids := ListIds(rows);
      var docs := ListDocs(rows);
      UpdateIs(ix, rows);
      var id := durable.Update(ids, docs, updateWrites);
      assert durable.store == t.durable;
      if id.None? {
        AbortKeeps(s, ix, t);
        segment.AbortSeal();
        return false;
      }
    }
    IsSound(t);
    if tombs != [] {
      var dead := ListPkIds(tombs);
      DeleteIs(t.durable, tombs);
      var ok := durable.Delete(dead, deleteWrites);
      if !ok {
        AbortKeeps(s, ix, t);
        segment.AbortSeal();
        return false;
      }
    }
    ghost var u := DeleteKeepsView(t, tombs);
    assert durable.store == u.durable;
    segment.FinishSeal();
    IsSound(u);
    FinishKeeps(u);
    done := true;
  }

  lemma IdleOk(s: Segment, ix: Stored)
    requires SegmentOk(s) && SplitsSound(ix) && Scoped(ix)
    ensures TiersOk(Tiers(s, ix, Idle)) && SameView(Tiers(s, ix, Idle), Tiers(s, ix, Idle))
  {
    hide Visible;
  }

  lemma IsSound(t: Tiers)
    requires TiersOk(t)
    ensures SplitsSound(t.durable) && Scoped(t.durable)
  {
  }

  lemma FinishKeeps(u: Tiers)
    requires TiersOk(u) && u.phase.Finishing?
    ensures SameView(u, Tiers(NoSegment, u.durable, Idle))
  {
    hide TiersOk, Visible;
    StepKeeps(u, Finish);
  }

  lemma UpdateIs(ix: Stored, rows: seq<Row>)
    ensures SealUpdate(rows) == Update(RowIds(rows), RowDocs(rows)) && NumWrites(ix, SealUpdate(rows)) == 3
  {
  }

  lemma DeleteIs(ix: Stored, pks: seq<Pk>)
    ensures SealDelete(pks) == Delete(PkIds(pks)) && NumWrites(ix, SealDelete(pks)) == 1
    ensures After(ix, SealDelete(pks), 0) == ix
  {
  }

  method ListIds(rows: seq<Row>) returns (ids: seq<Text>)
    ensures ids == RowIds(rows)
  {
    ids := [];
    for i := 0 to |rows|
      invariant ids == RowIds(rows[..i])
    {
      assert rows[..i + 1][..i] == rows[..i];
      ids := ids + [Render(rows[i].pk)];
    }
    assert rows[..|rows|] == rows;
  }

  method ListDocs(rows: seq<Row>) returns (docs: seq<Doc>)
    ensures docs == RowDocs(rows)
  {
    docs := [];
    for i := 0 to |rows|
      invariant docs == RowDocs(rows[..i])
    {
      assert rows[..i + 1][..i] == rows[..i];
      docs := docs + [ToDoc(rows[i])];
    }
    assert rows[..|rows|] == rows;
  }

  method ListPkIds(pks: seq<Pk>) returns (ids: seq<Text>)
    ensures ids == PkIds(pks)
  {
    ids := [];
    for i := 0 to |pks|
      invariant ids == PkIds(pks[..i])
    {
      assert pks[..i + 1][..i] == pks[..i];
      ids := ids + [Render(pks[i])];
    }
    assert pks[..|pks|] == pks;
  }
}

/** The in-memory tier in front of the durable index, and the seal that folds it in. */
module LiveTier {
  import opened Bytes
  import opened Decimal
  import opened Splits
  import opened FtsIndex
  import opened FtsMeaning
  import opened FtsStore

  type Pk = I64

  // ---- The live segment ----

  /** What a live segment holds: buffered documents, explicit tombstones, and every pk
      indexed or tombstoned since the last seal. */
  datatype Segment = Segment(docs: map<Pk, Text>, tombs: set<Pk>, covered: set<Pk>)

  const NoSegment := Segment(map[], {}, {})

  ghost predicate SegmentOk(s: Segment) {
    s.covered == s.docs.Keys + s.tombs
  }

  function Indexed(s: Segment, pk: Pk, text: Text): Segment {
    Segment(s.docs[pk := text], s.tombs, s.covered + {pk})
  }

  function Tombstoned(s: Segment, pk: Pk): Segment {
    Segment(s.docs - {pk}, s.tombs + {pk}, s.covered + {pk})
  }

  /** The documents a search of the segment can return. */
  function LiveOnly(s: Segment): map<Pk, Text> {
    s.docs - s.tombs
  }

  datatype Row = Row(pk: Pk, body: Text)

  /** The rows of a map, each once, in some order. */
  ghost predicate IsListing(rows: seq<Row>, m: map<Pk, Text>) {
    && (forall r :: r in rows <==> r.pk in m && m[r.pk] == r.body)
    && (forall i, j :: 0 <= i < j < |rows| ==> rows[i].pk != rows[j].pk)
  }

  ghost predicate IsPkListing(pks: seq<Pk>, s: set<Pk>) {
    forall pk :: pk in pks <==> pk in s
  }

  class LiveSegment {
    /** What the writer has buffered, and what the reader has loaded. */
    var docs: map<Pk, Text>
    var loaded: map<Pk, Text>
    var tombstones: set<Pk>
    var covered: set<Pk>
    var dirty: bool
    var sealing: bool

    ghost predicate Valid()
      reads this
    {
      SegmentOk(Contents()) && (!dirty ==> loaded == docs)
    }

    ghost function Contents(): Segment
      reads this
    {
      Segment(docs, tombstones, covered)
    }

    constructor ()
      ensures Valid() && !sealing && Contents() == NoSegment
    {
      docs, loaded, tombstones, covered := map[], map[], {}, {};
      dirty, sealing := false, false;
    }

    /** Supersedes the document of the same pk; waits while a seal is open. */
    method Index(pk: Pk, text: Text)
      requires Valid() && !sealing
      modifies this
      ensures Valid() && !sealing && Contents() == Indexed(old(Contents()), pk, text)
    {
      docs := docs[pk := text];
      covered := covered + {pk};
      dirty := true;
    }

    method Tombstone(pk: Pk)
      requires Valid() && !sealing
      modifies this
      ensures Valid() && !sealing && Contents() == Tombstoned(old(Contents()), pk)
    {
      docs := docs - {pk};
      tombstones := tombstones + {pk};
      covered := covered + {pk};
      dirty := true;
    }

    /** Commits and reloads if anything was buffered. */
    method EnsureFresh()
      requires Valid()
      modifies this
      ensures Valid() && !dirty && loaded == docs
      ensures Contents() == old(Contents()) && sealing == old(sealing)
    {
      if dirty {
        loaded, dirty := docs, false;
      }
    }

    method SnapshotForSeal() returns (rows: seq<Row>, tombs: seq<Pk>)
      requires Valid() && !sealing
      modifies this
      ensures Valid() && sealing && Contents() == old(Contents())
      ensures IsListing(rows, LiveOnly(Contents())) && IsPkListing(tombs, tombstones)
    {
      sealing := true;
      EnsureFresh();
      rows := [];
      var rest := loaded.Keys;
      while rest != {}
        invariant rest <= loaded.Keys
        invariant forall r :: r in rows <==> r.pk in loaded && r.pk !in rest && r.pk !in tombstones && loaded[r.pk] == r.body
        invariant forall i, j :: 0 <= i < j < |rows| ==> rows[i].pk != rows[j].pk
        decreases rest
      {
        var pk :| pk in rest;
        rest := rest - {pk};
        if pk !in tombstones {
          assert forall i :: 0 <= i < |rows| ==> rows[i] in rows;
          rows := rows + [Row(pk, loaded[pk])];
        }
      }
      tombs := ListPks(tombstones);
    }

    /** Clears the segment once the durable index has taken the snapshot. */
    method FinishSeal()
      requires Valid() && sealing
      modifies this
      ensures Valid() && !sealing && Contents() == NoSegment
    {
      docs, loaded := map[], map[];
      tombstones := {};
      covered := {};
      dirty := false;
      sealing := false;
    }

    method AbortSeal()
      requires Valid() && sealing
      modifies this
      ensures Valid() && !sealing && Contents() == old(Contents())
    {
      sealing := false;
    }
  }

  method ListPks(s: set<Pk>) returns (pks: seq<Pk>)
    ensures IsPkListing(pks, s)
  {
    pks := [];
    var rest := s;
    while rest != {}
      invariant rest <= s && forall pk :: pk in pks <==> pk in s && pk !in rest
      decreases rest
    {
      var pk :| pk in rest;
      rest, pks := rest - {pk}, pks + [pk];
    }
  }

  // ---- The visible view ----

  function ToDoc(r: Row): Doc {
    Doc(Render(r.pk), r.body)
  }

  /** How often a search over both tiers can return a row: from the segment, or from the
      durable index if the segment does not cover the pk. */
  ghost function Visible(s: Segment, ix: Stored, r: Row): nat {
    (if r.pk in s.docs && r.pk !in s.tombs && s.docs[r.pk] == r.body then 1 else 0)
    + if r.pk in s.covered then 0 else LiveOf(ix)[ToDoc(r)]
  }

  lemma VisibleIndex(s: Segment, ix: Stored, pk: Pk, text: Text, r: Row)
    requires SegmentOk(s)
    ensures SegmentOk(Indexed(s, pk, text))
    ensures Visible(Indexed(s, pk, text), ix, r)
         == if r.pk != pk then Visible(s, ix, r) else if pk !in s.tombs && r.body == text then 1 else 0
  {
  }

  lemma VisibleTombstone(s: Segment, ix: Stored, pk: Pk, r: Row)
    requires SegmentOk(s)
    ensures SegmentOk(Tombstoned(s, pk))
    ensures Visible(Tombstoned(s, pk), ix, r) == if r.pk == pk then 0 else Visible(s, ix, r)
  {
  }

  // ---- What a seal writes ----

  function RowDocs(rows: seq<Row>): (docs: seq<Doc>)
    ensures |docs| == |rows| && forall i :: 0 <= i < |rows| ==> docs[i] == ToDoc(rows[i])
  {
    if rows == [] then [] else RowDocs(rows[..|rows| - 1]) + [ToDoc(rows[|rows| - 1])]
  }

  function RowIds(rows: seq<Row>): (ids: seq<Text>)
    ensures |ids| == |rows| && forall i :: 0 <= i < |rows| ==> ids[i] == Render(rows[i].pk)
  {
    if rows == [] then [] else RowIds(rows[..|rows| - 1]) + [Render(rows[|rows| - 1].pk)]
  }

  function PkIds(pks: seq<Pk>): (ids: seq<Text>)
    ensures |ids| == |pks| && forall i :: 0 <= i < |pks| ==> ids[i] == Render(pks[i])
  {
    if pks == [] then [] else PkIds(pks[..|pks| - 1]) + [Render(pks[|pks| - 1])]
  }

  function SealUpdate(rows: seq<Row>): FtsOp {
    Update(RowIds(rows), RowDocs(rows))
  }

  function SealDelete(pks: seq<Pk>): FtsOp {
    Delete(PkIds(pks))
  }

  lemma InRowIds(rows: seq<Row>, pk: Pk)
    ensures Render(pk) in RowIds(rows) <==> exists r :: r in rows && r.pk == pk
  {
    var ids := RowIds(rows);
    if Render(pk) in ids {
      var i :| 0 <= i < |ids| && ids[i] == Render(pk);
      RenderInjective(rows[i].pk, pk);
      assert rows[i] in rows;
    }
    if r :| r in rows && r.pk == pk {
      var i :| 0 <= i < |rows| && rows[i] == r;
      assert ids[i] == Render(pk);
    }
  }

  lemma InPkIds(pks: seq<Pk>, pk: Pk)
    ensures Render(pk) in PkIds(pks) <==> pk in pks
  {
    var ids := PkIds(pks);
    if Render(pk) in ids {
      var i :| 0 <= i < |ids| && ids[i] == Render(pk);
      RenderInjective(pks[i], pk);
    }
    if pk in pks {
      var i :| 0 <= i < |pks| && pks[i] == pk;
      assert ids[i] == Render(pk);
    }
  }

  lemma RowDocsSnoc(rows: seq<Row>)
    requires rows != []
    ensures RowDocs(rows) == RowDocs(rows[..|rows| - 1]) + [ToDoc(rows[|rows| - 1])]
  {
  }

  lemma NoRowDocs()
    ensures RowDocs([]) == []
  {
  }

  lemma DistinctSnoc(rows: seq<Row>, r: Row)
    requires rows != [] && forall i, j :: 0 <= i < j < |rows| ==> rows[i].pk != rows[j].pk
    ensures var n := |rows| - 1;
            r in rows <==> r in rows[..n] || r == rows[n]
    ensures r in rows[..|rows| - 1] ==> r.pk != rows[|rows| - 1].pk
  {
    assert rows == rows[..|rows| - 1] + [rows[|rows| - 1]];
  }

  lemma {:induction false} RowDocsCount(rows: seq<Row>, r: Row)
    requires forall i, j :: 0 <= i < j < |rows| ==> rows[i].pk != rows[j].pk
    ensures multiset(RowDocs(rows))[ToDoc(r)] == if r in rows then 1 else 0
  {
    hide RowDocs, Render;
    NoRowDocs();
    if rows != [] {
      var n := |rows| - 1;
      RowDocsCount(rows[..n], r);
      DistinctSnoc(rows, r);
      RowDocsSnoc(rows);
      CountSnoc(RowDocs(rows[..n]), ToDoc(rows[n]), ToDoc(r));
      if ToDoc(r) == ToDoc(rows[n]) {
        RenderInjective(r.pk, rows[n].pk);
      }
    }
  }

  /** Each write of the update leaves rows of other pks alone; the last one leaves exactly the
      rows of the snapshot. */
  lemma UpdateRows(ix: Stored, rows: seq<Row>, m: map<Pk, Text>, k: nat, r: Row)
    requires SplitsSound(ix) && Scoped(ix) && IsListing(rows, m) && k <= 3
    ensures var after := After(ix, SealUpdate(rows), k);
            && SplitsSound(after) && Scoped(after)
            && (r.pk !in m ==> LiveOf(after)[ToDoc(r)] == LiveOf(ix)[ToDoc(r)])
            && (k == 3 && r.pk in m ==> LiveOf(after)[ToDoc(r)] == if m[r.pk] == r.body then 1 else 0)
  {
    hide SplitsSound, Scoped, LiveOf, FtsIndex.After, RowIds, RowDocs, Render;
    EveryWrite(ix, SealUpdate(rows), k, ToDoc(r));
    InRowIds(rows, r.pk);
    RowDocsCount(rows, r);
    if r.pk in m {
      assert Row(r.pk, m[r.pk]) in rows;
    }
  }

  lemma DeleteRows(ix: Stored, pks: seq<Pk>, k: nat, r: Row)
    requires SplitsSound(ix) && Scoped(ix) && k <= 1
    ensures var after := After(ix, SealDelete(pks), k);
            && SplitsSound(after) && Scoped(after)
            && LiveOf(after)[ToDoc(r)] == if k == 1 && r.pk in pks then 0 else LiveOf(ix)[ToDoc(r)]
  {
    hide SplitsSound, Scoped, LiveOf, FtsIndex.After, PkIds, Render;
    EveryWrite(ix, SealDelete(pks), k, ToDoc(r));
    InPkIds(pks, r.pk);
  }
}

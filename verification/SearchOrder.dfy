/** The order of search results, field by field, and which hits are left out. */
module SearchOrder {
  import opened Splits
  import opened Search
  import opened MergedSearch
  import opened SearchExact

  /** Scores do not rise; equal scores are in the order of splits, then segments, then documents;
      no hit is there twice. */
  ghost predicate InOrder(hits: seq<Hit>) {
    forall i, j :: 0 <= i < j < |hits| ==> IsAfter(hits[i], hits[j])
  }

  predicate IsAfter(a: Hit, b: Hit) {
    && b.score <= a.score
    && (b.score == a.score ==> a.split <= b.split)
    && (b.score == a.score && b.split == a.split ==> a.segment <= b.segment)
    && (b.score == a.score && b.split == a.split && b.segment == a.segment ==> a.doc < b.doc)
  }

  lemma BeforeIsAfter(a: Hit, b: Hit)
    requires Before(a, b)
    ensures IsAfter(a, b)
  {
  }

  lemma RankedInOrder(hits: seq<Hit>)
    requires Ranked(hits)
    ensures InOrder(hits)
  {
    hide Before, IsAfter;
    forall i, j | 0 <= i < j < |hits|
      ensures IsAfter(hits[i], hits[j])
    {
      BeforeIsAfter(hits[i], hits[j]);
    }
  }

  lemma InTake(hits: seq<Hit>, limit: nat, q: nat)
    requires q < |hits|
    ensures q < |Take(hits, limit)| ==> hits[q] in Take(hits, limit)
  {
    assert q < |Take(hits, limit)| ==> Take(hits, limit)[q] == hits[q];
  }

  /** The first of some hits: in order, and all others come after the last of them. */
  lemma TopInOrder(all: seq<Hit>, limit: nat)
    requires Distinct(all) && limit >= 1
    ensures var top := Take(SortHits(all), limit);
      && InOrder(top)
      && (forall h :: h in top ==> h in all)
      && (forall h :: h in all && h !in top ==> |top| == limit && IsAfter(top[limit - 1], h))
  {
    hide Before, IsAfter, SortHits;
    SortKeeps(all);
    var sorted := SortHits(all);
    var top := Take(sorted, limit);
    RankedInOrder(sorted);
    forall h | h in all && h !in top
      ensures |top| == limit && IsAfter(top[limit - 1], h)
    {
      assert h in sorted;
      var q :| 0 <= q < |sorted| && sorted[q] == h;
      InTake(sorted, limit, q);
    }
  }

  /** The newest live copy of its id; of two of one generation, that of the later split. */
  ghost predicate IsNewest(handles: seq<Handle>, tombs: Tombstones, c: Candidate) {
    && c in AllLive(handles, tombs)
    && forall d :: d in AllLive(handles, tombs) && d.id == c.id ==>
         d.generation <= c.generation && (d.generation == c.generation ==> d.hit.split <= c.hit.split)
  }

  lemma DominatesNewest(handles: seq<Handle>, tombs: Tombstones, c: Candidate)
    requires AllRanked(handles)
    ensures Dominates(AllLive(handles, tombs), c) <==> IsNewest(handles, tombs, c)
  {
    hide AllLive, WellRanked;
    ListsOk(handles, tombs, 0);
    var all := AllLive(handles, tombs);
    if IsNewest(handles, tombs, c) {
      forall d | d in all && d.id == c.id && d != c
        ensures Wins(c, d)
      {
        var i :| 0 <= i < |all| && all[i] == c;
        var j :| 0 <= j < |all| && all[j] == d;
        assert i != j;
      }
    }
  }

  /** What the filtered search returns is in order. When enough is fetched, it is of the newest
      live copies, and each of these that is left out comes after the last that is returned. */
  lemma FilteredInOrder(handles: seq<Handle>, tombs: Tombstones, limit: nat)
    requires AllRanked(handles) && limit >= 1
    ensures var r := Filtered(handles, tombs, limit);
      && InOrder(r) && |r| <= limit
      && (FetchSuffices(handles, tombs) ==>
            && (forall h :: h in r ==> exists c :: IsNewest(handles, tombs, c) && c.hit == h)
            && (forall c :: IsNewest(handles, tombs, c) && c.hit !in r ==> |r| == limit && IsAfter(r[limit - 1], c.hit)))
  {
    hide AllLive, Fetched, Kept, WellRanked, FetchSuffices, Dominates, SortHits, IsNewest, IsAfter, Distinct, NoTwins;
    var cs, all := Fetched(handles, tombs, limit + |tombs|), AllLive(handles, tombs);
    ListsOk(handles, tombs, limit + |tombs|);
    TopInOrder(Kept(cs, |cs|), limit);
    if FetchSuffices(handles, tombs) {
      SufficesIsRight(handles, tombs, limit);
      TopInOrder(Kept(all, |all|), limit);
      forall c | IsNewest(handles, tombs, c)
        ensures c.hit in Kept(all, |all|)
      {
        DominatesNewest(handles, tombs, c);
        KeptAre(all, c.hit);
      }
      forall h | h in Kept(all, |all|)
        ensures exists c :: IsNewest(handles, tombs, c) && c.hit == h
      {
        KeptAre(all, h);
        var c :| Dominates(all, c) && c.hit == h;
        DominatesNewest(handles, tombs, c);
      }
    }
  }

  /** A page is in order too: it is the hits of all splits from `offset` on, in order. */
  lemma PageInOrder(handles: seq<Handle>, offset: nat, limit: nat)
    requires AllRanked(handles)
    ensures exists ranked: seq<Hit> ::
      && InOrder(ranked) && (forall h :: h in ranked <==> exists c :: c in AllLive(handles, map[]) && c.hit == h)
      && Page(SortHits(HitsOnly(Fetched(handles, map[], offset + limit))), offset, limit)
         == (if |ranked| <= offset then [] else if |ranked| <= offset + limit then ranked[offset..] else ranked[offset..offset + limit])
  {
    hide AllLive, Fetched, WellRanked, SortHits, IsAfter;
    var all := HitsOnly(AllLive(handles, map[]));
    PageIsComplete(handles, offset, limit);
    LiveDistinct(handles, map[]);
    SortKeeps(all);
    var ranked := SortHits(all);
    RankedInOrder(ranked);
    forall h
      ensures h in ranked <==> exists c :: c in AllLive(handles, map[]) && c.hit == h
    {
      HitsAre(AllLive(handles, map[]), h);
    }
  }

  lemma HitsAre(cs: seq<Candidate>, h: Hit)
    ensures h in HitsOnly(cs) <==> exists c :: c in cs && c.hit == h
  {
    if h in HitsOnly(cs) {
      var i :| 0 <= i < |HitsOnly(cs)| && HitsOnly(cs)[i] == h;
      assert cs[i] in cs;
    }
    if c :| c in cs && c.hit == h {
      var i :| 0 <= i < |cs| && cs[i] == c;
      assert HitsOnly(cs)[i] == h;
    }
  }
}

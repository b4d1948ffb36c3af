/** Where too little is fetched, some scoring shows it: the other half of when the filtered
    search is right. */
module SearchLimits {
  import opened Bytes
  import opened Splits
  import opened Search
  import opened MergedSearch
  import opened SearchExact

  // ---- Scorings ----

  /** A match without its score. */
  datatype Place = Place(segment: nat, doc: nat, id: Text)

  function PlaceOf(m: Match): Place {
    Place(m.segment, m.doc, m.id)
  }

  function Places(h: Handle): set<Place> {
    set m | m in h.ranked :: PlaceOf(m)
  }

  /** The same matches in the same splits, under any scores. */
  ghost predicate Rescores(handles: seq<Handle>, others: seq<Handle>) {
    && |others| == |handles|
    && forall i :: 0 <= i < |handles| ==> RescoresSplit(handles[i], others[i])
  }

  ghost predicate RescoresSplit(h: Handle, o: Handle) {
    WellRanked(o) && o.generation == h.generation && Places(o) == Places(h)
  }

  lemma SameIds(h: Handle, o: Handle)
    requires Places(o) == Places(h)
    ensures Ids(o) == Ids(h)
  {
    IdsOfPlaces(h);
    IdsOfPlaces(o);
  }

  lemma IdsOfPlaces(h: Handle)
    ensures Ids(h) == set p | p in Places(h) :: p.id
  {
    forall x | x in Ids(h)
      ensures x in set p | p in Places(h) :: p.id
    {
      var m :| m in h.ranked && m.id == x;
      assert PlaceOf(m) in Places(h);
    }
  }

  /** No scoring changes which copies are the newest, nor whether enough is fetched. */
  lemma RescoredShape(handles: seq<Handle>, others: seq<Handle>, tombs: Tombstones)
    requires Rescores(handles, others)
    ensures AllRanked(others)
    ensures forall i :: 0 <= i < |handles| ==> Ids(others[i]) == Ids(handles[i])
    ensures forall i, x :: 0 <= i < |handles| ==> (LiveIn(others, tombs, i, x) <==> LiveIn(handles, tombs, i, x))
    ensures forall i, x :: 0 <= i < |handles| ==> (WinsId(others, tombs, i, x) <==> WinsId(handles, tombs, i, x))
  {
    hide WellRanked, Places, Ids, IsDeletedAt;
    forall i | 0 <= i < |handles|
      ensures Ids(others[i]) == Ids(handles[i]) && others[i].generation == handles[i].generation
    {
      assert RescoresSplit(handles[i], others[i]);
      SameIds(handles[i], others[i]);
    }
    assert forall i, j :: 0 <= i < |handles| && 0 <= j < |handles| ==> (NotNewer(others, j, i) <==> NotNewer(handles, j, i));
  }

  lemma RescoredSuffices(handles: seq<Handle>, others: seq<Handle>, tombs: Tombstones)
    requires Rescores(handles, others) && FetchSuffices(handles, tombs)
    ensures FetchSuffices(others, tombs)
  {
    hide Ids, LiveIn, WinsId, Rescores;
    RescoredShape(handles, others, tombs);
    assert |others| == |handles| by {
      SameCount(handles, others);
    }
    forall i | 0 <= i < |others|
      ensures SplitSuffices(others, tombs, i)
    {
      assert SplitSuffices(handles, tombs, i);
      assert WinningIds(others, tombs, i) == WinningIds(handles, tombs, i);
      assert forall x :: Duplicated(others, tombs, i, x) ==> Duplicated(handles, tombs, i, x);
    }
  }

  lemma SameCount(handles: seq<Handle>, others: seq<Handle>)
    requires Rescores(handles, others)
    ensures |others| == |handles|
  {
  }

  // ---- Arranging a split ----

  /** The matches in the given order, scored downwards from `base`. */
  function Scored(ms: seq<Match>, base: int): (r: seq<Match>)
    ensures |r| == |ms|
    ensures forall k :: 0 <= k < |ms| ==> r[k].score == base - k && PlaceOf(r[k]) == PlaceOf(ms[k])
  {
    seq(|ms|, k requires 0 <= k < |ms| => Match(base - k, ms[k].segment, ms[k].doc, ms[k].id))
  }

  /** The matches of some ids in front, or at the end. */
  function Arrange(h: Handle, ids: set<Text>, front: bool, base: int): Handle {
    Handle(h.generation,
           Scored(if front then Select(h.ranked, ids) + Reject(h.ranked, ids)
                  else Reject(h.ranked, ids) + Select(h.ranked, ids), base))
  }

  lemma ArrangeOk(h: Handle, ids: set<Text>, front: bool, base: int)
    requires WellRanked(h)
    ensures RescoresSplit(h, Arrange(h, ids, front, base))
    ensures |Arrange(h, ids, front, base).ranked| == |h.ranked|
  {
    hide Select, Reject;
    var ms := if front then Select(h.ranked, ids) + Reject(h.ranked, ids) else Reject(h.ranked, ids) + Select(h.ranked, ids);
    SelectAre(h.ranked, ids);
    SelectDistinct(h.ranked, ids);
    PartsDistinct(h, ids, ms, front);
    ScoredOk(ms, base);
    SamePlaces(h, ms, Arrange(h, ids, front, base));
  }

  lemma PartsDistinct(h: Handle, ids: set<Text>, ms: seq<Match>, front: bool)
    requires ms == if front then Select(h.ranked, ids) + Reject(h.ranked, ids) else Reject(h.ranked, ids) + Select(h.ranked, ids)
    requires DistinctMatches(Select(h.ranked, ids)) && DistinctMatches(Reject(h.ranked, ids))
    requires (forall m :: m in Select(h.ranked, ids) ==> m.id in ids) && forall m :: m in Reject(h.ranked, ids) ==> m.id !in ids
    ensures DistinctMatches(ms)
  {
    hide Select, Reject;
    var a, b := Select(h.ranked, ids), Reject(h.ranked, ids);
    assert forall i :: 0 <= i < |a| ==> a[i] in a;
    assert forall i :: 0 <= i < |b| ==> b[i] in b;
  }

  lemma ScoredOk(ms: seq<Match>, base: int)
    requires DistinctMatches(ms)
    ensures Ranked(HitsOf(0, Scored(ms, base))) && DistinctMatches(Scored(ms, base))
  {
    assert forall k :: 0 <= k < |ms| ==> PlaceOf(Scored(ms, base)[k]).id == PlaceOf(ms[k]).id;
  }

  lemma SamePlaces(h: Handle, ms: seq<Match>, o: Handle)
    requires |o.ranked| == |ms| && forall k :: 0 <= k < |ms| ==> PlaceOf(o.ranked[k]) == PlaceOf(ms[k])
    requires forall m :: m in ms <==> m in h.ranked
    ensures Places(o) == Places(h)
  {
    forall p | p in Places(o)
      ensures p in Places(h)
    {
      var m :| m in o.ranked && PlaceOf(m) == p;
      var k :| 0 <= k < |ms| && o.ranked[k] == m;
      assert ms[k] in h.ranked;
    }
    forall p | p in Places(h)
      ensures p in Places(o)
    {
      var m :| m in h.ranked && PlaceOf(m) == p;
      var k :| 0 <= k < |ms| && ms[k] == m;
      assert o.ranked[k] in o.ranked;
    }
  }

  /** Scores of an arranged split lie between `base` and `base` less its length. */
  lemma ArrangedScore(h: Handle, ids: set<Text>, front: bool, base: int, c: Candidate)
    requires WellRanked(h) && IsOf(Arrange(h, ids, front, base).ranked, c)
    ensures base - |h.ranked| < c.hit.score <= base
  {
    hide Select, Reject, WellRanked;
    ArrangeOk(h, ids, front, base);
    var o := Arrange(h, ids, front, base);
    var m :| m in o.ranked && c.hit == HitOf(c.hit.split, m) && c.id == m.id;
    var k :| 0 <= k < |o.ranked| && o.ranked[k] == m;
  }

  /** The selected matches are in the first, or the last, places. */
  lemma ArrangedPlaces(h: Handle, ids: set<Text>, front: bool, base: int, k: nat)
    requires WellRanked(h) && k < |h.ranked|
    ensures var o, n := Arrange(h, ids, front, base), |Select(h.ranked, ids)|;
            && |o.ranked| == |h.ranked| && n <= |h.ranked|
            && (o.ranked[k].id in ids <==> if front then k < n else k >= |h.ranked| - n)
  {
    hide Select, Reject, WellRanked;
    SelectAre(h.ranked, ids);
    var a, b := Select(h.ranked, ids), Reject(h.ranked, ids);
    assert forall i :: 0 <= i < |a| ==> a[i] in a;
    assert forall i :: 0 <= i < |b| ==> b[i] in b;
    var ms := if front then a + b else b + a;
    assert PlaceOf(Arrange(h, ids, front, base).ranked[k]).id == PlaceOf(ms[k]).id;
  }

  lemma SelectCount(h: Handle, ids: set<Text>)
    requires WellRanked(h) && ids <= Ids(h)
    ensures |Select(h.ranked, ids)| == |ids| && |Ids(h) - ids| == |h.ranked| - |ids| && |Ids(h)| == |h.ranked|
  {
    hide Ranked, Select, Reject;
    var a, b := Select(h.ranked, ids), Reject(h.ranked, ids);
    SelectAre(h.ranked, ids);
    SelectDistinct(h.ranked, ids);
    IdCount(a);
    IdCount(b);
    IdCount(h.ranked);
    assert (set m | m in a :: m.id) == ids;
    assert (set m | m in b :: m.id) == Ids(h) - ids;
  }

  // ---- The top hit ----

  lemma TopHit(hits: seq<Hit>)
    requires Distinct(hits) && hits != []
    ensures var top := Take(SortHits(hits), 1);
            |top| == 1 && top[0] in hits && forall h :: h in hits ==> h == top[0] || Before(top[0], h)
  {
    hide Before, SortHits;
    SortKeeps(hits);
    assert hits[0] in hits;
  }

  lemma {:induction false} NoTop(hits: seq<Hit>)
    requires hits == []
    ensures Take(SortHits(hits), 1) == []
  {
  }

  /** If both searches agree on one hit, it is a newest copy, and one that was fetched. */
  lemma AgreedTop(others: seq<Handle>, tombs: Tombstones) returns (f: Candidate, g: Candidate)
    requires AllRanked(others) && Filtered(others, tombs, 1) == Unbounded(others, tombs, 1)
    requires Kept(AllLive(others, tombs), |AllLive(others, tombs)|) != []
    ensures var cs, all := Fetched(others, tombs, 1 + |tombs|), AllLive(others, tombs);
            && Dominates(cs, f) && Dominates(all, g) && f.hit == g.hit
            && (forall c :: Dominates(cs, c) ==> c.hit == f.hit || Before(f.hit, c.hit))
            && (forall c :: Dominates(all, c) ==> c.hit == f.hit || Before(f.hit, c.hit))
  {
    hide AllLive, Fetched, Kept, SortHits, Take, Dominates, NoTwins, WellRanked, Distinct, Before;
    var cs, all := Fetched(others, tombs, 1 + |tombs|), AllLive(others, tombs);
    ListsOk(others, tombs, 1 + |tombs|);
    var part, whole := Kept(cs, |cs|), Kept(all, |all|);
    TopHit(whole);
    if part == [] {
      NoTop(part);
    }
    TopHit(part);
    var top := Take(SortHits(whole), 1)[0];
    KeptAre(cs, top);
    KeptAre(all, top);
    f :| Dominates(cs, f) && f.hit == top;
    g :| Dominates(all, g) && g.hit == top;
    forall c | Dominates(cs, c)
      ensures c.hit == top || Before(top, c.hit)
    {
      KeptAre(cs, c.hit);
    }
    forall c | Dominates(all, c)
      ensures c.hit == top || Before(top, c.hit)
    {
      KeptAre(all, c.hit);
    }
  }

  lemma SomeWinner(others: seq<Handle>, tombs: Tombstones, i: nat, x: Text) returns (w: Candidate)
    requires AllRanked(others) && i < |others| && WinsId(others, tombs, i, x)
    ensures Dominates(AllLive(others, tombs), w) && w.hit.split == i && w.id == x && IsOf(others[i].ranked, w)
    ensures Kept(AllLive(others, tombs), |AllLive(others, tombs)|) != []
  {
    hide AllLive, Kept, Dominates, WellRanked, NotNewer, NoTwins, IsOf;
    w := LiveInAt(others, tombs, i, x);
    WinnersAre(others, tombs, w);
    ListsOk(others, tombs, 0);
    KeptAre(AllLive(others, tombs), w.hit);
  }

  // ---- Too many dead and superseded copies ----

  /** Split `i` ranks first, and in it the copies that are not the newest. */
  function Buried(handles: seq<Handle>, i: nat, ids: set<Text>): (others: seq<Handle>)
    requires i < |handles|
    ensures |others| == |handles|
  {
    seq(|handles|, k requires 0 <= k < |handles| =>
      if k == i then Arrange(handles[k], ids, false, 0) else Arrange(handles[k], {}, false, -|handles[i].ranked|))
  }

  lemma BuriedRescores(handles: seq<Handle>, i: nat, ids: set<Text>)
    requires AllRanked(handles) && i < |handles|
    ensures Rescores(handles, Buried(handles, i, ids))
  {
    hide WellRanked, RescoresSplit, Arrange;
    forall k | 0 <= k < |handles|
      ensures RescoresSplit(handles[k], Buried(handles, i, ids)[k])
    {
      ArrangeOk(handles[k], ids, false, 0);
      ArrangeOk(handles[k], {}, false, -|handles[i].ranked|);
    }
  }

  lemma BuriedIsWrong(handles: seq<Handle>, tombs: Tombstones, i: nat)
    requires AllRanked(handles) && i < |handles| && WinningIds(handles, tombs, i) != {}
    requires |Ids(handles[i]) - WinningIds(handles, tombs, i)| > |tombs|
    ensures var others := Buried(handles, i, WinningIds(handles, tombs, i));
            Rescores(handles, others) && Filtered(others, tombs, 1) != Unbounded(others, tombs, 1)
  {
    hide AllLive, Fetched, Kept, WellRanked, Dominates, IsOf, Arrange, Rescores, Ids, Filtered, Unbounded, TopDocs, WinsId, LiveIn,
         IsDeletedAt, Before, Buried, WinningIds;
    var ids := WinningIds(handles, tombs, i);
    var others := Buried(handles, i, ids);
    BuriedRescores(handles, i, ids);
    RescoredShape(handles, others, tombs);
    AreWinning(handles, tombs, i);
    if Filtered(others, tombs, 1) == Unbounded(others, tombs, 1) {
      var x :| x in ids;
      var w := SomeWinner(others, tombs, i, x);
      var f, g := AgreedTop(others, tombs);
      InDominated(Fetched(others, tombs, 1 + |tombs|), f);
      FetchedAre(others, tombs, 1 + |tombs|, f);
      FetchedIsLive(others, tombs, 1 + |tombs|, f);
      WinnersAre(others, tombs, g);
      OnlySplitRanks(handles, i, ids, f, w);
      assert WellRanked(others[i]) && IsOf(others[i].ranked, f) && IsOf(others[i].ranked, g);
      SameHitSameId(others[i], f, g);
      NoneBuried(handles, tombs, i, f);
    }
  }

  lemma AreWinning(handles: seq<Handle>, tombs: Tombstones, i: nat)
    requires i < |handles|
    ensures WinningIds(handles, tombs, i) <= Ids(handles[i])
    ensures forall x :: x in WinningIds(handles, tombs, i) <==> WinsId(handles, tombs, i, x)
  {
  }

  lemma NoneBuried(handles: seq<Handle>, tombs: Tombstones, i: nat, f: Candidate)
    requires AllRanked(handles) && i < |handles| && |Ids(handles[i]) - WinningIds(handles, tombs, i)| > |tombs|
    requires FetchedAt(Buried(handles, i, WinningIds(handles, tombs, i)), tombs, 1 + |tombs|, f) && f.hit.split == i
    ensures !WinsId(handles, tombs, i, f.id)
  {
    hide WellRanked, Arrange, Ids, WinsId, IsOf, TopDocs, IsDeletedAt, WinningIds;
    AreWinning(handles, tombs, i);
    NoneInTop(handles[i], WinningIds(handles, tombs, i), tombs, f);
  }

  lemma OnlySplitRanks(handles: seq<Handle>, i: nat, ids: set<Text>, f: Candidate, w: Candidate)
    requires AllRanked(handles) && i < |handles| && f.hit.split < |handles| && w.hit.split == i
    requires IsOf(Buried(handles, i, ids)[f.hit.split].ranked, f) && IsOf(Buried(handles, i, ids)[i].ranked, w)
    requires w.hit == f.hit || Before(f.hit, w.hit)
    ensures f.hit.split == i
  {
    hide IsOf, Arrange, WellRanked;
    ArrangedScore(handles[i], ids, false, 0, w);
    if f.hit.split != i {
      ArrangedScore(handles[f.hit.split], {}, false, -|handles[i].ranked|, f);
    }
  }

  /** The first places of the split hold none of the newest copies. */
  lemma NoneInTop(h: Handle, ids: set<Text>, tombs: Tombstones, f: Candidate)
    requires WellRanked(h) && ids <= Ids(h) && |Ids(h) - ids| > |tombs|
    requires IsOf(TopDocs(Arrange(h, ids, false, 0), 1 + |tombs|), f)
    ensures f.id !in ids
  {
    hide Arrange, WellRanked, Ids;
    var o := Arrange(h, ids, false, 0);
    ArrangeOk(h, ids, false, 0);
    SelectCount(h, ids);
    var ms := TopDocs(o, 1 + |tombs|);
    var m :| m in ms && f.hit == HitOf(f.hit.split, m) && f.id == m.id;
    var k :| 0 <= k < |ms| && ms[k] == m;
    ArrangedPlaces(h, ids, false, 0, k);
  }

  // ---- A newest copy left out, and an older one returned for it ----

  /** Split `i` ranks the id last; every other split ranks it first, above all else. */
  function Outdated(handles: seq<Handle>, i: nat, x: Text): (others: seq<Handle>)
    requires i < |handles|
    ensures |others| == |handles|
  {
    seq(|handles|, k requires 0 <= k < |handles| =>
      if k == i then Arrange(handles[k], {x}, false, -1)
      else Arrange(handles[k], {x}, true, if x in Ids(handles[k]) then 0 else -1))
  }

  lemma OutdatedRescores(handles: seq<Handle>, i: nat, x: Text)
    requires AllRanked(handles) && i < |handles|
    ensures Rescores(handles, Outdated(handles, i, x))
  {
    hide WellRanked, RescoresSplit, Arrange;
    forall k | 0 <= k < |handles|
      ensures RescoresSplit(handles[k], Outdated(handles, i, x)[k])
    {
      ArrangeOk(handles[k], {x}, false, -1);
      ArrangeOk(handles[k], {x}, true, if x in Ids(handles[k]) then 0 else -1);
    }
  }

  lemma OutdatedIsWrong(handles: seq<Handle>, tombs: Tombstones, i: nat, j: nat, x: Text)
    requires AllRanked(handles) && i < |handles| && j < |handles| && j != i
    requires WinsId(handles, tombs, i, x) && LiveIn(handles, tombs, j, x) && |Ids(handles[i])| > |tombs| + 1
    ensures Rescores(handles, Outdated(handles, i, x))
    ensures Filtered(Outdated(handles, i, x), tombs, 1) != Unbounded(Outdated(handles, i, x), tombs, 1)
  {
    hide AllLive, Fetched, Kept, WellRanked, Dominates, IsOf, Arrange, Rescores, Ids, Filtered, Unbounded, TopDocs, NotNewer,
         IsDeletedAt, NoTwins, Before, Wins, Outdated;
    var others := Outdated(handles, i, x);
    OutdatedRescores(handles, i, x);
    RescoredShape(handles, others, tombs);
    if Filtered(others, tombs, 1) == Unbounded(others, tombs, 1) {
      var w := SomeWinner(others, tombs, i, x);
      var f, g := AgreedTop(others, tombs);
      InDominated(Fetched(others, tombs, 1 + |tombs|), f);
      SameGeneration(handles, others, j);
      var older := OlderFetched(handles, tombs, i, j, x);
      TopIsOlder(handles, tombs, i, x, f, older);
      FetchedAre(others, tombs, 1 + |tombs|, f);
      FetchedIsLive(others, tombs, 1 + |tombs|, f);
      WinnersAre(others, tombs, g);
      WinnersAre(others, tombs, w);
      var k := f.hit.split;
      assert WellRanked(others[k]) && IsOf(others[k].ranked, f) && IsOf(others[k].ranked, g);
      SameHitSameId(others[k], f, g);
      OneWinner(others, tombs, i, f.hit.split, x);
    }
  }

  lemma SameGeneration(handles: seq<Handle>, others: seq<Handle>, j: nat)
    requires Rescores(handles, others) && j < |handles|
    ensures |others| == |handles| && others[j].generation == handles[j].generation
  {
    assert RescoresSplit(handles[j], others[j]);
  }

  lemma OneWinner(handles: seq<Handle>, tombs: Tombstones, i: nat, k: nat, x: Text)
    requires i < |handles| && k < |handles| && WinsId(handles, tombs, i, x) && WinsId(handles, tombs, k, x)
    ensures i == k
  {
    assert NotNewer(handles, i, k) && NotNewer(handles, k, i);
  }

  /** Of the id, an older copy is what wins among the fetched. */
  lemma OlderFetched(handles: seq<Handle>, tombs: Tombstones, i: nat, j: nat, x: Text) returns (older: Candidate)
    requires AllRanked(handles) && i < |handles| && j < |handles| && j != i
    requires AllRanked(Outdated(handles, i, x)) && LiveIn(handles, tombs, j, x) && x in Ids(handles[i]) && |Ids(handles[i])| > |tombs| + 1
    requires handles[j].generation == Outdated(handles, i, x)[j].generation
    ensures Dominates(Fetched(Outdated(handles, i, x), tombs, 1 + |tombs|), older) && older.id == x
    ensures older.hit.score >= 0
  {
    hide Fetched, WellRanked, Dominates, Arrange, NoTwins, IsDeletedAt;
    var others, fetch := Outdated(handles, i, x), 1 + |tombs|;
    var d := FirstFetched(handles[j], others[j], tombs, j, x, fetch);
    assert FetchedAt(others, tombs, fetch, d);
    FetchedAre(others, tombs, fetch, d);
    FetchedNoTwins(others, tombs, fetch);
    SomeDominates(Fetched(others, tombs, fetch), d);
    older :| Dominates(Fetched(others, tombs, fetch), older) && older.id == x;
    InDominated(Fetched(others, tombs, fetch), older);
    FetchedAre(others, tombs, fetch, older);
    var k := older.hit.split;
    if k == i {
      LastNotFetched(handles[i], x, fetch, older);
    }
    OldScore(handles[k], x, fetch, older);
  }

  lemma InDominated(cs: seq<Candidate>, c: Candidate)
    requires Dominates(cs, c)
    ensures c in cs
  {
  }

  lemma FirstFetched(h: Handle, o: Handle, tombs: Tombstones, j: nat, x: Text, fetch: nat) returns (d: Candidate)
    requires WellRanked(h) && x in Ids(h) && o == Arrange(h, {x}, true, 0) && fetch >= 1 && !IsDeletedAt(tombs, x, h.generation)
    ensures d.hit.split == j && d.id == x && d.generation == h.generation && IsOf(TopDocs(o, fetch), d)
  {
    hide WellRanked, IsDeletedAt;
    SelectCount(h, {x});
    ArrangedPlaces(h, {x}, true, 0, 0);
    d := Candidate(HitOf(j, o.ranked[0]), x, h.generation);
    assert TopDocs(o, fetch)[0] in TopDocs(o, fetch);
  }

  lemma LastNotFetched(h: Handle, x: Text, fetch: nat, c: Candidate)
    requires WellRanked(h) && x in Ids(h) && |Ids(h)| > fetch && IsOf(TopDocs(Arrange(h, {x}, false, -1), fetch), c)
    ensures c.id != x
  {
    hide WellRanked, Arrange, Ids;
    var o := Arrange(h, {x}, false, -1);
    ArrangeOk(h, {x}, false, -1);
    SelectCount(h, {x});
    var ms := TopDocs(o, fetch);
    var m :| m in ms && c.hit == HitOf(c.hit.split, m) && c.id == m.id;
    var k :| 0 <= k < |ms| && ms[k] == m;
    ArrangedPlaces(h, {x}, false, -1, k);
  }

  /** The id is in the first place, with the highest score there is. */
  lemma OldScore(h: Handle, x: Text, fetch: nat, c: Candidate)
    requires WellRanked(h) && c.id == x
    requires IsOf(TopDocs(Arrange(h, {x}, true, if x in Ids(h) then 0 else -1), fetch), c)
    ensures c.hit.score == 0
  {
    hide WellRanked, Arrange;
    var base := if x in Ids(h) then 0 else -1;
    var o := Arrange(h, {x}, true, base);
    ArrangeOk(h, {x}, true, base);
    var ms := TopDocs(o, fetch);
    var m :| m in ms && c.hit == HitOf(c.hit.split, m) && c.id == m.id;
    var k :| 0 <= k < |ms| && ms[k] == m;
    InIds(h, o, m);
    SelectCount(h, {x});
    ArrangedPlaces(h, {x}, true, base, k);
    assert o.ranked[k].score == base - k by {
      ScoreAt(h, {x}, true, base, k);
    }
  }

  lemma InIds(h: Handle, o: Handle, m: Match)
    requires RescoresSplit(h, o) && m in o.ranked
    ensures m.id in Ids(h)
  {
    SameIds(h, o);
  }

  lemma ScoreAt(h: Handle, ids: set<Text>, front: bool, base: int, k: nat)
    requires k < |Arrange(h, ids, front, base).ranked|
    ensures Arrange(h, ids, front, base).ranked[k].score == base - k
  {
  }

  /** Nothing but older copies of the id scores as high. */
  lemma TopIsOlder(handles: seq<Handle>, tombs: Tombstones, i: nat, x: Text, f: Candidate, older: Candidate)
    requires AllRanked(handles) && i < |handles|
    requires Dominates(Fetched(Outdated(handles, i, x), tombs, 1 + |tombs|), f)
    requires older.hit.score >= 0 && (older.hit == f.hit || Before(f.hit, older.hit))
    ensures f.id == x && f.hit.split != i && f.hit.split < |handles|
  {
    hide Fetched, WellRanked, Arrange, IsOf, IsDeletedAt, Ids;
    var others := Outdated(handles, i, x);
    FetchedAre(others, tombs, 1 + |tombs|, f);
    FetchedIsLive(others, tombs, 1 + |tombs|, f);
    var k := f.hit.split;
    assert f.hit.score >= 0;
    if k == i {
      ArrangedScore(handles[i], {x}, false, -1, f);
    } else {
      TopScore(handles[k], x, f);
    }
  }

  lemma TopScore(h: Handle, x: Text, c: Candidate)
    requires WellRanked(h) && c.hit.score >= 0 && IsOf(Arrange(h, {x}, true, if x in Ids(h) then 0 else -1).ranked, c)
    ensures c.id == x
  {
    hide WellRanked, Arrange;
    var base := if x in Ids(h) then 0 else -1;
    ArrangedScore(h, {x}, true, base, c);
    var o := Arrange(h, {x}, true, base);
    ArrangeOk(h, {x}, true, base);
    var m :| m in o.ranked && c.hit == HitOf(c.hit.split, m) && c.id == m.id;
    var k :| 0 <= k < |o.ranked| && o.ranked[k] == m;
    ScoreAt(h, {x}, true, base, k);
    SelectCount(h, {x});
    ArrangedPlaces(h, {x}, true, base, 0);
  }

  // ---- The theorem ----

  /** Right for every scoring of these matches and every limit of at least one. */
  ghost predicate AlwaysRight(handles: seq<Handle>, tombs: Tombstones) {
    forall others, limit: nat :: Rescores(handles, others) && limit >= 1 ==>
      Filtered(others, tombs, limit) == Unbounded(others, tombs, limit)
  }

  /** The filtered search returns the best of the newest live copies, whatever the scores and
      the limit, exactly if enough is fetched by the count of matches. */
  lemma SearchRightExactly(handles: seq<Handle>, tombs: Tombstones)
    requires AllRanked(handles)
    ensures AlwaysRight(handles, tombs) <==> FetchSuffices(handles, tombs)
  {
    hide WellRanked, Filtered, Unbounded, Rescores, Ids, WinsId, LiveIn;
    if FetchSuffices(handles, tombs) {
      forall others, limit: nat | Rescores(handles, others) && limit >= 1
        ensures Filtered(others, tombs, limit) == Unbounded(others, tombs, limit)
      {
        RescoredShape(handles, others, tombs);
        RescoredSuffices(handles, others, tombs);
        SufficesIsRight(others, tombs, limit);
      }
    } else {
      var i :| 0 <= i < |handles| && !SplitSuffices(handles, tombs, i);
      if WinningIds(handles, tombs, i) != {} && |Ids(handles[i]) - WinningIds(handles, tombs, i)| > |tombs| {
        BuriedIsWrong(handles, tombs, i);
      } else {
        var x :| x in WinningIds(handles, tombs, i) && Duplicated(handles, tombs, i, x) && |Ids(handles[i])| > |tombs| + 1;
        var j :| 0 <= j < |handles| && j != i && LiveIn(handles, tombs, j, x);
        OutdatedIsWrong(handles, tombs, i, j, x);
      }
    }
  }

  // ---- The shortest failure of the second kind ----

  /** Without deletes: an older split holds `x`, scored 10; a newer one holds `z`, scored 5, and
      `x` again, scored 1. With a limit of one the search returns the older copy of `x`, though
      the newer one is live: it was never fetched. */
  lemma StaleCopyReturned(x: Text, z: Text)
    requires x != z
    ensures Filtered([OldSplit(x), NewSplit(z, x)], map[], 1) == [Hit(10, 0, 0, 0)]
    ensures Unbounded([OldSplit(x), NewSplit(z, x)], map[], 1) == [Hit(5, 1, 0, 0)]
    ensures WinsId([OldSplit(x), NewSplit(z, x)], map[], 1, x)
  {
    hide Fetched, AllLive, Take, SortHits, Kept, LiveMatches;
    var a, b := OldSplit(x), NewSplit(z, x);
    var none: Tombstones := map[];
    assert 1 + |none| == 1;
    TwoSplits(a, b, 1);
    OneLive(a.ranked[0]);
    OneLive(b.ranked[0]);
    TwoLive(b.ranked[0], b.ranked[1], 2);
    assert b.ranked[..1] == [b.ranked[0]];
    var c, d, e := Candidate(Hit(10, 0, 0, 0), x, 1), Candidate(Hit(5, 1, 0, 0), z, 2), Candidate(Hit(1, 1, 0, 1), x, 2);
    assert Fetched([a, b], none, 1) == [c, d];
    assert AllLive([a, b], none) == [c, d, e];
    BothKept(c, d);
    LatterKept(c, d, e);
    TopOfTwo(c.hit, d.hit);
    TopOfTwo(d.hit, e.hit);
    assert b.ranked[1] in b.ranked;
  }

  function OldSplit(x: Text): Handle {
    Handle(1, [Match(10, 0, 0, x)])
  }

  function NewSplit(z: Text, x: Text): Handle {
    Handle(2, [Match(5, 0, 0, z), Match(1, 0, 1, x)])
  }

  lemma TwoLive(m: Match, n: Match, g: nat)
    ensures LiveMatches([m, n], map[], g) == [m, n]
  {
    assert [m, n][..1] == [m];
    OneLive(m);
  }

  lemma BothKept(c: Candidate, d: Candidate)
    requires c.id != d.id
    ensures Kept([c, d], 2) == [c.hit, d.hit]
  {
    var cs := [c, d];
    assert BestOf(cs, 1) == map[c.id := 0];
    assert BestOf(cs, 2) == map[c.id := 0, d.id := 1];
    assert Kept(cs, 1) == [c.hit];
  }

  lemma LatterKept(c: Candidate, d: Candidate, e: Candidate)
    requires c.id == e.id != d.id && Wins(e, c)
    ensures Kept([c, d, e], 3) == [d.hit, e.hit]
  {
    hide Wins;
    var cs := [c, d, e];
    assert BestOf(cs, 1) == map[c.id := 0];
    assert BestOf(cs, 2) == map[c.id := 0, d.id := 1];
    assert BestOf(cs, 3) == map[c.id := 2, d.id := 1];
    assert Kept(cs, 1) == [];
    assert Kept(cs, 2) == [d.hit];
  }

  lemma TopOfTwo(a: Hit, b: Hit)
    requires Before(a, b)
    ensures Take(SortHits([a, b]), 1) == [a]
  {
    hide Before;
    BeforeTotal(a, b);
    assert [a, b][..1] == [a] && [a][..0] == [];
    assert SortHits([a]) == Insert(SortHits([]), a) == [a];
    assert SortHits([a, b]) == Insert([a], b) == [a, b];
  }
}

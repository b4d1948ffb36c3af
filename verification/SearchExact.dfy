/** Exactly when the filtered search is right: for which splits and deletes it returns, for
    every scoring and every limit, the best of the newest live copies. */
module SearchExact {
  import opened Bytes
  import opened Splits
  import opened Search
  import opened MergedSearch

  /** The search without a bound on what is fetched: the newest live copy of each id, ranked. */
  function Unbounded(handles: seq<Handle>, tombs: Tombstones, limit: nat): seq<Hit> {
    var all := AllLive(handles, tombs);
    Take(SortHits(Kept(all, |all|)), limit)
  }

  // ---- Candidates, by where they are ----

  /** `c` is a live match among the best `fetch` of its split. */
  ghost predicate FetchedAt(handles: seq<Handle>, tombs: Tombstones, fetch: nat, c: Candidate) {
    && c.hit.split < |handles| && c.generation == handles[c.hit.split].generation
    && !IsDeletedAt(tombs, c.id, c.generation)
    && IsOf(TopDocs(handles[c.hit.split], fetch), c)
  }

  ghost predicate IsOf(ms: seq<Match>, c: Candidate) {
    exists m :: m in ms && c.hit == HitOf(c.hit.split, m) && c.id == m.id
  }

  lemma InCandidates(n: nat, h: Handle, ms: seq<Match>, c: Candidate)
    ensures c in CandidatesOf(n, h, ms) <==> c.hit.split == n && c.generation == h.generation && IsOf(ms, c)
  {
    var cs := CandidatesOf(n, h, ms);
    if c in cs {
      var i :| 0 <= i < |cs| && cs[i] == c;
      assert ms[i] in ms;
    }
    if c.hit.split == n && c.generation == h.generation && IsOf(ms, c) {
      var m :| m in ms && c.hit == HitOf(n, m) && c.id == m.id;
      var i :| 0 <= i < |ms| && ms[i] == m;
      assert cs[i] == c;
    }
  }

  lemma LiveIsOf(n: nat, h: Handle, ms: seq<Match>, tombs: Tombstones, c: Candidate)
    ensures c in CandidatesOf(n, h, LiveMatches(ms, tombs, h.generation))
       <==> c.hit.split == n && c.generation == h.generation && !IsDeletedAt(tombs, c.id, c.generation) && IsOf(ms, c)
  {
    hide LiveMatches, IsDeletedAt, CandidatesOf;
    var live := LiveMatches(ms, tombs, h.generation);
    InCandidates(n, h, live, c);
    forall m
      ensures m in live <==> m in ms && !IsDeletedAt(tombs, m.id, h.generation)
    {
      InLive(ms, tombs, h.generation, m);
    }
  }

  lemma {:induction false} FetchedAre(handles: seq<Handle>, tombs: Tombstones, fetch: nat, c: Candidate)
    ensures c in Fetched(handles, tombs, fetch) <==> FetchedAt(handles, tombs, fetch, c)
    decreases |handles|
  {
    hide LiveMatches, IsDeletedAt, TopDocs, IsOf, CandidatesOf;
    if handles != [] {
      var n := |handles| - 1;
      FetchedAre(handles[..n], tombs, fetch, c);
      LiveIsOf(n, handles[n], TopDocs(handles[n], fetch), tombs, c);
    }
  }

  /** The length of the longest split. */
  function Longest(handles: seq<Handle>): (n: nat)
    ensures forall i :: 0 <= i < |handles| ==> |handles[i].ranked| <= n
    decreases |handles|
  {
    if handles == [] then 0
    else
      var rest := Longest(handles[..|handles| - 1]);
      var last := |handles[|handles| - 1].ranked|;
      assert forall i :: 0 <= i < |handles| - 1 ==> handles[i] == handles[..|handles| - 1][i];
      if last > rest then last else rest
  }

  lemma {:induction false} AllIsFetched(handles: seq<Handle>, tombs: Tombstones, fetch: nat)
    requires forall i :: 0 <= i < |handles| ==> |handles[i].ranked| <= fetch
    ensures AllLive(handles, tombs) == Fetched(handles, tombs, fetch)
    decreases |handles|
  {
    hide LiveMatches;
    if handles != [] {
      AllIsFetched(handles[..|handles| - 1], tombs, fetch);
    }
  }

  /** A live match anywhere in its split. */
  ghost predicate LiveAt(handles: seq<Handle>, tombs: Tombstones, c: Candidate) {
    && c.hit.split < |handles| && c.generation == handles[c.hit.split].generation
    && !IsDeletedAt(tombs, c.id, c.generation)
    && IsOf(handles[c.hit.split].ranked, c)
  }

  lemma AllLiveAre(handles: seq<Handle>, tombs: Tombstones, c: Candidate)
    ensures c in AllLive(handles, tombs) <==> LiveAt(handles, tombs, c)
  {
    hide Fetched, AllLive, IsDeletedAt, IsOf;
    AllIsFetched(handles, tombs, Longest(handles));
    FetchedAre(handles, tombs, Longest(handles), c);
  }

  lemma FetchedIsLive(handles: seq<Handle>, tombs: Tombstones, fetch: nat, c: Candidate)
    requires FetchedAt(handles, tombs, fetch, c)
    ensures LiveAt(handles, tombs, c)
  {
    hide IsDeletedAt;
    var ms := TopDocs(handles[c.hit.split], fetch);
    var m :| m in ms && c.hit == HitOf(c.hit.split, m) && c.id == m.id;
    assert m in handles[c.hit.split].ranked;
  }

  /** A hit of a split stands for one match. */
  lemma SameHitSameId(h: Handle, a: Candidate, b: Candidate)
    requires WellRanked(h) && IsOf(h.ranked, a) && IsOf(h.ranked, b) && a.hit == b.hit
    ensures a.id == b.id
  {
    var m :| m in h.ranked && a.hit == HitOf(a.hit.split, m) && a.id == m.id;
    var k :| m in h.ranked && k in h.ranked && b.hit == HitOf(b.hit.split, k) && b.id == k.id;
    var i :| 0 <= i < |h.ranked| && h.ranked[i] == m;
    var j :| 0 <= j < |h.ranked| && h.ranked[j] == k;
    HitsDiffer(h, i, j);
  }

  lemma HitsDiffer(h: Handle, i: nat, j: nat)
    requires WellRanked(h) && i < |h.ranked| && j < |h.ranked|
    requires HitOf(0, h.ranked[i]) == HitOf(0, h.ranked[j])
    ensures i == j
  {
    hide Before;
    BeforeTotal(HitsOf(0, h.ranked)[i], HitsOf(0, h.ranked)[j]);
  }

  /** An id of a split stands for one match. */
  lemma SameIdSameHit(h: Handle, a: Candidate, b: Candidate)
    requires WellRanked(h) && IsOf(h.ranked, a) && IsOf(h.ranked, b) && a.id == b.id && a.hit.split == b.hit.split
    ensures a.hit == b.hit
  {
    hide Ranked;
    var m :| m in h.ranked && a.hit == HitOf(a.hit.split, m) && a.id == m.id;
    var k :| k in h.ranked && b.hit == HitOf(b.hit.split, k) && b.id == k.id;
    var i :| 0 <= i < |h.ranked| && h.ranked[i] == m;
    var j :| 0 <= j < |h.ranked| && h.ranked[j] == k;
  }

  // ---- Winners ----

  /** `c` beats every other candidate of its id. */
  ghost predicate Dominates(cs: seq<Candidate>, c: Candidate) {
    c in cs && forall d :: d in cs && d.id == c.id && d != c ==> Wins(c, d)
  }

  /** No id twice in one split. */
  ghost predicate NoTwins(cs: seq<Candidate>) {
    forall i, j :: 0 <= i < j < |cs| ==> cs[i].id != cs[j].id || cs[i].hit.split != cs[j].hit.split
  }

  lemma WinsTotal(a: Candidate, b: Candidate)
    ensures a.hit.split != b.hit.split ==> Wins(a, b) || Wins(b, a)
    ensures !(Wins(a, b) && Wins(b, a))
  {
  }

  lemma {:induction false} InKept(cs: seq<Candidate>, n: nat, h: Hit)
    requires n <= |cs|
    ensures h in Kept(cs, n) <==> exists i :: 0 <= i < n && IsWinner(cs, i) && cs[i].hit == h
    decreases n
  {
    hide IsWinner;
    if n > 0 {
      InKept(cs, n - 1, h);
    }
  }

  lemma WinnerDominates(cs: seq<Candidate>, i: nat)
    requires NoTwins(cs) && i < |cs|
    ensures IsWinner(cs, i) <==> Dominates(cs, cs[i])
  {
    hide Wins, BestOf;
    BestWins(cs, |cs|, i);
    BestIsOfId(cs, |cs|, cs[i].id);
    var b := BestOf(cs, |cs|)[cs[i].id];
    if b == i {
      forall d | d in cs && d.id == cs[i].id && d != cs[i]
        ensures Wins(cs[i], d)
      {
        var j :| 0 <= j < |cs| && cs[j] == d;
        BestWins(cs, |cs|, j);
        WinsTotal(cs[i], d);
      }
    } else {
      assert cs[b] in cs && cs[b] != cs[i];
    }
  }

  lemma KeptAre(cs: seq<Candidate>, h: Hit)
    requires NoTwins(cs)
    ensures h in Kept(cs, |cs|) <==> exists c :: Dominates(cs, c) && c.hit == h
  {
    hide IsWinner, Wins, Kept;
    InKept(cs, |cs|, h);
    if i :| 0 <= i < |cs| && IsWinner(cs, i) && cs[i].hit == h {
      WinnerDominates(cs, i);
    }
    if c :| Dominates(cs, c) && c.hit == h {
      var i :| 0 <= i < |cs| && cs[i] == c;
      WinnerDominates(cs, i);
    }
  }

  /** Every id has a winner. */
  lemma SomeDominates(cs: seq<Candidate>, d: Candidate)
    requires NoTwins(cs) && d in cs
    ensures exists c :: Dominates(cs, c) && c.id == d.id
  {
    hide Wins, BestOf;
    var i :| 0 <= i < |cs| && cs[i] == d;
    BestWins(cs, |cs|, i);
    var b := BestOf(cs, |cs|)[d.id];
    WinnerDominates(cs, b);
    assert IsWinner(cs, b);
  }

  lemma {:induction false} KeptDistinct(cs: seq<Candidate>, n: nat)
    requires Distinct(HitsOnly(cs)) && n <= |cs|
    ensures Distinct(Kept(cs, n)) && forall h :: h in Kept(cs, n) ==> exists i :: 0 <= i < n && cs[i].hit == h
    decreases n
  {
    hide IsWinner;
    if n > 0 {
      KeptDistinct(cs, n - 1);
      var before, last := Kept(cs, n - 1), cs[n - 1].hit;
      forall h | h in before
        ensures h != last
      {
        var i :| 0 <= i < n - 1 && cs[i].hit == h;
        assert HitsOnly(cs)[i] != HitsOnly(cs)[n - 1];
      }
      forall i | 0 <= i < |before|
        ensures before[i] != last
      {
        assert before[i] in before;
      }
    }
  }

  lemma {:induction false} FetchedNoTwins(handles: seq<Handle>, tombs: Tombstones, fetch: nat)
    requires AllRanked(handles)
    ensures NoTwins(Fetched(handles, tombs, fetch))
    decreases |handles|
  {
    hide LiveMatches, Before, TopDocs;
    var cs := Fetched(handles, tombs, fetch);
    FetchedDistinct(handles, tombs, fetch);
    forall i, j | 0 <= i < j < |cs| && cs[i].id == cs[j].id
      ensures cs[i].hit.split != cs[j].hit.split
    {
      assert cs[i] in cs && cs[j] in cs && HitsOnly(cs)[i] != HitsOnly(cs)[j];
      if cs[i].hit.split == cs[j].hit.split {
        TwinsAreOne(handles, tombs, fetch, cs[i], cs[j]);
      }
    }
  }

  lemma TwinsAreOne(handles: seq<Handle>, tombs: Tombstones, fetch: nat, a: Candidate, b: Candidate)
    requires AllRanked(handles) && a in Fetched(handles, tombs, fetch) && b in Fetched(handles, tombs, fetch)
    requires a.id == b.id && a.hit.split == b.hit.split
    ensures a.hit == b.hit
  {
    hide Fetched, WellRanked, IsOf, IsDeletedAt;
    FetchedAre(handles, tombs, fetch, a);
    FetchedAre(handles, tombs, fetch, b);
    FetchedIsLive(handles, tombs, fetch, a);
    FetchedIsLive(handles, tombs, fetch, b);
    SameIdSameHit(handles[a.hit.split], a, b);
  }

  // ---- The shape of the splits: what no scoring changes ----

  function Ids(h: Handle): set<Text> {
    set m | m in h.ranked :: m.id
  }

  predicate LiveIn(handles: seq<Handle>, tombs: Tombstones, i: nat, x: Text)
    requires i < |handles|
  {
    x in Ids(handles[i]) && !IsDeletedAt(tombs, x, handles[i].generation)
  }

  /** Split `i` holds the newest live copy of `x`. */
  ghost predicate WinsId(handles: seq<Handle>, tombs: Tombstones, i: nat, x: Text)
    requires i < |handles|
  {
    && LiveIn(handles, tombs, i, x)
    && forall j :: 0 <= j < |handles| && LiveIn(handles, tombs, j, x) ==> NotNewer(handles, j, i)
  }

  predicate NotNewer(handles: seq<Handle>, j: nat, i: nat)
    requires i < |handles| && j < |handles|
  {
    handles[j].generation < handles[i].generation || (handles[j].generation == handles[i].generation && j <= i)
  }

  ghost function WinningIds(handles: seq<Handle>, tombs: Tombstones, i: nat): set<Text>
    requires i < |handles|
  {
    set x | x in Ids(handles[i]) && WinsId(handles, tombs, i, x)
  }

  ghost predicate Duplicated(handles: seq<Handle>, tombs: Tombstones, i: nat, x: Text)
    requires i < |handles|
  {
    exists j :: 0 <= j < |handles| && j != i && LiveIn(handles, tombs, j, x)
  }

  /** Enough is fetched beyond the limit, by counting matches: a split with a newest copy has no
      more dead and superseded ones than there are tombstones, and a split with the newest copy
      of an id that is live twice has at most one match more than there are tombstones. */
  ghost predicate FetchSuffices(handles: seq<Handle>, tombs: Tombstones) {
    forall i :: 0 <= i < |handles| ==> SplitSuffices(handles, tombs, i)
  }

  ghost predicate SplitSuffices(handles: seq<Handle>, tombs: Tombstones, i: nat)
    requires i < |handles|
  {
    && (WinningIds(handles, tombs, i) == {} || |Ids(handles[i]) - WinningIds(handles, tombs, i)| <= |tombs|)
    && (forall x :: x in WinningIds(handles, tombs, i) && Duplicated(handles, tombs, i, x) ==> |Ids(handles[i])| <= |tombs| + 1)
  }

  lemma {:induction false} IdCount(ms: seq<Match>)
    requires forall i, j :: 0 <= i < j < |ms| ==> ms[i].id != ms[j].id
    ensures |set m | m in ms :: m.id| == |ms|
    decreases |ms|
  {
    if ms != [] {
      var n := |ms| - 1;
      IdCount(ms[..n]);
      assert ms == ms[..n] + [ms[n]];
      var before := set m | m in ms[..n] :: m.id;
      assert ms[n].id !in before;
      assert (set m | m in ms :: m.id) == before + {ms[n].id};
    }
  }

  lemma LiveInAt(handles: seq<Handle>, tombs: Tombstones, i: nat, x: Text) returns (c: Candidate)
    requires i < |handles| && LiveIn(handles, tombs, i, x)
    ensures LiveAt(handles, tombs, c) && c.hit.split == i && c.id == x
  {
    hide IsDeletedAt;
    var m :| m in handles[i].ranked && m.id == x;
    c := Candidate(HitOf(i, m), x, handles[i].generation);
  }

  lemma AtLiveIn(handles: seq<Handle>, tombs: Tombstones, c: Candidate)
    requires LiveAt(handles, tombs, c)
    ensures LiveIn(handles, tombs, c.hit.split, c.id)
  {
    hide IsDeletedAt;
    var m :| m in handles[c.hit.split].ranked && c.hit == HitOf(c.hit.split, m) && c.id == m.id;
  }

  lemma NewerWins(handles: seq<Handle>, a: Candidate, b: Candidate)
    requires a.hit.split < |handles| && b.hit.split < |handles| && a.hit.split != b.hit.split
    requires a.generation == handles[a.hit.split].generation && b.generation == handles[b.hit.split].generation
    ensures Wins(a, b) <==> NotNewer(handles, b.hit.split, a.hit.split)
  {
  }

  /** Among all live candidates, the winners are the newest copies. */
  lemma WinnersAre(handles: seq<Handle>, tombs: Tombstones, c: Candidate)
    requires AllRanked(handles)
    ensures Dominates(AllLive(handles, tombs), c)
       <==> LiveAt(handles, tombs, c) && WinsId(handles, tombs, c.hit.split, c.id)
  {
    hide AllLive, WellRanked, LiveIn, Wins, NotNewer, IsOf, IsDeletedAt;
    var all := AllLive(handles, tombs);
    AllLiveAre(handles, tombs, c);
    if Dominates(all, c) {
      AtLiveIn(handles, tombs, c);
      forall j | 0 <= j < |handles| && LiveIn(handles, tombs, j, c.id)
        ensures NotNewer(handles, j, c.hit.split)
      {
        if j == c.hit.split {
          SelfNotNewer(handles, j);
        } else {
          var d := LiveInAt(handles, tombs, j, c.id);
          AllLiveAre(handles, tombs, d);
          NewerWins(handles, c, d);
        }
      }
    }
    if LiveAt(handles, tombs, c) && WinsId(handles, tombs, c.hit.split, c.id) {
      forall d | d in all && d.id == c.id && d != c
        ensures Wins(c, d)
      {
        AllLiveAre(handles, tombs, d);
        AtLiveIn(handles, tombs, d);
        if d.hit.split == c.hit.split {
          SameIdSameHit(handles[c.hit.split], c, d);
        }
        NewerWins(handles, c, d);
      }
    }
  }

  lemma SelfNotNewer(handles: seq<Handle>, i: nat)
    requires i < |handles|
    ensures NotNewer(handles, i, i)
  {
  }

  /** Every live id has a newest copy. */
  lemma {:induction false} NewestExists(handles: seq<Handle>, tombs: Tombstones, x: Text, n: nat, i: nat) returns (k: nat)
    requires i < n <= |handles| && LiveIn(handles, tombs, i, x)
    ensures k < n && LiveIn(handles, tombs, k, x)
    ensures forall j :: 0 <= j < n && LiveIn(handles, tombs, j, x) ==> NotNewer(handles, j, k)
    decreases n
  {
    hide LiveIn;
    if exists j :: 0 <= j < n - 1 && LiveIn(handles, tombs, j, x) {
      var j :| 0 <= j < n - 1 && LiveIn(handles, tombs, j, x);
      k := NewestExists(handles, tombs, x, n - 1, j);
      if LiveIn(handles, tombs, n - 1, x) && NotNewer(handles, k, n - 1) {
        k := n - 1;
      }
    } else {
      k := n - 1;
    }
  }

  // ---- Sufficient ----

  lemma WholeSplit(h: Handle, fetch: nat)
    requires WellRanked(h) && |Ids(h)| <= fetch
    ensures TopDocs(h, fetch) == h.ranked
  {
    hide Ranked;
    IdCount(h.ranked);
  }

  /** What wins among the fetched is the newest copy of all. */
  lemma FetchedWinnerWins(handles: seq<Handle>, tombs: Tombstones, limit: nat, c: Candidate)
    requires AllRanked(handles) && FetchSuffices(handles, tombs) && limit >= 1
    requires Dominates(Fetched(handles, tombs, limit + |tombs|), c)
    ensures Dominates(AllLive(handles, tombs), c)
  {
    hide AllLive, Fetched, WellRanked, LiveIn, NotNewer, Wins, Ids, IsOf, TopDocs, IsDeletedAt;
    var fetch, x := limit + |tombs|, c.id;
    FetchedAre(handles, tombs, fetch, c);
    FetchedIsLive(handles, tombs, fetch, c);
    AtLiveIn(handles, tombs, c);
    var k := NewestExists(handles, tombs, x, |handles|, c.hit.split);
    assert WinsId(handles, tombs, k, x);
    if k != c.hit.split {
      NewestFetched(handles, tombs, fetch, k, c.hit.split, x);
      var d :| FetchedAt(handles, tombs, fetch, d) && d.hit.split == k && d.id == x;
      FetchedAre(handles, tombs, fetch, d);
      NewerWins(handles, d, c);
      WinsTotal(c, d);
      assert false;
    }
    WinnersAre(handles, tombs, c);
  }

  lemma NewestFetched(handles: seq<Handle>, tombs: Tombstones, fetch: nat, k: nat, j: nat, x: Text)
    requires AllRanked(handles) && FetchSuffices(handles, tombs) && fetch >= |tombs| + 1
    requires k < |handles| && j < |handles| && k != j && WinsId(handles, tombs, k, x) && LiveIn(handles, tombs, j, x)
    ensures exists d :: FetchedAt(handles, tombs, fetch, d) && d.hit.split == k && d.id == x
  {
    hide WellRanked, NotNewer, IsOf, TopDocs, IsDeletedAt, Ids;
    assert SplitSuffices(handles, tombs, k);
    assert Duplicated(handles, tombs, k, x) && x in WinningIds(handles, tombs, k);
    WholeSplit(handles[k], fetch);
    var d := LiveInAt(handles, tombs, k, x);
    assert FetchedAt(handles, tombs, fetch, d);
  }

  /** The matches of some ids, and the others, in order. */
  function Select(ms: seq<Match>, ids: set<Text>): seq<Match>
    decreases |ms|
  {
    if ms == [] then []
    else
      var n := |ms| - 1;
      Select(ms[..n], ids) + if ms[n].id in ids then [ms[n]] else []
  }

  function Reject(ms: seq<Match>, ids: set<Text>): seq<Match>
    decreases |ms|
  {
    if ms == [] then []
    else
      var n := |ms| - 1;
      Reject(ms[..n], ids) + if ms[n].id in ids then [] else [ms[n]]
  }

  lemma SelectSnoc(ms: seq<Match>, m: Match, ids: set<Text>)
    ensures Select(ms + [m], ids) == if m.id in ids then Select(ms, ids) + [m] else Select(ms, ids)
    ensures Reject(ms + [m], ids) == if m.id in ids then Reject(ms, ids) else Reject(ms, ids) + [m]
  {
    assert (ms + [m])[..|ms|] == ms;
  }

  lemma NoneSelected(ids: set<Text>)
    ensures Select([], ids) == [] && Reject([], ids) == []
  {
  }

  lemma {:induction false} SelectAre(ms: seq<Match>, ids: set<Text>)
    ensures forall m :: m in Select(ms, ids) <==> m in ms && m.id in ids
    ensures forall m :: m in Reject(ms, ids) <==> m in ms && m.id !in ids
    ensures |Select(ms, ids)| + |Reject(ms, ids)| == |ms|
    decreases |ms|
  {
    hide Select, Reject;
    if ms == [] {
      NoneSelected(ids);
    } else {
      var n := |ms| - 1;
      SelectAre(ms[..n], ids);
      assert ms == ms[..n] + [ms[n]];
      SelectSnoc(ms[..n], ms[n], ids);
    }
  }

  lemma {:induction false} SelectDistinct(ms: seq<Match>, ids: set<Text>)
    requires DistinctMatches(ms)
    ensures DistinctMatches(Select(ms, ids)) && DistinctMatches(Reject(ms, ids))
    decreases |ms|
  {
    hide Select, Reject;
    if ms == [] {
      NoneSelected(ids);
    } else {
      var n := |ms| - 1;
      assert ms == ms[..n] + [ms[n]];
      SelectSnoc(ms[..n], ms[n], ids);
      SelectDistinct(ms[..n], ids);
      SelectAre(ms[..n], ids);
      forall m | m in ms[..n]
        ensures m.id != ms[n].id
      {
      }
      LastDiffers(Select(ms[..n], ids), ms[n]);
      LastDiffers(Reject(ms[..n], ids), ms[n]);
    }
  }

  lemma LastDiffers(ms: seq<Match>, last: Match)
    requires DistinctMatches(ms)
    ensures (forall m :: m in ms ==> m.id != last.id) ==> DistinctMatches(ms + [last])
    ensures DistinctMatches(ms + [])
  {
    assert ms + [] == ms;
    assert forall i :: 0 <= i < |ms| ==> ms[i] in ms;
  }

  lemma {:induction false} SelectRanked(ms: seq<Match>, ids: set<Text>, split: nat)
    requires Ranked(HitsOf(split, ms))
    ensures Ranked(HitsOf(split, Select(ms, ids)))
    decreases |ms|
  {
    hide Before, Select, HitsOf, Ranked;
    if ms == [] {
      NoneSelected(ids);
    } else {
      var n := |ms| - 1;
      assert ms == ms[..n] + [ms[n]];
      SelectSnoc(ms[..n], ms[n], ids);
      RankedFront(ms, split);
      SelectRanked(ms[..n], ids, split);
      SelectAre(ms[..n], ids);
      if ms[n].id in ids {
        RankedSnoc(Select(ms[..n], ids), ms[n], split);
      }
    }
  }

  lemma RankedFront(ms: seq<Match>, split: nat)
    requires ms != [] && Ranked(HitsOf(split, ms))
    ensures var n := |ms| - 1;
            Ranked(HitsOf(split, ms[..n])) && forall m :: m in ms[..n] ==> Before(HitOf(split, m), HitOf(split, ms[n]))
  {
    hide Before;
    var n := |ms| - 1;
    assert HitsOf(split, ms[..n]) == HitsOf(split, ms)[..n];
    forall m | m in ms[..n]
      ensures Before(HitOf(split, m), HitOf(split, ms[n]))
    {
      var k :| 0 <= k < n && ms[k] == m;
      assert Before(HitsOf(split, ms)[k], HitsOf(split, ms)[n]);
    }
  }

  lemma RankedSnoc(ms: seq<Match>, last: Match, split: nat)
    requires Ranked(HitsOf(split, ms)) && forall m :: m in ms ==> Before(HitOf(split, m), HitOf(split, last))
    ensures Ranked(HitsOf(split, ms + [last]))
  {
    hide Before;
    var hits := HitsOf(split, ms + [last]);
    forall i, j | 0 <= i < j < |hits|
      ensures Before(hits[i], hits[j])
    {
      if j < |ms| {
        assert Before(HitsOf(split, ms)[i], HitsOf(split, ms)[j]);
      } else {
        assert ms[i] in ms;
      }
    }
  }

  /** A newest copy that is not fetched is outranked by `limit` newest copies that are. */
  lemma WinnersBefore(handles: seq<Handle>, tombs: Tombstones, limit: nat, w: Candidate)
    requires AllRanked(handles) && FetchSuffices(handles, tombs) && limit >= 1
    requires Dominates(AllLive(handles, tombs), w) && w !in Fetched(handles, tombs, limit + |tombs|)
    ensures var cs := Fetched(handles, tombs, limit + |tombs|);
            Outranked(Kept(cs, |cs|), w.hit, limit)
  {
    hide AllLive, Fetched, Kept, Before, WellRanked, Wins, NotNewer, WinningIds, Ids, IsDeletedAt, Select, Reject;
    var fetch, i := limit + |tombs|, w.hit.split;
    var cs := Fetched(handles, tombs, fetch);
    WinnersAre(handles, tombs, w);
    FetchedAre(handles, tombs, fetch, w);
    var h := handles[i];
    var ids := WinningIds(handles, tombs, i);
    InWinning(handles, tombs, w);
    assert SplitSuffices(handles, tombs, i);
    var better := Select(TopDocs(h, fetch), ids);
    EnoughWinners(h, ids, fetch, limit, |tombs|);
    var hits := HitsOf(i, better);
    forall b | b in hits
      ensures b in Kept(cs, |cs|) && Before(b, w.hit)
    {
      var k :| 0 <= k < |better| && hits[k] == b;
      SelectAre(TopDocs(h, fetch), ids);
      assert better[k] in better;
      WinnerKept(handles, tombs, fetch, i, better[k]);
      TopBefore(h, i, fetch, better[k], w);
    }
  }

  lemma InWinning(handles: seq<Handle>, tombs: Tombstones, w: Candidate)
    requires LiveAt(handles, tombs, w) && WinsId(handles, tombs, w.hit.split, w.id)
    ensures w.id in WinningIds(handles, tombs, w.hit.split)
  {
  }

  lemma EnoughWinners(h: Handle, ids: set<Text>, fetch: nat, limit: nat, spare: nat)
    requires WellRanked(h) && fetch == limit + spare && |h.ranked| > fetch && |Ids(h) - ids| <= spare
    ensures |Select(TopDocs(h, fetch), ids)| >= limit && Ranked(HitsOf(0, Select(TopDocs(h, fetch), ids)))
    ensures forall i :: Ranked(HitsOf(i, Select(TopDocs(h, fetch), ids)))
  {
    hide Before;
    var ms := TopDocs(h, fetch);
    SelectAre(ms, ids);
    SelectDistinct(ms, ids);
    var rejected := Reject(ms, ids);
    IdCount(rejected);
    var bad := set m | m in rejected :: m.id;
    assert bad <= Ids(h) - ids;
    SubsetSize(bad, Ids(h) - ids);
    CutRanked(h, fetch);
    SelectRanked(ms, ids, 0);
    forall i
      ensures Ranked(HitsOf(i, Select(ms, ids)))
    {
      if i >= 0 {
        HitOrder(i, Select(ms, ids));
      }
    }
  }

  lemma WinnerKept(handles: seq<Handle>, tombs: Tombstones, fetch: nat, i: nat, m: Match)
    requires AllRanked(handles) && i < |handles| && m in TopDocs(handles[i], fetch) && m.id in WinningIds(handles, tombs, i)
    ensures var cs := Fetched(handles, tombs, fetch);
            HitOf(i, m) in Kept(cs, |cs|)
  {
    hide AllLive, Fetched, Kept, WellRanked, Wins, NotNewer, IsDeletedAt;
    var c := Candidate(HitOf(i, m), m.id, handles[i].generation);
    var cs := Fetched(handles, tombs, fetch);
    assert IsOf(TopDocs(handles[i], fetch), c);
    assert FetchedAt(handles, tombs, fetch, c);
    FetchedIsLive(handles, tombs, fetch, c);
    FetchedAre(handles, tombs, fetch, c);
    WinnersAre(handles, tombs, c);
    DominatesPart(handles, tombs, fetch, c);
    FetchedNoTwins(handles, tombs, fetch);
    KeptAre(cs, c.hit);
  }

  /** A winner of all that is fetched wins among the fetched. */
  lemma DominatesPart(handles: seq<Handle>, tombs: Tombstones, fetch: nat, c: Candidate)
    requires Dominates(AllLive(handles, tombs), c) && c in Fetched(handles, tombs, fetch)
    ensures Dominates(Fetched(handles, tombs, fetch), c)
  {
    hide AllLive, Fetched, Wins, FetchedAt, LiveAt;
    forall d | d in Fetched(handles, tombs, fetch)
      ensures d in AllLive(handles, tombs)
    {
      FetchedAre(handles, tombs, fetch, d);
      FetchedIsLive(handles, tombs, fetch, d);
      AllLiveAre(handles, tombs, d);
    }
  }

  lemma TopBefore(h: Handle, i: nat, fetch: nat, m: Match, w: Candidate)
    requires WellRanked(h) && m in TopDocs(h, fetch) && w.hit.split == i && IsOf(h.ranked, w) && !IsOf(TopDocs(h, fetch), w)
    ensures Before(HitOf(i, m), w.hit)
  {
    hide Before;
    HitOrder(i, h.ranked);
    var k :| k in h.ranked && w.hit == HitOf(i, k) && w.id == k.id;
    var q :| 0 <= q < |h.ranked| && h.ranked[q] == k;
    var p :| 0 <= p < |TopDocs(h, fetch)| && TopDocs(h, fetch)[p] == m;
    assert forall z :: 0 <= z < |TopDocs(h, fetch)| ==> h.ranked[z] in TopDocs(h, fetch);
    assert Before(HitsOf(i, h.ranked)[p], HitsOf(i, h.ranked)[q]);
  }

  /** Two lists of hits of which one leaves out only what it outranks. */
  lemma HitsSameTop(part: seq<Hit>, all: seq<Hit>, limit: nat)
    requires Distinct(part) && Distinct(all) && (forall h :: h in part ==> h in all)
    requires forall h :: h in all && h !in part ==> Outranked(part, h, limit)
    ensures Take(SortHits(part), limit) == Take(SortHits(all), limit)
  {
    hide Before, SortHits, Outranked;
    SortKeeps(part);
    SortKeeps(all);
    forall h | h in SortHits(all) && h !in SortHits(part)
      ensures Outranked(SortHits(part), h, limit)
    {
      OutrankedMore(part, SortHits(part), h, limit);
    }
    SameTop(SortHits(all), SortHits(part), limit);
  }

  lemma SufficesIsRight(handles: seq<Handle>, tombs: Tombstones, limit: nat)
    requires AllRanked(handles) && FetchSuffices(handles, tombs) && limit >= 1
    ensures Filtered(handles, tombs, limit) == Unbounded(handles, tombs, limit)
  {
    hide AllLive, Fetched, Kept, WellRanked, FetchSuffices, Dominates, Outranked, SortHits, Take, NoTwins, Distinct;
    var fetch := limit + |tombs|;
    var cs, all := Fetched(handles, tombs, fetch), AllLive(handles, tombs);
    ListsOk(handles, tombs, fetch);
    forall h | h in Kept(cs, |cs|)
      ensures h in Kept(all, |all|)
    {
      KeptAre(cs, h);
      var c :| Dominates(cs, c) && c.hit == h;
      FetchedWinnerWins(handles, tombs, limit, c);
      KeptAre(all, h);
    }
    forall h | h in Kept(all, |all|) && h !in Kept(cs, |cs|)
      ensures Outranked(Kept(cs, |cs|), h, limit)
    {
      KeptAre(all, h);
      var w :| Dominates(all, w) && w.hit == h;
      if w in cs {
        DominatesPart(handles, tombs, fetch, w);
        KeptAre(cs, h);
      }
      WinnersBefore(handles, tombs, limit, w);
    }
    HitsSameTop(Kept(cs, |cs|), Kept(all, |all|), limit);
  }

  lemma ListsOk(handles: seq<Handle>, tombs: Tombstones, fetch: nat)
    requires AllRanked(handles)
    ensures var cs, all := Fetched(handles, tombs, fetch), AllLive(handles, tombs);
            && NoTwins(cs) && NoTwins(all) && Distinct(Kept(cs, |cs|)) && Distinct(Kept(all, |all|))
  {
    hide AllLive, Fetched, Kept, WellRanked, Distinct, NoTwins;
    AllIsFetched(handles, tombs, Longest(handles));
    FetchedNoTwins(handles, tombs, fetch);
    FetchedNoTwins(handles, tombs, Longest(handles));
    FetchedDistinct(handles, tombs, fetch);
    LiveDistinct(handles, tombs);
    var cs, all := Fetched(handles, tombs, fetch), AllLive(handles, tombs);
    KeptDistinct(cs, |cs|);
    KeptDistinct(all, |all|);
  }
}

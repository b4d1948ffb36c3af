/** The merged searches over several splits: the filtered one that skips hidden copies and
    keeps one copy of each id, and the paginated one. */
module MergedSearch {
  import opened Bytes
  import opened Splits
  import opened Search

  /** A hit that is not hidden, with its id and the generation of its split. */
  datatype Candidate = Candidate(hit: Hit, id: Text, generation: nat)

  // ---- Candidates ----

  function CandidatesOf(split: nat, h: Handle, ms: seq<Match>): (cs: seq<Candidate>)
    ensures |cs| == |ms| && forall i :: 0 <= i < |ms| ==> cs[i] == Candidate(HitOf(split, ms[i]), ms[i].id, h.generation)
  {
    seq(|ms|, i requires 0 <= i < |ms| => Candidate(HitOf(split, ms[i]), ms[i].id, h.generation))
  }

  /** The live candidates of the first splits when each returns its best `fetch` matches. */
  function Fetched(handles: seq<Handle>, tombs: Tombstones, fetch: nat): seq<Candidate>
    decreases |handles|
  {
    if handles == [] then []
    else
      var n := |handles| - 1;
      var h := handles[n];
      Fetched(handles[..n], tombs, fetch) + CandidatesOf(n, h, LiveMatches(TopDocs(h, fetch), tombs, h.generation))
  }

  /** All live candidates. */
  function AllLive(handles: seq<Handle>, tombs: Tombstones): seq<Candidate>
    decreases |handles|
  {
    if handles == [] then []
    else
      var n := |handles| - 1;
      var h := handles[n];
      AllLive(handles[..n], tombs) + CandidatesOf(n, h, LiveMatches(h.ranked, tombs, h.generation))
  }

  function HitsOnly(cs: seq<Candidate>): (hits: seq<Hit>)
    ensures |hits| == |cs| && forall i :: 0 <= i < |cs| ==> hits[i] == cs[i].hit
  {
    seq(|cs|, i requires 0 <= i < |cs| => cs[i].hit)
  }

  // ---- One copy of each id ----

  /** Newer generation, then later split, then higher score. */
  predicate Wins(a: Candidate, b: Candidate) {
    a.generation > b.generation
    || (a.generation == b.generation
        && (a.hit.split > b.hit.split || (a.hit.split == b.hit.split && a.hit.score > b.hit.score)))
  }

  /** For each id of the first `n` candidates, the index of its winner; the earlier one where
      neither wins. */
  function BestOf(cs: seq<Candidate>, n: nat): (best: map<Text, nat>)
    requires n <= |cs|
    ensures forall id :: id in best ==> best[id] < n
  {
    if n == 0 then map[]
    else
      var best := BestOf(cs, n - 1);
      var c := cs[n - 1];
      if c.id !in best || Wins(c, cs[best[c.id]]) then best[c.id := n - 1] else best
  }

  /** The winner of an id is one of its candidates, and none of them wins over it. */
  lemma {:induction false} BestWins(cs: seq<Candidate>, n: nat, i: nat)
    requires i < n <= |cs|
    ensures var best := BestOf(cs, n);
            && cs[i].id in best
            && cs[best[cs[i].id]].id == cs[i].id
            && !Wins(cs[i], cs[best[cs[i].id]])
    decreases n
  {
    var before := BestOf(cs, n - 1);
    BestIsOfId(cs, n - 1, cs[n - 1].id);
    if i < n - 1 {
      BestWins(cs, n - 1, i);
    }
  }

  lemma {:induction false} BestIsOfId(cs: seq<Candidate>, n: nat, id: Text)
    requires n <= |cs|
    ensures id in BestOf(cs, n) ==> cs[BestOf(cs, n)[id]].id == id
    decreases n
  {
    hide Wins;
    if n > 0 {
      BestIsOfId(cs, n - 1, id);
    }
  }

  method BestById(cs: seq<Candidate>) returns (best: map<Text, nat>)
    ensures best == BestOf(cs, |cs|)
  {
    best := map[];
    for i := 0 to |cs|
      invariant best == BestOf(cs, i)
    {
      if cs[i].id !in best || Wins(cs[i], cs[best[cs[i].id]]) {
        best := best[cs[i].id := i];
      }
    }
  }

  /** The winners among the first `n` candidates, in order. */
  function Kept(cs: seq<Candidate>, n: nat): seq<Hit>
    requires n <= |cs|
  {
    if n == 0 then []
    else
      var i := n - 1;
      Kept(cs, i) + if IsWinner(cs, i) then [cs[i].hit] else []
  }

  predicate IsWinner(cs: seq<Candidate>, i: nat)
    requires i < |cs|
  {
    var best := BestOf(cs, |cs|);
    cs[i].id in best && best[cs[i].id] == i
  }

  method KeepBest(cs: seq<Candidate>) returns (kept: seq<Hit>)
    ensures kept == Kept(cs, |cs|)
  {
    hide BestOf;
    var best := BestById(cs);
    var keep := best.Values;
    kept := [];
    for i := 0 to |cs|
      invariant kept == Kept(cs, i)
    {
      InKeep(cs, i);
      if i in keep {
        kept := kept + [cs[i].hit];
      }
    }
  }

  lemma InKeep(cs: seq<Candidate>, i: nat)
    requires i < |cs|
    ensures i in BestOf(cs, |cs|).Values <==> IsWinner(cs, i)
  {
    hide BestOf;
    var best := BestOf(cs, |cs|);
    if i in best.Values {
      var id :| id in best && best[id] == i;
      BestIsOfId(cs, |cs|, id);
    }
  }

  /** An earlier candidate of the id than its winner is one that the winner wins over. */
  lemma {:induction false} BestIsFirst(cs: seq<Candidate>, n: nat, j: nat)
    requires j < n <= |cs|
    ensures cs[j].id in BestOf(cs, n)
    ensures j < BestOf(cs, n)[cs[j].id] ==> Wins(cs[BestOf(cs, n)[cs[j].id]], cs[j])
    decreases n
  {
    BestWins(cs, n, j);
    if j < n - 1 {
      BestIsFirst(cs, n - 1, j);
      BestWins(cs, n - 1, j);
    }
  }

  /** Only one candidate of an id is kept: of the newest generation, in that of the latest split,
      in that of the highest score, and of equal ones the first. */
  lemma WinnerIsOne(cs: seq<Candidate>, i: nat, j: nat)
    requires i < |cs| && j < |cs| && IsWinner(cs, i) && cs[j].id == cs[i].id
    ensures IsWinner(cs, j) ==> i == j
    ensures cs[j].generation <= cs[i].generation
    ensures cs[j].generation == cs[i].generation ==> cs[j].hit.split <= cs[i].hit.split
    ensures cs[j].generation == cs[i].generation && cs[j].hit.split == cs[i].hit.split ==> cs[j].hit.score <= cs[i].hit.score
    ensures cs[j].generation == cs[i].generation && cs[j].hit.split == cs[i].hit.split && cs[j].hit.score == cs[i].hit.score
            ==> i <= j
  {
    hide BestOf;
    BestWins(cs, |cs|, j);
    BestIsFirst(cs, |cs|, j);
  }

  ghost predicate DistinctIds(cs: seq<Candidate>) {
    forall i, j :: 0 <= i < j < |cs| ==> cs[i].id != cs[j].id
  }

  /** With one candidate for each id, all are kept. */
  lemma {:induction false} KeptAll(cs: seq<Candidate>, n: nat)
    requires DistinctIds(cs) && n <= |cs|
    ensures Kept(cs, n) == HitsOnly(cs)[..n]
    decreases n
  {
    hide BestOf, Wins;
    if n > 0 {
      KeptAll(cs, n - 1);
      BestWins(cs, |cs|, n - 1);
    }
  }

  // ---- The filtered search ----

  method Collect(handles: seq<Handle>, tombs: Tombstones, fetch: nat) returns (cs: seq<Candidate>)
    ensures cs == Fetched(handles, tombs, fetch)
  {
    hide Fetched, LiveMatches, CandidatesOf, IsDeletedAt;
    cs := [];
    NothingFetched(handles, tombs, fetch);
    for n := 0 to |handles|
      invariant cs == Fetched(handles[..n], tombs, fetch)
    {
      var h := handles[n];
      var docs := TopDocs(h, fetch);
      ghost var before := cs;
      NoCandidates(n, h, docs, tombs);
      for i := 0 to |docs|
        invariant cs == before + CandidatesOf(n, h, LiveMatches(docs[..i], tombs, h.generation))
      {
        CandidateStep(n, h, docs, i, tombs);
        if !IsDeletedAt(tombs, docs[i].id, h.generation) {
          cs := cs + [Candidate(HitOf(n, docs[i]), docs[i].id, h.generation)];
        }
      }
      FetchedStep(handles, n, tombs, fetch);
      assert docs[..|docs|] == docs;
    }
    assert handles[..|handles|] == handles;
  }

  lemma NothingFetched(handles: seq<Handle>, tombs: Tombstones, fetch: nat)
    ensures Fetched(handles[..0], tombs, fetch) == []
  {
  }

  lemma NoCandidates(n: nat, h: Handle, docs: seq<Match>, tombs: Tombstones)
    ensures CandidatesOf(n, h, LiveMatches(docs[..0], tombs, h.generation)) == []
  {
  }

  lemma FetchedStep(handles: seq<Handle>, n: nat, tombs: Tombstones, fetch: nat)
    requires n < |handles|
    ensures var h := handles[n];
            Fetched(handles[..n + 1], tombs, fetch)
            == Fetched(handles[..n], tombs, fetch) + CandidatesOf(n, h, LiveMatches(TopDocs(h, fetch), tombs, h.generation))
  {
    assert handles[..n + 1][..n] == handles[..n];
  }

  lemma CandidateStep(n: nat, h: Handle, docs: seq<Match>, i: nat, tombs: Tombstones)
    requires i < |docs|
    ensures var before := CandidatesOf(n, h, LiveMatches(docs[..i], tombs, h.generation));
            CandidatesOf(n, h, LiveMatches(docs[..i + 1], tombs, h.generation))
            == if IsDeletedAt(tombs, docs[i].id, h.generation) then before
               else before + [Candidate(HitOf(n, docs[i]), docs[i].id, h.generation)]
  {
    assert docs[..i + 1][..i] == docs[..i];
  }

  /** Fetches as many hits beyond the limit as there are tombstones, drops the hidden ones,
      keeps the winner of each id, and ranks the rest. */
  method SearchFiltered(handles: seq<Handle>, tombs: Tombstones, limit: nat) returns (r: seq<Hit>)
    ensures r == Filtered(handles, tombs, limit)
  {
    hide Fetched, Kept, SortHits, Take;
    var cs := Collect(handles, tombs, limit + |tombs|);
    var kept := KeepBest(cs);
    r := Take(SortHits(kept), limit);
  }

  function Filtered(handles: seq<Handle>, tombs: Tombstones, limit: nat): seq<Hit> {
    var cs := Fetched(handles, tombs, limit + |tombs|);
    Take(SortHits(Kept(cs, |cs|)), limit)
  }

  // ---- Completeness ----

  ghost predicate AllRanked(handles: seq<Handle>) {
    forall i :: 0 <= i < |handles| ==> WellRanked(handles[i])
  }

  lemma HitOrder(split: nat, ms: seq<Match>)
    requires Ranked(HitsOf(0, ms))
    ensures Ranked(HitsOf(split, ms))
  {
    forall i, j | 0 <= i < j < |ms|
      ensures Before(HitOf(split, ms[i]), HitOf(split, ms[j]))
    {
      assert Before(HitsOf(0, ms)[i], HitsOf(0, ms)[j]);
    }
  }

  lemma {:induction false} LiveInOrder(ms: seq<Match>, tombs: Tombstones, g: nat, split: nat)
    requires Ranked(HitsOf(split, ms))
    ensures Ranked(HitsOf(split, LiveMatches(ms, tombs, g)))
    ensures forall m :: m in LiveMatches(ms, tombs, g) ==> m in ms
    decreases |ms|
  {
    hide Before, IsDeletedAt;
    if ms != [] {
      var n := |ms| - 1;
      assert HitsOf(split, ms[..n]) == HitsOf(split, ms)[..n];
      LiveInOrder(ms[..n], tombs, g, split);
      var live := LiveMatches(ms[..n], tombs, g);
      forall i | 0 <= i < |live|
        ensures Before(HitOf(split, live[i]), HitOf(split, ms[n]))
      {
        assert live[i] in live;
        var k :| 0 <= k < n && ms[k] == live[i];
        assert Before(HitsOf(split, ms)[k], HitsOf(split, ms)[n]);
      }
    }
  }

  /** Every candidate is of one of the splits. */
  lemma {:induction false} CandidateSplits(handles: seq<Handle>, tombs: Tombstones)
    ensures forall c :: c in AllLive(handles, tombs) ==> c.hit.split < |handles|
    decreases |handles|
  {
    hide LiveMatches;
    if handles != [] {
      CandidateSplits(handles[..|handles| - 1], tombs);
    }
  }

  /** No two live candidates are the same hit. */
  lemma {:induction false} LiveDistinct(handles: seq<Handle>, tombs: Tombstones)
    requires AllRanked(handles)
    ensures Distinct(HitsOnly(AllLive(handles, tombs)))
    decreases |handles|
  {
    hide LiveMatches, Before, WellRanked;
    if handles != [] {
      var n := |handles| - 1;
      var h := handles[n];
      LiveDistinct(handles[..n], tombs);
      CandidateSplits(handles[..n], tombs);
      LastDistinct(n, h, tombs);
      var before := AllLive(handles[..n], tombs);
      var last := CandidatesOf(n, h, LiveMatches(h.ranked, tombs, h.generation));
      DistinctConcat(before, last, n);
    }
  }

  lemma LastDistinct(n: nat, h: Handle, tombs: Tombstones)
    requires WellRanked(h)
    ensures Distinct(HitsOnly(CandidatesOf(n, h, LiveMatches(h.ranked, tombs, h.generation))))
  {
    hide Before, LiveMatches;
    HitOrder(n, h.ranked);
    LiveInOrder(h.ranked, tombs, h.generation, n);
    var live := LiveMatches(h.ranked, tombs, h.generation);
    RankedDistinct(HitsOf(n, live));
    assert HitsOnly(CandidatesOf(n, h, live)) == HitsOf(n, live);
  }

  lemma RankedDistinct(hits: seq<Hit>)
    requires Ranked(hits)
    ensures Distinct(hits)
  {
  }

  lemma DistinctConcat(a: seq<Candidate>, b: seq<Candidate>, n: nat)
    requires Distinct(HitsOnly(a)) && Distinct(HitsOnly(b))
    requires (forall c :: c in a ==> c.hit.split < n) && forall c :: c in b ==> c.hit.split == n
    ensures Distinct(HitsOnly(a + b))
  {
    var all := HitsOnly(a + b);
    forall i, j | 0 <= i < j < |all|
      ensures all[i] != all[j]
    {
      if i < |a| && j >= |a| {
        assert a[i] in a && b[j - |a|] in b;
      } else if j < |a| {
        assert HitsOnly(a)[i] != HitsOnly(a)[j];
      } else {
        assert HitsOnly(b)[i - |a|] != HitsOnly(b)[j - |a|];
      }
    }
  }

  /** `part` leaves out only what at least `limit` of its hits outrank, one list at a time. */
  ghost predicate Enough(part: seq<Candidate>, all: seq<Candidate>, limit: nat) {
    && (forall c :: c in part ==> c in all)
    && (forall c :: c in all && c !in part ==> Outranked(HitsOnly(part), c.hit, limit))
  }

  lemma OutrankedMore(part: seq<Hit>, more: seq<Hit>, h: Hit, limit: nat)
    requires Outranked(part, h, limit) && forall x :: x in part ==> x in more
    ensures Outranked(more, h, limit)
  {
  }

  /** A list cut after at least `limit` of its hits. */
  lemma CutEnough(n: nat, h: Handle, cut: seq<Match>, full: seq<Match>, limit: nat)
    requires Ranked(HitsOf(n, full)) && cut <= full && (cut == full || |cut| >= limit)
    ensures Enough(CandidatesOf(n, h, cut), CandidatesOf(n, h, full), limit)
  {
    hide Before;
    var part, all := CandidatesOf(n, h, cut), CandidatesOf(n, h, full);
    forall c | c in part
      ensures c in all
    {
      var i :| 0 <= i < |part| && part[i] == c;
      assert all[i] == c;
    }
    assert forall k :: 0 <= k < |part| ==> part[k] == all[k];
    forall c | c in all && c !in part
      ensures Outranked(HitsOnly(part), c.hit, limit)
    {
      var i :| 0 <= i < |all| && all[i] == c;
      IsOutranked(n, h, cut, full, i, limit);
    }
  }

  lemma IsOutranked(n: nat, h: Handle, cut: seq<Match>, full: seq<Match>, i: nat, limit: nat)
    requires Ranked(HitsOf(n, full)) && cut <= full && limit <= |cut| <= i < |full|
    ensures Outranked(HitsOnly(CandidatesOf(n, h, cut)), HitOf(n, full[i]), limit)
  {
    hide Before;
    var better := HitsOf(n, cut);
    assert better == HitsOnly(CandidatesOf(n, h, cut));
    forall k, j | 0 <= k < j < |better|
      ensures Before(better[k], better[j])
    {
      assert Before(HitsOf(n, full)[k], HitsOf(n, full)[j]);
    }
    forall k | 0 <= k < |better|
      ensures Before(better[k], HitOf(n, full[i]))
    {
      assert Before(HitsOf(n, full)[k], HitsOf(n, full)[i]);
    }
  }

  lemma EnoughConcat(p: seq<Candidate>, a: seq<Candidate>, q: seq<Candidate>, b: seq<Candidate>, limit: nat)
    requires Enough(p, a, limit) && Enough(q, b, limit)
    ensures Enough(p + q, a + b, limit)
  {
    hide Outranked;
    HitsConcat(p, q);
    forall c | c in a + b && c !in p + q
      ensures Outranked(HitsOnly(p + q), c.hit, limit)
    {
      if c in a {
        OutrankedMore(HitsOnly(p), HitsOnly(p + q), c.hit, limit);
      } else {
        OutrankedMore(HitsOnly(q), HitsOnly(p + q), c.hit, limit);
      }
    }
  }

  lemma HitsConcat(p: seq<Candidate>, q: seq<Candidate>)
    ensures HitsOnly(p + q) == HitsOnly(p) + HitsOnly(q)
  {
  }

  lemma {:induction false} FetchedEnough(handles: seq<Handle>, tombs: Tombstones, limit: nat)
    requires AllRanked(handles)
    ensures Enough(Fetched(handles, tombs, limit + |tombs|), AllLive(handles, tombs), limit)
    decreases |handles|
  {
    hide LiveMatches, WellRanked, TopDocs, Enough;
    if handles == [] {
      NothingEnough(limit);
    } else {
      var n := |handles| - 1;
      var h := handles[n];
      FetchedEnough(handles[..n], tombs, limit);
      OverFetch(h, tombs, limit);
      LiveRanked(n, h, tombs);
      var cut := LiveMatches(TopDocs(h, limit + |tombs|), tombs, h.generation);
      var full := LiveMatches(h.ranked, tombs, h.generation);
      CutEnough(n, h, cut, full, limit);
      EnoughConcat(Fetched(handles[..n], tombs, limit + |tombs|), AllLive(handles[..n], tombs),
                   CandidatesOf(n, h, cut), CandidatesOf(n, h, full), limit);
    }
  }

  lemma NothingEnough(limit: nat)
    ensures Enough([], [], limit)
  {
  }

  lemma LiveRanked(n: nat, h: Handle, tombs: Tombstones)
    requires WellRanked(h)
    ensures Ranked(HitsOf(n, LiveMatches(h.ranked, tombs, h.generation)))
  {
    hide Before, LiveMatches;
    HitOrder(n, h.ranked);
    LiveInOrder(h.ranked, tombs, h.generation, n);
  }

  /** A ranking of enough candidates has the top of the full ranking. */
  lemma EnoughSameTop(part: seq<Candidate>, all: seq<Candidate>, limit: nat)
    requires Enough(part, all, limit) && Distinct(HitsOnly(part)) && Distinct(HitsOnly(all))
    ensures Take(SortHits(HitsOnly(part)), limit) == Take(SortHits(HitsOnly(all)), limit)
  {
    hide Before, SortHits;
    SortKeeps(HitsOnly(part));
    SortKeeps(HitsOnly(all));
    var p, a := SortHits(HitsOnly(part)), SortHits(HitsOnly(all));
    forall h | h in p
      ensures h in a
    {
      var i :| 0 <= i < |part| && HitsOnly(part)[i] == h;
      assert part[i] in part;
      var j :| 0 <= j < |all| && all[j] == part[i];
      assert HitsOnly(all)[j] == h;
    }
    forall c | c in part
      ensures c.hit in p
    {
      var i :| 0 <= i < |part| && part[i] == c;
      assert HitsOnly(part)[i] == c.hit;
    }
    forall h | h in a && h !in p
      ensures Outranked(p, h, limit)
    {
      var j :| 0 <= j < |all| && HitsOnly(all)[j] == h;
      assert all[j] in all;
      OutrankedMore(HitsOnly(part), p, h, limit);
    }
    SameTop(a, p, limit);
  }

  lemma {:induction false} FetchedIsPart(handles: seq<Handle>, tombs: Tombstones, fetch: nat)
    requires DistinctIds(AllLive(handles, tombs))
    ensures DistinctIds(Fetched(handles, tombs, fetch))
    ensures forall c :: c in Fetched(handles, tombs, fetch) ==> c in AllLive(handles, tombs)
    decreases |handles|
  {
    hide LiveMatches;
    if handles != [] {
      var n := |handles| - 1;
      var h := handles[n];
      var before := AllLive(handles[..n], tombs);
      assert AllLive(handles, tombs)[..|before|] == before;
      FetchedIsPart(handles[..n], tombs, fetch);
      if |h.ranked| > fetch {
        LivePrefix(h.ranked, fetch, tombs, h.generation);
      }
      var cut := LiveMatches(TopDocs(h, fetch), tombs, h.generation);
      var full := LiveMatches(h.ranked, tombs, h.generation);
      assert cut <= full;
      IdsConcat(Fetched(handles[..n], tombs, fetch), before, CandidatesOf(n, h, cut), CandidatesOf(n, h, full));
    }
  }

  lemma IdsConcat(p: seq<Candidate>, a: seq<Candidate>, q: seq<Candidate>, b: seq<Candidate>)
    requires DistinctIds(a + b) && DistinctIds(p) && (forall c :: c in p ==> c in a) && q <= b
    ensures DistinctIds(p + q) && forall c :: c in p + q ==> c in a + b
  {
    forall i, j | 0 <= i < j < |p + q|
      ensures (p + q)[i].id != (p + q)[j].id
    {
      if i < |p| && j >= |p| {
        assert p[i] in a;
        var k :| 0 <= k < |a| && a[k] == p[i];
        assert (a + b)[k].id != (a + b)[|a| + (j - |p|)].id;
      } else if i >= |p| {
        assert (a + b)[|a| + (i - |p|)].id != (a + b)[|a| + (j - |p|)].id;
      }
    }
  }

  /** If no id is live in two places, the filtered search returns exactly the first `limit` of
      all live hits: the hidden hits it fetches never crowd out a live one. */
  lemma FilteredIsComplete(handles: seq<Handle>, tombs: Tombstones, limit: nat)
    requires AllRanked(handles) && DistinctIds(AllLive(handles, tombs))
    ensures Filtered(handles, tombs, limit) == Take(SortHits(HitsOnly(AllLive(handles, tombs))), limit)
  {
    hide Before, SortHits, Fetched, AllLive, WellRanked, Enough, Take, Kept;
    var cs, all := Fetched(handles, tombs, limit + |tombs|), AllLive(handles, tombs);
    FetchedIsPart(handles, tombs, limit + |tombs|);
    KeptAll(cs, |cs|);
    assert HitsOnly(cs)[..|cs|] == HitsOnly(cs);
    LiveDistinct(handles, tombs);
    FetchedEnough(handles, tombs, limit);
    FetchedDistinct(handles, tombs, limit + |tombs|);
    EnoughSameTop(cs, all, limit);
  }

  // ---- Pages ----

  /** Each split returns its best `offset + limit` hits; the merged ranking is cut to the page. */
  method SearchPage(handles: seq<Handle>, offset: nat, limit: nat) returns (r: seq<Hit>)
    ensures r == Page(SortHits(HitsOnly(Fetched(handles, map[], offset + limit))), offset, limit)
  {
    hide Fetched, SortHits;
    if offset + limit == 0 {
      return [];
    }
    var cs := Collect(handles, map[], offset + limit);
    r := Page(SortHits(HitsOnly(cs)), offset, limit);
  }

  function Page(hits: seq<Hit>, offset: nat, limit: nat): seq<Hit> {
    if |hits| <= offset then [] else Take(hits[offset..], limit)
  }

  lemma PageOfTop(hits: seq<Hit>, offset: nat, limit: nat)
    ensures Page(Take(hits, offset + limit), offset, limit) == Page(hits, offset, limit)
  {
  }

  /** A page is the same slice of the full ranking of all hits. */
  lemma PageIsComplete(handles: seq<Handle>, offset: nat, limit: nat)
    requires AllRanked(handles)
    ensures Page(SortHits(HitsOnly(Fetched(handles, map[], offset + limit))), offset, limit)
         == Page(SortHits(HitsOnly(AllLive(handles, map[]))), offset, limit)
  {
    hide Before, SortHits, Fetched, AllLive, WellRanked, Enough, Take, Page;
    var top := offset + limit;
    var cs, all := Fetched(handles, map[], top), AllLive(handles, map[]);
    var none: Tombstones := map[];
    assert top + |none| == top;
    FetchedEnough(handles, none, top);
    LiveDistinct(handles, map[]);
    FetchedDistinct(handles, map[], top);
    EnoughSameTop(cs, all, top);
    PageOfTop(SortHits(HitsOnly(cs)), offset, limit);
    PageOfTop(SortHits(HitsOnly(all)), offset, limit);
  }

  lemma {:induction false} FetchedDistinct(handles: seq<Handle>, tombs: Tombstones, fetch: nat)
    requires AllRanked(handles)
    ensures Distinct(HitsOnly(Fetched(handles, tombs, fetch)))
    ensures forall c :: c in Fetched(handles, tombs, fetch) ==> c.hit.split < |handles|
    decreases |handles|
  {
    hide LiveMatches, Before, WellRanked;
    if handles != [] {
      var n := |handles| - 1;
      var h := handles[n];
      FetchedDistinct(handles[..n], tombs, fetch);
      var cut := Handle(h.generation, TopDocs(h, fetch));
      CutRanked(h, fetch);
      LastDistinct(n, cut, tombs);
      DistinctConcat(Fetched(handles[..n], tombs, fetch),
                     CandidatesOf(n, h, LiveMatches(TopDocs(h, fetch), tombs, h.generation)), n);
    }
  }

  lemma CutRanked(h: Handle, fetch: nat)
    requires WellRanked(h)
    ensures WellRanked(Handle(h.generation, TopDocs(h, fetch)))
  {
    hide Before;
    forall i, j | 0 <= i < j < |TopDocs(h, fetch)|
      ensures Before(HitsOf(0, TopDocs(h, fetch))[i], HitsOf(0, TopDocs(h, fetch))[j])
    {
      assert Before(HitsOf(0, h.ranked)[i], HitsOf(0, h.ranked)[j]);
    }
  }

  // ---- Without the condition ----

  /** Copies of an id that a newer split supersedes, without a delete, are not counted in what
      is fetched beyond the limit. Two splits: the older holds `x` and, with a lower score,
      `y`; the newer holds `x` again with a low score. With a limit of one, `y` is never
      fetched, and the newer `x` is returned although `y` ranks above it. */
  lemma SupersededCopiesCrowdOut(x: Text, y: Text)
    requires x != y
    ensures Filtered([Older(x, y), Newer(x)], map[], 1) == [Hit(1, 1, 0, 0)]
    ensures exists c :: c in AllLive([Older(x, y), Newer(x)], map[]) && c.id == y && Before(c.hit, Hit(1, 1, 0, 0))
  {
    hide Fetched, AllLive, Take, SortHits, Kept;
    BestOfEach(x, y);
    var none: Tombstones := map[];
    assert 1 + |none| == 1;
    NewerReturned(x);
    LowerIsLive(Older(x, y), Newer(x), y);
  }

  function Older(x: Text, y: Text): Handle {
    Handle(1, [Match(10, 0, 0, x), Match(5, 0, 1, y)])
  }

  function Newer(x: Text): Handle {
    Handle(2, [Match(1, 0, 0, x)])
  }

  lemma BestOfEach(x: Text, y: Text)
    ensures Fetched([Older(x, y), Newer(x)], map[], 1)
         == [Candidate(Hit(10, 0, 0, 0), x, 1), Candidate(Hit(1, 1, 0, 0), x, 2)]
  {
    hide Fetched, AllLive, LiveMatches;
    var a, b := Older(x, y), Newer(x);
    TwoSplits(a, b, 1);
    OneLive(a.ranked[0]);
    OneLive(b.ranked[0]);
    assert a.ranked[..1] == [a.ranked[0]];
  }

  lemma NewerReturned(x: Text)
    ensures var cs := [Candidate(Hit(10, 0, 0, 0), x, 1), Candidate(Hit(1, 1, 0, 0), x, 2)];
            Take(SortHits(Kept(cs, |cs|)), 1) == [Hit(1, 1, 0, 0)]
  {
    var cs := [Candidate(Hit(10, 0, 0, 0), x, 1), Candidate(Hit(1, 1, 0, 0), x, 2)];
    assert BestOf(cs, 1) == map[x := 0];
    assert BestOf(cs, 2) == map[x := 1];
    assert Kept(cs, 1) == [];
    assert Kept(cs, 2) == [cs[1].hit];
    assert [cs[1].hit][..0] == [];
    assert SortHits([cs[1].hit][..0]) == [];
  }

  lemma TwoSplits(a: Handle, b: Handle, fetch: nat)
    ensures Fetched([a, b], map[], fetch)
         == CandidatesOf(0, a, LiveMatches(TopDocs(a, fetch), map[], a.generation))
            + CandidatesOf(1, b, LiveMatches(TopDocs(b, fetch), map[], b.generation))
    ensures AllLive([a, b], map[])
         == CandidatesOf(0, a, LiveMatches(a.ranked, map[], a.generation))
            + CandidatesOf(1, b, LiveMatches(b.ranked, map[], b.generation))
  {
    assert [a, b][..1] == [a] && [a][..0] == [];
    assert Fetched([a], map[], fetch) == Fetched([], map[], fetch) + CandidatesOf(0, a, LiveMatches(TopDocs(a, fetch), map[], a.generation));
    assert AllLive([a], map[]) == AllLive([], map[]) + CandidatesOf(0, a, LiveMatches(a.ranked, map[], a.generation));
  }

  lemma OneLive(m: Match)
    ensures forall g :: LiveMatches([m], map[], g) == [m]
  {
    assert [m][..0] == [];
  }

  lemma LowerIsLive(a: Handle, b: Handle, y: Text)
    requires |a.ranked| == 2 && a.ranked[1] == Match(5, 0, 1, y)
    ensures exists c :: c in AllLive([a, b], map[]) && c.id == y && Before(c.hit, Hit(1, 1, 0, 0))
  {
    TwoSplits(a, b, 1);
    var live := LiveMatches(a.ranked, map[], a.generation);
    assert live == LiveMatches(a.ranked[..1], map[], a.generation) + [a.ranked[1]];
    var c := CandidatesOf(0, a, live)[|live| - 1];
    assert c in CandidatesOf(0, a, live);
    assert c in AllLive([a, b], map[]);
  }
}

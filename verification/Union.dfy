/** Searching both tiers: the best hits of the live segment and of the durable index, the
    durable ones masked by what the segment covers, merged by score and cut. */
module Union {
  import opened Bytes
  import opened Decimal
  import opened LiveTier
  import opened Outcomes
  import S = Search

  /** How many hits are asked of each tier, and kept of their union. */
  const UnionLimit: nat := 100

  datatype RowHit = RowHit(pk: Pk, score: int)

  datatype IdHit = IdHit(id: Text, score: int)

  ghost predicate DistinctPks(hits: seq<RowHit>) {
    forall i, j :: 0 <= i < j < |hits| ==> hits[i].pk != hits[j].pk
  }

  // ---- The live segment ----

  function Untombed(hits: seq<RowHit>, tombs: set<Pk>): seq<RowHit>
    decreases |hits|
  {
    if hits == [] then []
    else
      var h := hits[|hits| - 1];
      Untombed(hits[..|hits| - 1], tombs) + if h.pk in tombs then [] else [h]
  }

  lemma {:induction false} UntombedConcat(a: seq<RowHit>, b: seq<RowHit>, tombs: set<Pk>)
    ensures Untombed(a + b, tombs) == Untombed(a, tombs) + Untombed(b, tombs)
    decreases |b|
  {
    if b == [] {
      assert a + b == a;
    } else {
      var n := |b| - 1;
      assert (a + b)[..|a + b| - 1] == a + b[..n];
      UntombedConcat(a, b[..n], tombs);
    }
  }

  lemma {:induction false} UntombedWithout(hits: seq<RowHit>, tombs: set<Pk>, pk: Pk)
    requires forall i :: 0 <= i < |hits| ==> hits[i].pk != pk
    ensures Untombed(hits, tombs - {pk}) == Untombed(hits, tombs)
    decreases |hits|
  {
    if hits != [] {
      UntombedWithout(hits[..|hits| - 1], tombs, pk);
    }
  }

  /** Of hits with distinct pks, at most as many are dropped as there are tombstones. */
  lemma {:induction false} FewDropped(hits: seq<RowHit>, tombs: set<Pk>)
    requires DistinctPks(hits)
    ensures |Untombed(hits, tombs)| + |tombs| >= |hits|
    decreases |hits|
  {
    if hits != [] {
      var n := |hits| - 1;
      var pk := hits[n].pk;
      if pk in tombs {
        FewDropped(hits[..n], tombs - {pk});
        UntombedWithout(hits[..n], tombs, pk);
      } else {
        FewDropped(hits[..n], tombs);
      }
    }
  }

  /** The best hits of the segment: over-fetched by the number of tombstones, then filtered
      and cut. `ranked` is every match, best first. */
  method SearchLive(ranked: seq<RowHit>, tombs: set<Pk>, limit: nat) returns (hits: seq<RowHit>)
    ensures hits == S.Take(Untombed(S.Take(ranked, limit + |tombs|), tombs), limit)
  {
    var raw := S.Take(ranked, limit + |tombs|);
    hits := [];
    for i := 0 to |raw|
      invariant hits == Untombed(raw[..i], tombs)
    {
      assert raw[..i + 1][..i] == raw[..i];
      if raw[i].pk !in tombs {
        hits := hits + [raw[i]];
      }
    }
    assert raw[..|raw|] == raw;
    hits := S.Take(hits, limit);
  }

  /** The over-fetch is enough: no tombstone starves the best hits. */
  lemma LiveSearchIsTop(ranked: seq<RowHit>, tombs: set<Pk>, limit: nat)
    requires DistinctPks(ranked)
    ensures S.Take(Untombed(S.Take(ranked, limit + |tombs|), tombs), limit) == S.Take(Untombed(ranked, tombs), limit)
  {
    var n := limit + |tombs|;
    if |ranked| > n {
      assert ranked == ranked[..n] + ranked[n..];
      UntombedConcat(ranked[..n], ranked[n..], tombs);
      FewDropped(ranked[..n], tombs);
    }
  }

  // ---- The durable hits ----

  /** The durable hits whose id is a pk that the segment does not cover. */
  function Uncovered(durable: seq<IdHit>, covered: set<Pk>): seq<RowHit>
    decreases |durable|
  {
    if durable == [] then []
    else
      var h := durable[|durable| - 1];
      var pk := Parse(h.id);
      Uncovered(durable[..|durable| - 1], covered)
      + if pk.Some? && pk.value !in covered then [RowHit(pk.value, h.score)] else []
  }

  lemma {:induction false} UncoveredConcat(a: seq<IdHit>, b: seq<IdHit>, covered: set<Pk>)
    ensures Uncovered(a + b, covered) == Uncovered(a, covered) + Uncovered(b, covered)
    decreases |b|
  {
    hide Parse;
    if b == [] {
      assert a + b == a;
    } else {
      var n := |b| - 1;
      assert (a + b)[..|a + b| - 1] == a + b[..n];
      UncoveredConcat(a, b[..n], covered);
    }
  }

  lemma {:induction false} UncoveredFewer(durable: seq<IdHit>, covered: set<Pk>)
    ensures |Uncovered(durable, covered)| <= |durable|
    decreases |durable|
  {
    if durable != [] {
      UncoveredFewer(durable[..|durable| - 1], covered);
    }
  }

  // ---- The merge ----

  /** Best first; equal scores in any order. */
  ghost predicate Descends(hits: seq<RowHit>) {
    forall i, j :: 0 <= i < j < |hits| ==> hits[i].score >= hits[j].score
  }

  ghost predicate DurableDescends(hits: seq<IdHit>) {
    forall i, j :: 0 <= i < j < |hits| ==> hits[i].score >= hits[j].score
  }

  /** After every hit with at least its score. */
  function Insert(hits: seq<RowHit>, h: RowHit): seq<RowHit> {
    if hits == [] || hits[0].score < h.score then [h] + hits else [hits[0]] + Insert(hits[1..], h)
  }

  /** A stable sort by descending score. */
  function ByScore(hits: seq<RowHit>): seq<RowHit>
    decreases |hits|
  {
    if hits == [] then [] else Insert(ByScore(hits[..|hits| - 1]), hits[|hits| - 1])
  }

  /** The hits with one score, in their order. */
  function AtScore(hits: seq<RowHit>, score: int): seq<RowHit>
    decreases |hits|
  {
    if hits == [] then []
    else (if hits[0].score == score then [hits[0]] else []) + AtScore(hits[1..], score)
  }

  lemma {:induction false} NoneAtScore(hits: seq<RowHit>, score: int)
    requires forall i :: 0 <= i < |hits| ==> hits[i].score < score
    ensures AtScore(hits, score) == []
  {
    if hits != [] {
      NoneAtScore(hits[1..], score);
    }
  }

  lemma {:induction false} AtScoreSnoc(hits: seq<RowHit>, last: RowHit, score: int)
    ensures AtScore(hits + [last], score) == AtScore(hits, score) + if last.score == score then [last] else []
    decreases |hits|
  {
    var all := hits + [last];
    if hits == [] {
      assert all[1..] == [];
    } else {
      AtScoreSnoc(hits[1..], last, score);
      assert all[1..] == hits[1..] + [last];
    }
  }

  lemma {:induction false} InsertMembers(hits: seq<RowHit>, h: RowHit)
    ensures multiset(Insert(hits, h)) == multiset(hits) + multiset{h}
  {
    if hits != [] && hits[0].score >= h.score {
      InsertMembers(hits[1..], h);
      assert hits == [hits[0]] + hits[1..];
    }
  }

  lemma {:induction false} InsertDescends(hits: seq<RowHit>, h: RowHit)
    requires Descends(hits)
    ensures Descends(Insert(hits, h))
  {
    if hits != [] && hits[0].score >= h.score {
      InsertDescends(hits[1..], h);
      InsertMembers(hits[1..], h);
      var rest := Insert(hits[1..], h);
      forall i | 0 <= i < |rest|
        ensures rest[i].score <= hits[0].score
      {
        assert rest[i] in multiset(rest);
        assert rest[i] in hits[1..] || rest[i] == h;
      }
    }
  }

  lemma {:induction false} InsertStable(hits: seq<RowHit>, h: RowHit, score: int)
    requires Descends(hits)
    ensures AtScore(Insert(hits, h), score) == AtScore(hits, score) + if h.score == score then [h] else []
  {
    if hits == [] || hits[0].score < h.score {
      assert ([h] + hits)[1..] == hits;
      if h.score == score {
        NoneAtScore(hits, score);
      }
    } else {
      InsertStable(hits[1..], h, score);
      assert ([hits[0]] + Insert(hits[1..], h))[1..] == Insert(hits[1..], h);
    }
  }

  /** The sort keeps the hits, puts the best first, and keeps the order of equal scores. */
  lemma {:induction false} SortIsStable(hits: seq<RowHit>, score: int)
    ensures Descends(ByScore(hits)) && multiset(ByScore(hits)) == multiset(hits)
    ensures AtScore(ByScore(hits), score) == AtScore(hits, score)
    decreases |hits|
  {
    hide Insert, AtScore;
    if hits != [] {
      var n := |hits| - 1;
      SortIsStable(hits[..n], score);
      InsertMembers(ByScore(hits[..n]), hits[n]);
      InsertDescends(ByScore(hits[..n]), hits[n]);
      InsertStable(ByScore(hits[..n]), hits[n], score);
      AtScoreSnoc(hits[..n], hits[n], score);
      assert hits == hits[..n] + [hits[n]];
    } else {
      SortNone();
    }
  }

  lemma SortNone()
    ensures ByScore([]) == []
  {
  }

  method SortByScore(hits: seq<RowHit>) returns (sorted: seq<RowHit>)
    ensures sorted == ByScore(hits)
  {
    sorted := [];
    for i := 0 to |hits|
      invariant sorted == ByScore(hits[..i])
    {
      assert hits[..i + 1][..i] == hits[..i];
      sorted := Insert(sorted, hits[i]);
    }
    assert hits[..|hits|] == hits;
  }

  /** The union of the best hits of both tiers, best first. */
  function UnionOf(live: seq<RowHit>, durable: seq<IdHit>, covered: set<Pk>): seq<RowHit> {
    S.Take(ByScore(live + Uncovered(durable, covered)), UnionLimit)
  }

  /** `ranked` and `durable` are every match of either tier, best first; `durable` is empty
      while there is no durable index. */
  method UnionHits(ranked: seq<RowHit>, tombs: set<Pk>, durable: seq<IdHit>, covered: set<Pk>) returns (hits: seq<RowHit>)
    requires DistinctPks(ranked)
    ensures hits == UnionOf(S.Take(Untombed(ranked, tombs), UnionLimit), S.Take(durable, UnionLimit), covered)
  {
    hide ByScore;
    hits := SearchLive(ranked, tombs, UnionLimit);
    LiveSearchIsTop(ranked, tombs, UnionLimit);
    ghost var live := hits;
    var fetched := S.Take(durable, UnionLimit);
    for i := 0 to |fetched|
      invariant hits == live + Uncovered(fetched[..i], covered)
    {
      assert fetched[..i + 1][..i] == fetched[..i];
      var pk := Parse(fetched[i].id);
      if pk.Some? && pk.value !in covered {
        hits := hits + [RowHit(pk.value, fetched[i].score)];
      }
    }
    assert fetched[..|fetched|] == fetched;
    hits := SortByScore(hits);
    hits := S.Take(hits, UnionLimit);
  }

  // ---- What a cut tier costs ----

  /** Two rankings as one, the first of them ahead on equal scores. */
  function Merge(x: seq<RowHit>, y: seq<RowHit>): seq<RowHit>
    decreases |x| + |y|
  {
    if x == [] then y
    else if y == [] then x
    else if x[0].score >= y[0].score then [x[0]] + Merge(x[1..], y)
    else [y[0]] + Merge(x, y[1..])
  }

  lemma {:induction false} InsertLast(y: seq<RowHit>, h: RowHit)
    requires forall i :: 0 <= i < |y| ==> y[i].score >= h.score
    ensures Insert(y, h) == y + [h]
  {
    if y != [] {
      InsertLast(y[1..], h);
    }
  }

  lemma {:induction false} InsertMerge(x: seq<RowHit>, y: seq<RowHit>, h: RowHit)
    requires forall i :: 0 <= i < |y| ==> y[i].score >= h.score
    ensures Insert(Merge(x, y), h) == Merge(x, y + [h])
    decreases |x| + |y|
  {
    if x == [] {
      InsertLast(y, h);
    } else if y == [] {
      assert y + [h] == [h] && [h][1..] == [];
      if x[0].score >= h.score {
        InsertMerge(x[1..], y, h);
        MergeNone(x[1..]);
      }
    } else if x[0].score >= y[0].score {
      InsertMerge(x[1..], y, h);
    } else {
      InsertMerge(x, y[1..], h);
      assert (y + [h])[1..] == y[1..] + [h];
    }
  }

  lemma MergeNone(x: seq<RowHit>)
    ensures Merge(x, []) == x
  {
  }

  /** Sorting two rankings put one after the other merges them. */
  lemma {:induction false} SortIsMerge(x: seq<RowHit>, y: seq<RowHit>)
    requires Descends(x) && Descends(y)
    ensures ByScore(x + y) == Merge(x, y)
    decreases |x| + |y|
  {
    hide Insert, Merge;
    if y != [] {
      var n := |y| - 1;
      SortIsMerge(x, y[..n]);
      InsertMerge(x, y[..n], y[n]);
      assert (x + y)[..|x + y| - 1] == x + y[..n];
      assert y == y[..n] + [y[n]];
    } else if x != [] {
      var n := |x| - 1;
      SortIsMerge(x[..n], []);
      MergeNone(x[..n]);
      MergeNone(x);
      InsertLast(x[..n], x[n]);
      assert x + y == x && x[..n] + [] == x[..n];
    } else {
      MergeNone(x);
    }
  }

  lemma MergeFromX(x: seq<RowHit>, y: seq<RowHit>)
    requires x != [] && (y == [] || x[0].score >= y[0].score)
    ensures Merge(x, y) == [x[0]] + Merge(x[1..], y)
  {
    MergeNone(x[1..]);
  }

  lemma FirstCons<T>(head: T, tail: seq<T>, n: nat)
    requires n > 0
    ensures S.Take([head] + tail, n) == [head] + S.Take(tail, n - 1)
  {
  }

  /** The first hits of a merge need only as many of the first ranking. */
  lemma {:induction false} FirstOfMerge(x: seq<RowHit>, y: seq<RowHit>, n: nat, i: nat)
    requires i >= n
    ensures S.Take(Merge(S.Take(x, i), y), n) == S.Take(Merge(x, y), n)
    decreases |x| + |y|
  {
    hide S.Take;
    if n == 0 || |x| <= i {
      FirstAll(Merge(S.Take(x, i), y), Merge(x, y), x, n, i);
    } else {
      FirstTail(x, i);
      if y == [] || x[0].score >= y[0].score {
        FirstOfMerge(x[1..], y, n - 1, i - 1);
        MergeFromX(x, y);
        MergeFromX(S.Take(x, i), y);
        FirstCons(x[0], Merge(x[1..], y), n);
        FirstCons(x[0], Merge(S.Take(x[1..], i - 1), y), n);
      } else {
        FirstOfMerge(x, y[1..], n - 1, i);
        FirstCons(y[0], Merge(x, y[1..]), n);
        FirstCons(y[0], Merge(S.Take(x, i), y[1..]), n);
      }
    }
  }

  lemma FirstAll(a: seq<RowHit>, b: seq<RowHit>, x: seq<RowHit>, n: nat, i: nat)
    ensures n == 0 ==> S.Take(a, n) == S.Take(b, n)
    ensures |x| <= i ==> S.Take(x, i) == x
  {
  }

  lemma FirstTail<T>(x: seq<T>, i: nat)
    requires x != [] && i > 0
    ensures S.Take(x, i) != [] && S.Take(x, i)[0] == x[0] && S.Take(x, i)[1..] == S.Take(x[1..], i - 1)
  {
    if |x| > i {
      assert x[..i][1..] == x[1..][..i - 1];
    }
  }

  function CountAtLeast(x: seq<RowHit>, score: int): nat {
    if x == [] then 0 else (if x[0].score >= score then 1 else 0) + CountAtLeast(x[1..], score)
  }

  lemma {:induction false} NoneAtLeast(x: seq<RowHit>, score: int)
    requires Descends(x) && (x == [] || x[0].score < score)
    ensures CountAtLeast(x, score) == 0
  {
    if x != [] {
      NoneAtLeast(x[1..], score);
    }
  }

  lemma {:induction false} MergeLength(x: seq<RowHit>, y: seq<RowHit>)
    ensures |Merge(x, y)| == |x| + |y|
    decreases |x| + |y|
  {
    if x != [] && y != [] {
      if x[0].score >= y[0].score {
        MergeLength(x[1..], y);
      } else {
        MergeLength(x, y[1..]);
      }
    }
  }

  /** Two lists agree before `p`, and at `p` one holds `h` and the other ends or holds less. */
  ghost predicate PartAt(whole: seq<RowHit>, part: seq<RowHit>, p: nat, h: RowHit) {
    && p < |whole| && p <= |part|
    && whole[..p] == part[..p]
    && whole[p] == h
    && (p < |part| ==> part[p].score < h.score)
  }

  lemma PartNext(whole: seq<RowHit>, part: seq<RowHit>, p: nat, h: RowHit, first: RowHit)
    requires PartAt(whole, part, p, h)
    ensures PartAt([first] + whole, [first] + part, p + 1, h)
  {
    assert ([first] + whole)[..p + 1] == [first] + whole[..p];
    assert ([first] + part)[..p + 1] == [first] + part[..p];
  }

  /** Where a merge without the hits of `y` from `u` on first differs from the whole one. */
  lemma {:induction false} MergeParts(x: seq<RowHit>, y: seq<RowHit>, u: nat)
    requires Descends(x) && Descends(y) && u < |y|
    ensures PartAt(Merge(x, y), Merge(x, y[..u]), u + CountAtLeast(x, y[u].score), y[u])
    decreases |x| + |y|
  {
    hide PartAt, Merge, CountAtLeast;
    if x == [] || (u == 0 && x[0].score < y[0].score) {
      NoneAtLeast(x, y[u].score);
      PartHere(x, y, u);
    } else if x[0].score >= y[0].score {
      MergeParts(x[1..], y, u);
      HeadFromX(x, y, u);
      PartNext(Merge(x[1..], y), Merge(x[1..], y[..u]), u + CountAtLeast(x[1..], y[u].score), y[u], x[0]);
    } else {
      MergeParts(x, y[1..], u - 1);
      HeadFromY(x, y, u);
      PartNext(Merge(x, y[1..]), Merge(x, y[1..][..u - 1]), u - 1 + CountAtLeast(x, y[u].score), y[u], y[0]);
    }
  }

  lemma HeadFromX(x: seq<RowHit>, y: seq<RowHit>, u: nat)
    requires Descends(y) && x != [] && u < |y| && x[0].score >= y[0].score
    ensures Merge(x, y) == [x[0]] + Merge(x[1..], y) && Merge(x, y[..u]) == [x[0]] + Merge(x[1..], y[..u])
    ensures CountAtLeast(x, y[u].score) == 1 + CountAtLeast(x[1..], y[u].score)
  {
    hide Merge;
    MergeFromX(x, y);
    MergeFromX(x, y[..u]);
  }

  lemma HeadFromY(x: seq<RowHit>, y: seq<RowHit>, u: nat)
    requires x != [] && 0 < u < |y| && x[0].score < y[0].score
    ensures Merge(x, y) == [y[0]] + Merge(x, y[1..]) && Merge(x, y[..u]) == [y[0]] + Merge(x, y[1..][..u - 1])
  {
    assert y[..u][1..] == y[1..][..u - 1];
  }

  lemma PartHere(x: seq<RowHit>, y: seq<RowHit>, u: nat)
    requires u < |y| && (x == [] || (u == 0 && x[0].score < y[0].score))
    ensures PartAt(Merge(x, y), Merge(x, y[..u]), u, y[u])
  {
    MergeNone(x);
  }

  lemma PartAgrees(whole: seq<RowHit>, part: seq<RowHit>, p: nat, h: RowHit, n: nat)
    requires PartAt(whole, part, p, h)
    ensures S.Take(part, n) == S.Take(whole, n) <==> p >= n
  {
    if p >= n {
      assert whole[..p][..n] == whole[..n] && part[..p][..n] == part[..n];
    } else {
      assert S.Take(whole, n)[p] == h;
      assert p < |S.Take(part, n)| ==> S.Take(part, n)[p] == part[p];
    }
  }

  lemma {:induction false} UncoveredDescends(durable: seq<IdHit>, covered: set<Pk>)
    requires DurableDescends(durable)
    ensures Descends(Uncovered(durable, covered))
    ensures forall i, j :: 0 <= i < |Uncovered(durable, covered)| && 0 <= j < |durable| && j == |durable| - 1 ==>
      Uncovered(durable, covered)[i].score >= durable[j].score
    decreases |durable|
  {
    hide Parse;
    if durable != [] {
      var n := |durable| - 1;
      UncoveredDescends(durable[..n], covered);
    }
  }

  /** The first durable hit beyond the fetched ones that should be in the union, if any. */
  ghost predicate Reaches(live: seq<RowHit>, durable: seq<IdHit>, covered: set<Pk>) {
    var seen := Uncovered(S.Take(durable, UnionLimit), covered);
    var all := Uncovered(durable, covered);
    |all| > |seen| && |seen| + CountAtLeast(live, all[|seen|].score) < UnionLimit
  }

  /** The search finds the best of both tiers exactly unless the first uncovered durable hit
      past the fetched hundred has fewer than a hundred better ones: the durable side is cut
      before it is masked, so covered hits use up its places. */
  lemma UnionRightExactly(live: seq<RowHit>, durable: seq<IdHit>, covered: set<Pk>)
    requires Descends(live) && DurableDescends(durable)
    ensures UnionOf(S.Take(live, UnionLimit), S.Take(durable, UnionLimit), covered) == UnionOf(live, durable, covered)
            <==> !Reaches(live, durable, covered)
  {
    hide Uncovered, ByScore, Merge;
    var fetched := S.Take(durable, UnionLimit);
    var seen, all := Uncovered(fetched, covered), Uncovered(durable, covered);
    UncoveredDescends(durable, covered);
    UncoveredDescends(fetched, covered);
    SortIsMerge(S.Take(live, UnionLimit), seen);
    SortIsMerge(live, all);
    FirstOfMerge(live, seen, UnionLimit, UnionLimit);
    if |durable| > UnionLimit {
      assert durable == fetched + durable[UnionLimit..];
      UncoveredConcat(fetched, durable[UnionLimit..], covered);
    }
    assert all[..|seen|] == seen;
    if |all| > |seen| {
      MergeParts(live, all, |seen|);
      PartAgrees(Merge(live, all), Merge(live, seen), |seen| + CountAtLeast(live, all[|seen|].score), all[|seen|], UnionLimit);
    } else {
      assert all == seen;
    }
  }

  /** So whatever the live hits, the search is right exactly if every durable hit past the first
      hundred is covered, or none of the first hundred is. */
  lemma UnionAlwaysRight(durable: seq<IdHit>, covered: set<Pk>)
    requires DurableDescends(durable)
    ensures (forall live :: Descends(live) ==>
               UnionOf(S.Take(live, UnionLimit), S.Take(durable, UnionLimit), covered) == UnionOf(live, durable, covered))
            <==> || Uncovered(durable, covered) == Uncovered(S.Take(durable, UnionLimit), covered)
                 || |Uncovered(S.Take(durable, UnionLimit), covered)| == UnionLimit
  {
    hide Uncovered, UnionOf;
    var none: seq<RowHit> := [];
    UnionRightExactly(none, durable, covered);
    UncoveredFewer(S.Take(durable, UnionLimit), covered);
    if |durable| > UnionLimit {
      assert durable == S.Take(durable, UnionLimit) + durable[UnionLimit..];
      UncoveredConcat(S.Take(durable, UnionLimit), durable[UnionLimit..], covered);
    }
    forall live | Descends(live)
      ensures UnionOf(S.Take(live, UnionLimit), S.Take(durable, UnionLimit), covered) == UnionOf(live, durable, covered)
              <==> !Reaches(live, durable, covered)
    {
      UnionRightExactly(live, durable, covered);
    }
  }

  // ---- No pk twice ----

  lemma {:induction false} UncoveredAre(durable: seq<IdHit>, covered: set<Pk>)
    ensures forall h :: h in Uncovered(durable, covered) ==>
      h.pk !in covered && exists i :: 0 <= i < |durable| && Parse(durable[i].id) == Some(h.pk)
    decreases |durable|
  {
    hide Parse;
    if durable != [] {
      var n := |durable| - 1;
      UncoveredAre(durable[..n], covered);
      forall h | h in Uncovered(durable[..n], covered)
        ensures exists i :: 0 <= i < |durable| && Parse(durable[i].id) == Some(h.pk)
      {
        var i :| 0 <= i < n && Parse(durable[..n][i].id) == Some(h.pk);
        assert durable[i] == durable[..n][i];
      }
    }
  }

  /** Durable ids are rendered pks, each once. */
  ghost predicate Canonical(durable: seq<IdHit>) {
    && (forall i :: 0 <= i < |durable| ==> IsPkId(durable[i].id))
    && (forall i, j :: 0 <= i < j < |durable| ==> durable[i].id != durable[j].id)
  }

  ghost predicate IsPkId(id: Text) {
    exists pk: Pk :: id == Render(pk)
  }

  lemma CanonicalFront(durable: seq<IdHit>)
    requires durable != [] && Canonical(durable)
    ensures Canonical(durable[..|durable| - 1]) && IsPkId(durable[|durable| - 1].id)
  {
    hide IsPkId;
  }

  lemma {:induction false} UncoveredDistinct(durable: seq<IdHit>, covered: set<Pk>)
    requires Canonical(durable)
    ensures DistinctPks(Uncovered(durable, covered))
    decreases |durable|
  {
    hide Parse, Render, DistinctPks, Canonical;
    if durable == [] {
      NoneUncovered(covered);
    } else {
      var n := |durable| - 1;
      CanonicalFront(durable);
      UncoveredDistinct(durable[..n], covered);
      UncoveredAre(durable[..n], covered);
      var pk: Pk :| durable[n].id == Render(pk);
      ParseRender(pk);
      var before := Uncovered(durable[..n], covered);
      forall k | 0 <= k < |before|
        ensures before[k].pk != pk
      {
        assert before[k] in before;
        var i :| 0 <= i < n && Parse(durable[..n][i].id) == Some(before[k].pk);
        NotThatPk(durable, i, before[k].pk, pk);
      }
      UncoveredSnoc(durable, covered, pk);
    }
  }

  lemma NoneUncovered(covered: set<Pk>)
    ensures DistinctPks(Uncovered([], covered))
  {
  }

  lemma UncoveredSnoc(durable: seq<IdHit>, covered: set<Pk>, pk: Pk)
    requires durable != [] && Parse(durable[|durable| - 1].id) == Some(pk)
    requires var before := Uncovered(durable[..|durable| - 1], covered);
             DistinctPks(before) && forall k :: 0 <= k < |before| ==> before[k].pk != pk
    ensures DistinctPks(Uncovered(durable, covered))
  {
    hide Parse;
  }

  lemma NotThatPk(durable: seq<IdHit>, i: nat, other: Pk, pk: Pk)
    requires i < |durable| - 1 && Canonical(durable) && durable[|durable| - 1].id == Render(pk)
    requires Parse(durable[i].id) == Some(other)
    ensures other != pk
  {
    hide Parse, Render;
    assert IsPkId(durable[i].id);
    var q: Pk :| durable[i].id == Render(q);
    ParseRender(q);
  }

  lemma TiersDistinct(live: seq<RowHit>, durable: seq<IdHit>, covered: set<Pk>)
    requires DistinctPks(live) && (forall h :: h in live ==> h.pk in covered) && Canonical(durable)
    ensures DistinctPks(live + Uncovered(durable, covered))
  {
    hide Parse, Render;
    UncoveredDistinct(durable, covered);
    UncoveredAre(durable, covered);
    var rest := Uncovered(durable, covered);
    forall i, j | 0 <= i < |live| && 0 <= j < |rest|
      ensures live[i].pk != rest[j].pk
    {
      assert live[i] in live && rest[j] in rest;
    }
  }

  lemma {:induction false} InsertDistinct(hits: seq<RowHit>, h: RowHit)
    requires DistinctPks(hits) && forall i :: 0 <= i < |hits| ==> hits[i].pk != h.pk
    ensures DistinctPks(Insert(hits, h)) && forall x :: x in Insert(hits, h) <==> x in hits || x == h
  {
    if hits != [] && hits[0].score >= h.score {
      InsertDistinct(hits[1..], h);
      var rest := Insert(hits[1..], h);
      forall i | 0 <= i < |rest|
        ensures rest[i].pk != hits[0].pk
      {
        assert rest[i] in rest;
      }
    }
  }

  lemma {:induction false} SortDistinct(hits: seq<RowHit>)
    requires DistinctPks(hits)
    ensures DistinctPks(ByScore(hits)) && forall x :: x in ByScore(hits) <==> x in hits
    decreases |hits|
  {
    hide Insert;
    if hits != [] {
      var n := |hits| - 1;
      SortDistinct(hits[..n]);
      var sorted := ByScore(hits[..n]);
      forall i | 0 <= i < |sorted|
        ensures sorted[i].pk != hits[n].pk
      {
        assert sorted[i] in hits[..n];
      }
      InsertDistinct(sorted, hits[n]);
    }
  }

  /** The mask makes the two tiers' pks disjoint, so the union needs no other deduplication. */
  lemma UnionDistinct(live: seq<RowHit>, durable: seq<IdHit>, covered: set<Pk>)
    requires DistinctPks(live) && (forall h :: h in live ==> h.pk in covered) && Canonical(durable)
    ensures DistinctPks(UnionOf(live, durable, covered))
  {
    hide ByScore, Uncovered;
    TiersDistinct(live, durable, covered);
    SortDistinct(live + Uncovered(durable, covered));
  }

  // ---- Covered hits crowd out ----

  lemma {:induction false} AllCovered(durable: seq<IdHit>, covered: set<Pk>)
    requires forall i :: 0 <= i < |durable| ==> Parse(durable[i].id).Some? && Parse(durable[i].id).value in covered
    ensures Uncovered(durable, covered) == []
    decreases |durable|
  {
    hide Parse;
    if durable != [] {
      AllCovered(durable[..|durable| - 1], covered);
    }
  }

  lemma SortOne(h: RowHit)
    ensures ByScore([h]) == [h] && ByScore([]) == []
  {
    assert [h][..0] == [];
  }

  /** One uncovered hit after as many covered ones as are fetched. */
  lemma LastUncovered(durable: seq<IdHit>, covered: set<Pk>, pk: Pk)
    requires |durable| == UnionLimit + 1 && pk !in covered && durable[UnionLimit] == IdHit(Render(pk), 0)
    requires forall i :: 0 <= i < UnionLimit ==> Parse(durable[i].id).Some? && Parse(durable[i].id).value in covered
    ensures UnionOf([], S.Take(durable, UnionLimit), covered) == []
    ensures UnionOf([], durable, covered) == [RowHit(pk, 0)]
  {
    hide Parse, Render, ByScore, Uncovered;
    var fetched := S.Take(durable, UnionLimit);
    AllCovered(fetched, covered);
    assert durable == fetched + [durable[UnionLimit]];
    UncoveredConcat(fetched, [durable[UnionLimit]], covered);
    ParseRender(pk);
    UncoveredOne(durable[UnionLimit], covered, pk);
    SortOne(RowHit(pk, 0));
    var none: seq<RowHit> := [];
    assert none + [] == [] && none + [RowHit(pk, 0)] == [RowHit(pk, 0)];
  }

  lemma UncoveredOne(h: IdHit, covered: set<Pk>, pk: Pk)
    requires Parse(h.id) == Some(pk) && pk !in covered
    ensures Uncovered([h], covered) == [RowHit(pk, h.score)]
  {
    hide Parse;
    assert [h][..0] == [];
  }

  /** A hundred rows changed in memory so that they no longer match, and one old row that
      does: the search finds nothing. */
  lemma CoveredCrowdOut() returns (durable: seq<IdHit>, covered: set<Pk>)
    ensures DurableDescends(durable) && UnionLimit !in covered && IdHit(Render(UnionLimit), 0) in durable
    ensures UnionOf([], S.Take(durable, UnionLimit), covered) == []
    ensures UnionOf([], durable, covered) == [RowHit(UnionLimit, 0)]
  {
    hide Parse, Render, UnionOf;
    durable := seq(101, i requires 0 <= i < 101 => IdHit(Render(i), 0));
    var pks := seq(100, i requires 0 <= i < 100 => i as Pk);
    covered := set pk | pk in pks;
    forall i | 0 <= i < UnionLimit
      ensures Parse(durable[i].id).Some? && Parse(durable[i].id).value in covered
    {
      ParseRender(i);
      assert pks[i] in pks;
    }
    LastUncovered(durable, covered, UnionLimit);
    assert durable[UnionLimit] in durable;
  }
}

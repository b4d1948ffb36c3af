/** Searching several splits: each contributes its best hits, dead ones are dropped, and the
    rest are merged into one ranking. */
module Search {
  import opened Bytes
  import opened Splits

  datatype Hit = Hit(score: int, split: nat, segment: nat, doc: nat)

  /** A matching document of one split. */
  datatype Match = Match(score: int, segment: nat, doc: nat, id: Text)

  /** A split to search: its generation, and all its matches in rank order. */
  datatype Handle = Handle(generation: nat, ranked: seq<Match>)

  // ---- The ranking ----

  /** Higher scores first, then by split, segment and document. */
  predicate Before(a: Hit, b: Hit) {
    a.score > b.score
    || (a.score == b.score
        && (a.split < b.split
            || (a.split == b.split && (a.segment < b.segment || (a.segment == b.segment && a.doc < b.doc)))))
  }

  ghost predicate Ranked(hits: seq<Hit>) {
    forall i, j :: 0 <= i < j < |hits| ==> Before(hits[i], hits[j])
  }

  lemma BeforeTotal(a: Hit, b: Hit)
    ensures Before(a, b) || a == b || Before(b, a)
    ensures !(Before(a, b) && Before(b, a)) && !Before(a, a)
  {
  }

  lemma BeforeTransitive(a: Hit, b: Hit, c: Hit)
    requires Before(a, b) && Before(b, c)
    ensures Before(a, c)
  {
  }

  function Insert(sorted: seq<Hit>, h: Hit): seq<Hit>
    decreases |sorted|
  {
    if sorted == [] || !Before(h, sorted[|sorted| - 1]) then sorted + [h]
    else Insert(sorted[..|sorted| - 1], h) + [sorted[|sorted| - 1]]
  }

  function SortHits(hits: seq<Hit>): seq<Hit>
    decreases |hits|
  {
    if hits == [] then [] else Insert(SortHits(hits[..|hits| - 1]), hits[|hits| - 1])
  }

  ghost predicate Distinct(hits: seq<Hit>) {
    forall i, j :: 0 <= i < j < |hits| ==> hits[i] != hits[j]
  }

  lemma {:induction false} InsertKeeps(sorted: seq<Hit>, h: Hit)
    requires Ranked(sorted) && h !in sorted
    ensures Ranked(Insert(sorted, h)) && forall x :: x in Insert(sorted, h) <==> x in sorted || x == h
    decreases |sorted|
  {
    hide Before;
    if sorted != [] {
      var n := |sorted| - 1;
      var last := sorted[n];
      assert sorted == sorted[..n] + [last];
      BeforeTotal(h, last);
      if Before(h, last) {
        InsertKeeps(sorted[..n], h);
        var rest := Insert(sorted[..n], h);
        assert forall i :: 0 <= i < |rest| ==> rest[i] in rest;
      } else {
        forall i | 0 <= i < n
          ensures Before(sorted[i], h)
        {
          BeforeTransitive(sorted[i], last, h);
        }
      }
    }
  }

  lemma {:induction false} SortKeeps(hits: seq<Hit>)
    requires Distinct(hits)
    ensures Ranked(SortHits(hits)) && forall x :: x in SortHits(hits) <==> x in hits
    decreases |hits|
  {
    hide Before, Insert;
    if hits != [] {
      var n := |hits| - 1;
      SortKeeps(hits[..n]);
      assert hits == hits[..n] + [hits[n]];
      InsertKeeps(SortHits(hits[..n]), hits[n]);
    }
  }

  function Take<T>(hits: seq<T>, limit: nat): seq<T> {
    if |hits| <= limit then hits else hits[..limit]
  }

  // ---- When a part has the same top as the whole ----

  /** `x` is the start of a ranking if its members are in it and all others come later. */
  lemma {:induction false} RankPrefix(x: seq<Hit>, all: seq<Hit>)
    requires Ranked(x) && Ranked(all) && forall h :: h in x ==> h in all
    requires forall h :: h in all && h !in x ==> forall i :: 0 <= i < |x| ==> Before(x[i], h)
    ensures x <= all
    decreases |x|
  {
    hide Before;
    if x != [] {
      var n := |x| - 1;
      var y := x[..n];
      assert x == y + [x[n]];
      forall h | h in all && h !in y
        ensures forall i :: 0 <= i < |y| ==> Before(y[i], h)
      {
      }
      RankPrefix(y, all);
      assert x[n] in all;
      var q :| 0 <= q < |all| && all[q] == x[n];
      NotEarlier(x, all, n, q);
      NotLater(x, all, n, q);
    }
  }

  lemma NotEarlier(x: seq<Hit>, all: seq<Hit>, n: nat, q: nat)
    requires Ranked(x) && n < |x| && q < |all| && all[q] == x[n] && x[..n] <= all
    ensures q >= n
  {
    hide Before;
    if q < n {
      BeforeTotal(x[q], x[n]);
    }
  }

  lemma NotLater(x: seq<Hit>, all: seq<Hit>, n: nat, q: nat)
    requires Ranked(x) && Ranked(all) && n < |x| && n <= q < |all| && all[q] == x[n] && x[..n] <= all
    requires forall h :: h in all && h !in x ==> Before(x[n], h)
    ensures q == n
  {
    hide Before;
    if q > n {
      BeforeTotal(all[n], x[n]);
    }
  }

  /** A ranked list without repeats has as many members as elements. */
  lemma {:induction false} RankedSize(s: seq<Hit>)
    requires Ranked(s)
    ensures |Members(s)| == |s|
    decreases |s|
  {
    hide Before;
    if s != [] {
      var n := |s| - 1;
      RankedSize(s[..n]);
      assert s == s[..n] + [s[n]];
      forall i | 0 <= i < n
        ensures s[i] != s[n]
      {
        BeforeTotal(s[i], s[n]);
      }
      assert Members(s) == Members(s[..n]) + {s[n]};
    }
  }

  function Members(s: seq<Hit>): set<Hit> {
    set h | h in s
  }

  /** Anything left out comes after `limit` hits of the part. */
  ghost predicate Outranked(part: seq<Hit>, h: Hit, limit: nat) {
    exists better: seq<Hit> :: Ranked(better) && |better| >= limit
      && forall b :: b in better ==> b in part && Before(b, h)
  }

  /** The first `limit` of the whole ranking are all in the part. */
  lemma TopInPart(all: seq<Hit>, part: seq<Hit>, limit: nat, p: nat)
    requires Ranked(all) && p < limit && p < |all|
    requires forall h :: h in part ==> h in all
    requires forall h :: h in all && h !in part ==> Outranked(part, h, limit)
    ensures all[p] in part
  {
    hide Before;
    if all[p] !in part {
      var better: seq<Hit> :| Ranked(better) && |better| >= limit && forall b :: b in better ==> b in part && Before(b, all[p]);
      forall b | b in better
        ensures b in all[..p]
      {
        var q :| 0 <= q < |all| && all[q] == b;
        BeforeTotal(all[p], b);
      }
      TooMany(better, all[..p]);
    }
  }

  lemma TooMany(better: seq<Hit>, all: seq<Hit>)
    requires Ranked(better) && Ranked(all) && forall b :: b in better ==> b in all
    ensures |better| <= |all|
  {
    RankedSize(better);
    RankedSize(all);
    assert Members(better) <= Members(all);
    SubsetSize(Members(better), Members(all));
  }

  lemma {:induction false} SubsetSize<T>(a: set<T>, b: set<T>)
    requires a <= b
    ensures |a| <= |b|
    decreases a
  {
    if x :| x in a {
      SubsetSize(a - {x}, b - {x});
    }
  }

  lemma SameTop(all: seq<Hit>, part: seq<Hit>, limit: nat)
    requires Ranked(all) && Ranked(part)
    requires forall h :: h in part ==> h in all
    requires forall h :: h in all && h !in part ==> Outranked(part, h, limit)
    ensures Take(part, limit) == Take(all, limit)
  {
    hide Before, Outranked;
    var x := Take(all, limit);
    forall h | h in x
      ensures h in part
    {
      var p :| 0 <= p < |x| && x[p] == h;
      TopInPart(all, part, limit, p);
    }
    forall h | h in part && h !in x
      ensures forall i :: 0 <= i < |x| ==> Before(x[i], h)
    {
      var q :| 0 <= q < |all| && all[q] == h;
      assert q >= |x|;
    }
    RankPrefix(x, part);
    if |all| <= limit {
      TooMany(part, all);
    }
  }

  // ---- One split ----

  function HitOf(split: nat, m: Match): Hit {
    Hit(m.score, split, m.segment, m.doc)
  }

  function HitsOf(split: nat, ms: seq<Match>): (hits: seq<Hit>)
    ensures |hits| == |ms| && forall i :: 0 <= i < |ms| ==> hits[i] == HitOf(split, ms[i])
  {
    seq(|ms|, i requires 0 <= i < |ms| => HitOf(split, ms[i]))
  }

  /** A split returns its matches by rank, and has each id once. */
  ghost predicate WellRanked(h: Handle) {
    && Ranked(HitsOf(0, h.ranked))
    && (forall i, j :: 0 <= i < j < |h.ranked| ==> h.ranked[i].id != h.ranked[j].id)
  }

  /** The collector of one split: its best `n` matches. */
  function TopDocs(h: Handle, n: nat): seq<Match> {
    if |h.ranked| <= n then h.ranked else h.ranked[..n]
  }

  function LiveMatches(ms: seq<Match>, tombs: Tombstones, generation: nat): seq<Match>
    decreases |ms|
  {
    if ms == [] then []
    else
      var n := |ms| - 1;
      if IsDeletedAt(tombs, ms[n].id, generation) then LiveMatches(ms[..n], tombs, generation)
      else LiveMatches(ms[..n], tombs, generation) + [ms[n]]
  }

  lemma {:induction false} InLive(ms: seq<Match>, tombs: Tombstones, g: nat, m: Match)
    ensures m in LiveMatches(ms, tombs, g) <==> m in ms && !IsDeletedAt(tombs, m.id, g)
    decreases |ms|
  {
    hide IsDeletedAt;
    if ms != [] {
      var n := |ms| - 1;
      InLive(ms[..n], tombs, g, m);
      assert ms == ms[..n] + [ms[n]];
    }
  }

  ghost predicate DistinctMatches(ms: seq<Match>) {
    forall i, j :: 0 <= i < j < |ms| ==> ms[i].id != ms[j].id
  }

  lemma {:induction false} LivePrefix(ms: seq<Match>, n: nat, tombs: Tombstones, g: nat)
    requires n <= |ms|
    ensures LiveMatches(ms[..n], tombs, g) <= LiveMatches(ms, tombs, g)
    decreases |ms|
  {
    if n < |ms| {
      var m := |ms| - 1;
      assert ms[..m][..n] == ms[..n];
      LivePrefix(ms[..m], n, tombs, g);
    } else {
      assert ms[..n] == ms;
    }
  }

  function DeadMatchIds(ms: seq<Match>, tombs: Tombstones, g: nat): set<Text> {
    set m | m in ms && IsDeletedAt(tombs, m.id, g) :: m.id
  }

  /** Each dead match has its own tombstone. */
  lemma {:induction false} LiveEnough(ms: seq<Match>, tombs: Tombstones, g: nat)
    requires forall i, j :: 0 <= i < j < |ms| ==> ms[i].id != ms[j].id
    ensures |LiveMatches(ms, tombs, g)| + |DeadMatchIds(ms, tombs, g)| == |ms|
    decreases |ms|
  {
    hide IsDeletedAt;
    if ms != [] {
      var n := |ms| - 1;
      LiveEnough(ms[..n], tombs, g);
      assert ms == ms[..n] + [ms[n]];
      var before := DeadMatchIds(ms[..n], tombs, g);
      assert ms[n].id !in before;
      if IsDeletedAt(tombs, ms[n].id, g) {
        assert DeadMatchIds(ms, tombs, g) == before + {ms[n].id};
      } else {
        assert DeadMatchIds(ms, tombs, g) == before;
      }
    }
  }

  /** Fetching as many more as there are tombstones leaves enough live ones. */
  lemma OverFetch(h: Handle, tombs: Tombstones, limit: nat)
    requires WellRanked(h)
    ensures var cut := LiveMatches(TopDocs(h, limit + |tombs|), tombs, h.generation);
            var full := LiveMatches(h.ranked, tombs, h.generation);
            cut <= full && (cut == full || |cut| >= limit)
  {
    hide Before;
    var n := limit + |tombs|;
    if |h.ranked| > n {
      LivePrefix(h.ranked, n, tombs, h.generation);
      var fetched := h.ranked[..n];
      LiveEnough(fetched, tombs, h.generation);
      assert DeadMatchIds(fetched, tombs, h.generation) <= tombs.Keys;
      SubsetSize(DeadMatchIds(fetched, tombs, h.generation), tombs.Keys);
      assert |tombs| == |tombs.Keys|;
    }
  }
}

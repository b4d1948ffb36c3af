/** Reading ranges of a chain's entries off the ordered byte keys. */
module EntryScan {
  import opened Adjacency
  import opened Bytes
  import C = Chain
  import opened Keys
  import M = Merkle
  import opened Outcomes
  import opened Store

  const MaxPage := 1000
  const UsizeMax := 0xffff_ffff_ffff_ffff

  function EntryPrefix(tenant: Text, chain: Text): Text {
    Lp(tenant) + ([EntryTag] + Lp(chain))
  }

  lemma EntryBytes(tenant: Text, chain: Text, s: I64)
    requires Short(chain)
    ensures Encode(tenant, EntryKey(chain, s)) == EntryPrefix(tenant, chain) + Be(AsU64(s), 8)
  {
    hide Lp, Be;
    Regroup(Lp(tenant), EntryTag, Lp(chain), Be(AsU64(s), 8));
  }

  // ---- The scan ----

  /** The seq in the last eight bytes of a key, and the record. */
  function DecodeEntry(m: Flat, key: Text): Option<(I64, EntryRecord)> {
    if |key| < 8 || key !in m || !m[key].EntryValue? then None
    else
      TailFits(key);
      Some((AsI64(FromBe(key[|key| - 8..])), m[key].entry))
  }

  lemma TailFits(key: Text)
    requires |key| >= 8
    ensures FromBe(key[|key| - 8..]) < 2 * SignBit
  {
    Pow256Values();
    FromBeBound(key[|key| - 8..]);
  }

  ghost predicate IsDecoded(m: Flat, keys: seq<Text>, out: seq<(I64, EntryRecord)>) {
    |out| == |keys| && forall i :: 0 <= i < |out| ==> DecodeEntry(m, keys[i]) == Some(out[i])
  }

  function Capped(n: nat, cap: nat): nat {
    if n <= cap then n else cap
  }

  /** The first `cap` keys, decoded; none if one of them does not decode. */
  ghost predicate IsCapped(m: Flat, keys: seq<Text>, cap: nat, r: Option<seq<(I64, EntryRecord)>>) {
    var n := Capped(|keys|, cap);
    && (r.Some? <==> forall i :: 0 <= i < n ==> DecodeEntry(m, keys[i]).Some?)
    && (r.Some? ==> IsDecoded(m, keys[..n], r.value))
  }

  /** At most `cap` entries; a record that does not decode ends the scan with an error. */
  method ScanEntries(m: Flat, start: Text, end: Text, cap: nat) returns (r: Option<seq<(I64, EntryRecord)>>)
    ensures IsCapped(m, ScanKeys(m, start, end), cap, r)
  {
    hide IsScan, DecodeEntry, ScanKeys;
    var keys := ScanRange(m, start, end);
    var out: seq<(I64, EntryRecord)> := [];
    while |out| < cap && |out| < |keys|
      invariant |out| <= cap && |out| <= |keys| && IsDecoded(m, keys[..|out|], out)
      decreases |keys| - |out|
    {
      var e := DecodeEntry(m, keys[|out|]);
      if e == None {
        return None;
      }
      out := out + [e.value];
    }
    assert forall i :: 0 <= i < |out| ==> keys[..|out|][i] == keys[i];
    r := Some(out);
  }

  // ---- What it yields ----

  /** Bounds on seqs read as unsigned numbers, the way their bytes compare. */
  ghost predicate Selected(st: State, chain: Text, lo: nat, hi: nat, s: I64) {
    (chain, s) in st.entries && lo <= AsU64(s) < hi
  }

  ghost predicate IsPage(st: State, chain: Text, lo: nat, hi: nat, cap: nat, out: seq<(I64, EntryRecord)>) {
    && |out| <= cap
    && (forall i, j :: 0 <= i < j < |out| ==> AsU64(out[i].0) < AsU64(out[j].0))
    && (forall i :: 0 <= i < |out| ==> Selected(st, chain, lo, hi, out[i].0) && st.entries[(chain, out[i].0)] == out[i].1)
    && (forall s: I64 :: Selected(st, chain, lo, hi, s) ==> InPage(out, s, cap))
  }

  /** In the page, or past the end of a full one. */
  ghost predicate InPage(out: seq<(I64, EntryRecord)>, s: I64, cap: nat) {
    (exists i :: 0 <= i < |out| && out[i].0 == s) || (|out| == cap && forall i :: 0 <= i < |out| ==> AsU64(out[i].0) < AsU64(s))
  }

  /** A key under the prefix of the chain is the key of one of its entries. */
  lemma EntryUnderPrefix(m: Flat, tenant: Text, st: State, chain: Text, b: Text) returns (s: I64)
    requires Short(tenant) && Short(chain) && Holds(m, tenant, st) && b in m && EntryPrefix(tenant, chain) <= b
    ensures b == EntryPrefix(tenant, chain) + Be(AsU64(s), 8) && (chain, s) in st.entries
    ensures DecodeEntry(m, b) == Some((s, st.entries[(chain, s)]))
  {
    hide Lp, Encode, WellKeyed, Be, DecodeEntry;
    var k := KeyUnderTag(m, tenant, st, EntryTag, Lp(chain), b);
    s := k.seqNo;
    EntryBytes(tenant, k.chain, s);
    var rest := b[|EntryPrefix(tenant, chain)|..];
    assert b == EntryPrefix(tenant, chain) + rest;
    Regroup(Lp(tenant), EntryTag, Lp(chain), rest);
    Regroup(Lp(tenant), EntryTag, Lp(k.chain), Be(AsU64(s), 8));
    FixedPrefix(Lp(tenant), [EntryTag] + (Lp(chain) + rest), Lp(tenant), [EntryTag] + (Lp(k.chain) + Be(AsU64(s), 8)));
    FixedPrefix([EntryTag], Lp(chain) + rest, [EntryTag], Lp(k.chain) + Be(AsU64(s), 8));
    LpPrefixFree(chain, rest, k.chain, Be(AsU64(s), 8));
    assert Get(m, Encode(tenant, EntryKey(chain, s))) == Lookup(st, EntryKey(chain, s));
    DecodeKey(m, EntryPrefix(tenant, chain), s);
  }

  lemma DecodeKey(m: Flat, prefix: Text, s: I64)
    requires prefix + Be(AsU64(s), 8) in m && m[prefix + Be(AsU64(s), 8)].EntryValue?
    ensures DecodeEntry(m, prefix + Be(AsU64(s), 8)) == Some((s, m[prefix + Be(AsU64(s), 8)].entry))
  {
    hide Be, FromBe;
    Pow256Values();
    var key := prefix + Be(AsU64(s), 8);
    assert key[|key| - 8..] == Be(AsU64(s), 8);
    BeRoundTrip(AsU64(s), 8);
  }

  /** An end bound: the key of a seq, or the bound of the whole prefix. */
  ghost predicate IsEnd(prefix: Text, end: Text, hi: nat) {
    (hi < 2 * SignBit && end == prefix + Be(hi, 8)) || (hi == 2 * SignBit && end == PrefixUpperBound(prefix))
  }

  lemma EntryInRange(prefix: Text, lo: nat, end: Text, hi: nat, b: Text)
    requires lo < 2 * SignBit && IsEnd(prefix, end, hi) && InRange(b, prefix + Be(lo, 8), end)
    ensures prefix <= b
  {
    hide Be, PrefixUpperBound;
    if hi < 2 * SignBit {
      Between(prefix, Be(lo, 8), Be(hi, 8), b);
    } else {
      ShorterAtMost(prefix, Be(lo, 8), b);
      RangeIsPrefix(b, prefix);
    }
  }

  lemma KeyInRange(prefix: Text, lo: nat, end: Text, hi: nat, u: nat)
    requires lo < 2 * SignBit && u < 2 * SignBit && IsEnd(prefix, end, hi)
    ensures InRange(prefix + Be(u, 8), prefix + Be(lo, 8), end) <==> lo <= u < hi
  {
    hide Be, PrefixUpperBound, Less;
    Pow256Values();
    var b := prefix + Be(u, 8);
    LessAfterPrefix(prefix, Be(lo, 8), Be(u, 8));
    BeOrder(lo, u, 8);
    if prefix + Be(lo, 8) == b {
      FixedPrefix(prefix, Be(lo, 8), prefix, Be(u, 8));
      BeInjective(lo, u, 8);
    }
    if hi < 2 * SignBit {
      LessAfterPrefix(prefix, Be(u, 8), Be(hi, 8));
      BeOrder(u, hi, 8);
      assert end != [];
    } else {
      PrefixAtMost(prefix, b);
      RangeIsPrefix(b, prefix);
    }
  }

  /** The seqs behind the keys of a scan. */
  lemma ScanPage(m: Flat, tenant: Text, st: State, chain: Text, lo: nat, hi: nat, end: Text, cap: nat,
                 r: Option<seq<(I64, EntryRecord)>>)
    requires Short(tenant) && Short(chain) && Holds(m, tenant, st)
    requires lo < 2 * SignBit && IsEnd(EntryPrefix(tenant, chain), end, hi)
    requires IsCapped(m, ScanKeys(m, EntryPrefix(tenant, chain) + Be(lo, 8), end), cap, r)
    ensures r.Some? && IsPage(st, chain, lo, hi, cap, r.value)
  {
    hide Be, Holds, EntryPrefix, IsEnd, InRange, DecodeEntry, Less, ScanKeys;
    var prefix := EntryPrefix(tenant, chain);
    var keys := ScanKeys(m, prefix + Be(lo, 8), end);
    forall i | 0 <= i < |keys|
      ensures DecodeEntry(m, keys[i]).Some? && EntryAt(m, st, chain, prefix, lo, hi, keys[i])
    {
      assert keys[i] in keys;
      EntryInRange(prefix, lo, end, hi, keys[i]);
      var s := EntryUnderPrefix(m, tenant, st, chain, keys[i]);
      KeyInRange(prefix, lo, end, hi, AsU64(s));
    }
    var out := r.value;
    forall i, j | 0 <= i < j < |out|
      ensures AsU64(out[i].0) < AsU64(out[j].0)
    {
      PageOrder(m, st, chain, prefix, lo, hi, keys[i], keys[j]);
    }
    forall s: I64 | Selected(st, chain, lo, hi, s)
      ensures InPage(out, s, cap)
    {
      var b := prefix + Be(AsU64(s), 8);
      StoredEntry(m, tenant, st, chain, s);
      KeyInRange(prefix, lo, end, hi, AsU64(s));
      assert b in keys;
      var q :| 0 <= q < |keys| && keys[q] == b;
      DecodeKey(m, prefix, s);
      if q >= |out| {
        forall i | 0 <= i < |out|
          ensures AsU64(out[i].0) < AsU64(s)
        {
          PageOrder(m, st, chain, prefix, lo, hi, keys[i], keys[q]);
        }
      }
    }
  }

  ghost predicate EntryAt(m: Flat, st: State, chain: Text, prefix: Text, lo: nat, hi: nat, key: Text) {
    exists s: I64 :: key == prefix + Be(AsU64(s), 8) && Selected(st, chain, lo, hi, s)
      && DecodeEntry(m, key) == Some((s, st.entries[(chain, s)]))
  }

  lemma PageOrder(m: Flat, st: State, chain: Text, prefix: Text, lo: nat, hi: nat, a: Text, b: Text)
    requires EntryAt(m, st, chain, prefix, lo, hi, a) && EntryAt(m, st, chain, prefix, lo, hi, b) && Less(a, b)
    ensures AsU64(DecodeEntry(m, a).value.0) < AsU64(DecodeEntry(m, b).value.0)
  {
    hide Be, DecodeEntry, Less;
    Pow256Values();
    var s: I64 :| a == prefix + Be(AsU64(s), 8) && Selected(st, chain, lo, hi, s) && DecodeEntry(m, a) == Some((s, st.entries[(chain, s)]));
    var t: I64 :| b == prefix + Be(AsU64(t), 8) && Selected(st, chain, lo, hi, t) && DecodeEntry(m, b) == Some((t, st.entries[(chain, t)]));
    LessAfterPrefix(prefix, Be(AsU64(s), 8), Be(AsU64(t), 8));
    BeOrder(AsU64(s), AsU64(t), 8);
  }

  lemma StoredEntry(m: Flat, tenant: Text, st: State, chain: Text, s: I64)
    requires Short(chain) && Holds(m, tenant, st) && (chain, s) in st.entries
    ensures var b := EntryPrefix(tenant, chain) + Be(AsU64(s), 8);
            b in m && m[b] == EntryValue(st.entries[(chain, s)])
  {
    hide Encode, WellKeyed, EntryPrefix, Be;
    EntryBytes(tenant, chain, s);
    assert Fits(EntryKey(chain, s));
    assert Get(m, Encode(tenant, EntryKey(chain, s))) == Lookup(st, EntryKey(chain, s));
  }

  // ---- The reads ----

  /** The seqs from `lo` to `hi`, both included. */
  method ReadRange(m: Flat, tenant: Text, chain: Text, lo: I64, hi: I64, ghost st: State)
    returns (r: Option<seq<(I64, EntryRecord)>>)
    requires Short(tenant) && Short(chain) && Holds(m, tenant, st)
    ensures r.Some? && IsPage(st, chain, AsU64(lo), RangeEnd(lo, hi), UsizeMax, r.value)
  {
    hide Holds, EntryPrefix, Be, IsScan, DecodeEntry, IsCapped, PrefixUpperBound, ScanKeys;
    if hi < lo {
      return Some([]);
    }
    var prefix := EntryPrefix(tenant, chain);
    var start := prefix + Be(AsU64(lo), 8);
    var end;
    if hi < MaxI64 {
      end := prefix + Be(AsU64(hi + 1), 8);
    } else {
      end := ComputePrefixUpperBound(prefix);
    }
    r := ScanEntries(m, start, end, UsizeMax);
    ScanPage(m, tenant, st, chain, AsU64(lo), RangeEnd(lo, hi), end, UsizeMax, r);
  }

  /** Where the scan of a range ends. */
  function RangeEnd(lo: I64, hi: I64): nat {
    if hi < lo then 0 else if hi < MaxI64 then AsU64(hi + 1) else 2 * SignBit
  }

  /** The seqs after `after`, a page at a time. */
  method ReadFrom(m: Flat, tenant: Text, chain: Text, after: I64, limit: Option<nat>, ghost st: State)
    returns (r: Option<seq<(I64, EntryRecord)>>)
    requires Short(tenant) && Short(chain) && Holds(m, tenant, st)
    ensures r.Some? && IsPage(st, chain, AsU64(NextSeq(after)), 2 * SignBit, PageCap(limit), r.value)
  {
    hide Holds, EntryPrefix, Be, IsScan, DecodeEntry, IsCapped, PrefixUpperBound, ScanKeys;
    var prefix := EntryPrefix(tenant, chain);
    var start := prefix + Be(AsU64(NextSeq(after)), 8);
    var end := ComputePrefixUpperBound(prefix);
    r := ScanEntries(m, start, end, PageCap(limit));
    ScanPage(m, tenant, st, chain, AsU64(NextSeq(after)), 2 * SignBit, end, PageCap(limit), r);
  }

  /** `after + 1`, saturating. */
  function NextSeq(after: I64): I64 {
    if after == MaxI64 then MaxI64 else after + 1
  }

  /** The smaller of the limit, if there is one, and a thousand. */
  function PageCap(limit: Option<nat>): (cap: nat)
    ensures cap <= 1000 && (limit.Some? ==> cap <= limit.value)
    ensures cap == 1000 || limit == Some(cap)
  {
    match limit
    case None => MaxPage
    case Some(n) => if n < MaxPage then n else MaxPage
  }

  // ---- Pages of a chain ----

  /** Seqs of a chain start at 1. */
  ghost predicate PositiveSeqs(st: State, chain: Text) {
    forall q :: (chain, q) in st.entries ==> q >= 1
  }

  lemma SoundIsPositive(h: M.Hasher, st: State, chain: Text)
    requires C.Sound(h, st)
    ensures PositiveSeqs(st, chain)
  {
    hide C.NodesExact, C.NoNodes, C.LeavesOf;
    assert C.ChainOk(h, st, chain);
  }

  /** A page of positive seqs is ascending in seqs as well as in bytes. */
  lemma {:induction false} PageSeqs(st: State, chain: Text, lo: nat, hi: nat, cap: nat, out: seq<(I64, EntryRecord)>, i: nat)
    requires IsPage(st, chain, lo, hi, cap, out) && i < |out| && PositiveSeqs(st, chain)
    ensures out[i].0 >= i + 1
    decreases i
  {
    if i > 0 {
      PageSeqs(st, chain, lo, hi, cap, out, i - 1);
      assert AsU64(out[i - 1].0) < AsU64(out[i].0);
    }
  }

  lemma PageAscends(st: State, chain: Text, lo: nat, hi: nat, cap: nat, out: seq<(I64, EntryRecord)>)
    requires IsPage(st, chain, lo, hi, cap, out) && PositiveSeqs(st, chain)
    ensures Ascends(out)
  {
    hide AsU64;
    forall i, j | 0 <= i < j < |out|
      ensures out[i].0 < out[j].0
    {
      PageSeqs(st, chain, lo, hi, cap, out, i);
      PageSeqs(st, chain, lo, hi, cap, out, j);
      Positive(out[i].0, out[j].0);
    }
  }

  ghost predicate Ascends(out: seq<(I64, EntryRecord)>) {
    forall i, j :: 0 <= i < j < |out| ==> out[i].0 < out[j].0
  }

  /** What a read of the seqs from `lo` to `hi` promises: exactly those, ascending. */
  ghost predicate IsRange(st: State, chain: Text, lo: I64, hi: I64, out: seq<(I64, EntryRecord)>) {
    && Ascends(out)
    && (forall i :: 0 <= i < |out| ==> (chain, out[i].0) in st.entries && st.entries[(chain, out[i].0)] == out[i].1)
    && (forall s: I64 :: Listed(out, s) <==> (chain, s) in st.entries && lo <= s <= hi)
  }

  ghost predicate Listed(out: seq<(I64, EntryRecord)>, s: I64) {
    exists i :: 0 <= i < |out| && out[i].0 == s
  }

  lemma RangeSelects(st: State, chain: Text, lo: I64, hi: I64, s: I64)
    requires PositiveSeqs(st, chain)
    ensures lo >= 0 ==> (Selected(st, chain, AsU64(lo), RangeEnd(lo, hi), s) <==> (chain, s) in st.entries && lo <= s <= hi)
    ensures lo < 0 ==> !Selected(st, chain, AsU64(lo), RangeEnd(lo, hi), s)
  {
  }

  /** A range read of a chain returns nothing for a negative `lo`, whatever is there, since
      such a bound sorts past every seq; so it keeps its promise exactly if `lo` is not negative
      or no entry has a seq up to `hi`. */
  lemma RangeIsExact(st: State, chain: Text, lo: I64, hi: I64, out: seq<(I64, EntryRecord)>)
    requires PositiveSeqs(st, chain) && IsPage(st, chain, AsU64(lo), RangeEnd(lo, hi), UsizeMax, out)
    ensures lo < 0 ==> out == []
    ensures IsRange(st, chain, lo, hi, out) <==> lo >= 0 || forall s: I64 :: (chain, s) in st.entries ==> s > hi
  {
    hide AsU64;
    PageAscends(st, chain, AsU64(lo), RangeEnd(lo, hi), UsizeMax, out);
    if out != [] {
      PageSeqs(st, chain, AsU64(lo), RangeEnd(lo, hi), UsizeMax, out, |out| - 1);
      RangeSelects(st, chain, lo, hi, out[0].0);
    }
    if lo >= 0 {
      forall s: I64
        ensures Listed(out, s) <==> (chain, s) in st.entries && lo <= s <= hi
      {
        RangeSelects(st, chain, lo, hi, s);
      }
    }
  }

  /** What a read after `after` promises: the first `cap` of the later seqs, ascending. */
  ghost predicate IsNext(st: State, chain: Text, after: I64, cap: nat, out: seq<(I64, EntryRecord)>) {
    && |out| <= cap && Ascends(out)
    && (forall i :: 0 <= i < |out| ==>
          (chain, out[i].0) in st.entries && st.entries[(chain, out[i].0)] == out[i].1 && out[i].0 > after)
    && (forall s: I64 :: (chain, s) in st.entries && s > after ==>
          Listed(out, s) || (|out| == cap && forall i :: 0 <= i < |out| ==> out[i].0 < s))
  }

  lemma FromSelects(st: State, chain: Text, after: I64, s: I64)
    requires PositiveSeqs(st, chain)
    ensures -1 <= after < MaxI64 ==>
      (Selected(st, chain, AsU64(NextSeq(after)), 2 * SignBit, s) <==> (chain, s) in st.entries && s > after)
    ensures after == MaxI64 ==> (Selected(st, chain, AsU64(NextSeq(after)), 2 * SignBit, s) <==> (chain, s) in st.entries && s == MaxI64)
    ensures after < -1 ==> !Selected(st, chain, AsU64(NextSeq(after)), 2 * SignBit, s)
  {
  }

  /** A page read after `after`: nothing when `after` is below -1; the entry of the largest seq
      there is, again, when `after` is that seq; the first later entries otherwise. So it keeps
      its promise exactly if there is no entry to miss or to repeat. */
  lemma FromIsExact(st: State, chain: Text, after: I64, cap: nat, out: seq<(I64, EntryRecord)>)
    requires PositiveSeqs(st, chain) && IsPage(st, chain, AsU64(NextSeq(after)), 2 * SignBit, cap, out)
    ensures after < -1 ==> out == []
    ensures after == MaxI64 ==> out == if cap > 0 && (chain, MaxI64) in st.entries then [(MaxI64, st.entries[(chain, MaxI64)])] else []
    ensures IsNext(st, chain, after, cap, out) <==>
      || cap == 0
      || -1 <= after < MaxI64
      || (after == MaxI64 && (chain, MaxI64) !in st.entries)
      || (after < -1 && forall s: I64 :: (chain, s) !in st.entries)
  {
    hide AsU64;
    PageAscends(st, chain, AsU64(NextSeq(after)), 2 * SignBit, cap, out);
    forall s: I64
      ensures Selected(st, chain, AsU64(NextSeq(after)), 2 * SignBit, s) <==>
              (chain, s) in st.entries && (if after < -1 then false else if after == MaxI64 then s == MaxI64 else s > after)
    {
      FromSelects(st, chain, after, s);
    }
    if after == MaxI64 {
      LastAgain(st, chain, cap, out);
      if out != [] {
        assert !(out[0].0 > after);
      }
    } else if after >= -1 {
      NextPage(st, chain, after, cap, out);
    } else {
      assert out != [] ==> Selected(st, chain, AsU64(NextSeq(after)), 2 * SignBit, out[0].0);
      assert IsNext(st, chain, after, cap, []) <==> cap == 0 || forall s: I64 :: (chain, s) !in st.entries;
    }
  }

  lemma LastAgain(st: State, chain: Text, cap: nat, out: seq<(I64, EntryRecord)>)
    requires PositiveSeqs(st, chain) && IsPage(st, chain, AsU64(MaxI64), 2 * SignBit, cap, out) && Ascends(out)
    requires forall s: I64 :: Selected(st, chain, AsU64(MaxI64), 2 * SignBit, s) <==> (chain, s) in st.entries && s == MaxI64
    ensures out == if cap > 0 && (chain, MaxI64) in st.entries then [(MaxI64, st.entries[(chain, MaxI64)])] else []
  {
    hide AsU64;
    assert |out| >= 2 ==> out[0].0 < out[1].0;
    assert out != [] ==> Selected(st, chain, AsU64(MaxI64), 2 * SignBit, out[0].0);
    if cap > 0 && (chain, MaxI64) in st.entries {
      assert InPage(out, MaxI64, cap);
      assert out == [out[0]];
    }
  }

  lemma NextPage(st: State, chain: Text, after: I64, cap: nat, out: seq<(I64, EntryRecord)>)
    requires PositiveSeqs(st, chain) && IsPage(st, chain, AsU64(NextSeq(after)), 2 * SignBit, cap, out) && Ascends(out)
    requires forall s: I64 :: Selected(st, chain, AsU64(NextSeq(after)), 2 * SignBit, s) <==> (chain, s) in st.entries && s > after
    ensures IsNext(st, chain, after, cap, out)
  {
    hide AsU64;
    forall s: I64 | (chain, s) in st.entries && s > after
      ensures Listed(out, s) || (|out| == cap && forall i :: 0 <= i < |out| ==> out[i].0 < s)
    {
      assert InPage(out, s, cap);
      if !Listed(out, s) {
        forall i | 0 <= i < |out|
          ensures out[i].0 < s
        {
          PageSeqs(st, chain, AsU64(NextSeq(after)), 2 * SignBit, cap, out, i);
          Positive(out[i].0, s);
        }
      }
    }
  }

  lemma Positive(a: I64, b: I64)
    requires a >= 0 && b >= 0 && AsU64(a) < AsU64(b)
    ensures a < b
  {
  }
}

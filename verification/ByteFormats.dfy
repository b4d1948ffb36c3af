/** Every byte format at one small record each, byte by byte. */
module ByteFormats {
  import opened Bytes
  import opened Store
  import opened Chain
  import opened Decimal
  import opened Framing
  import opened Keys
  import opened Merkle
  import opened SplitNames
  import opened Splits
  import opened TamperEvidence

  // Names of one letter: a tenant, a chain, and what an edge is made of.
  const T: Text := [116]
  const C: Text := [99]
  const G: Text := [103]
  const S: Text := [115]
  const D: Text := [100]
  const E: Text := [101]

  lemma {:induction false} BeSmall(n: nat, width: nat)
    requires n < 256 && width >= 1
    ensures Be(n, width) == seq(width - 1, _ => 0) + [n]
    decreases width
  {
    if width > 1 {
      BeSmall(0, width - 1);
      assert n / 256 == 0 && n % 256 == n;
      assert seq(width - 2, _ => 0) + [0] == seq(width - 1, _ => 0);
    } else {
      assert Be(n, 1) == Be(n / 256, 0) + [n % 256];
    }
  }

  lemma Four(n: nat)
    requires n < 256
    ensures Be(n, 4) == [0, 0, 0, n]
  {
    BeSmall(n, 4);
  }

  lemma Eight(n: nat)
    requires n < 256
    ensures Be(n, 8) == [0, 0, 0, 0, 0, 0, 0, n]
  {
    BeSmall(n, 8);
  }

  lemma LpOne(b: Byte)
    ensures Lp([b]) == [0, 0, 0, 1, b]
  {
    hide Be;
    Four(1);
  }

  /** Chain records: the tenant, a tag, the chain, and what is left. */
  lemma ChainKeyFormats()
    ensures var head: Text, c: Text := [0, 0, 0, 1, 116], [0, 0, 0, 1, 99];
      && Encode(T, EntryKey(C, 5)) == head + [0x17] + c + [0, 0, 0, 0, 0, 0, 0, 5]
      && Encode(T, SeqKey(C)) == head + [0x18] + c
      && Encode(T, IdemKey(C, [107])) == head + [0x19] + c + [107]
  {
    hide Be, Lp;
    LpOne(116);
    LpOne(99);
    Eight(5);
    assert AsU64(5) == 5;
  }

  lemma TreeKeyFormats()
    ensures var head: Text, c: Text := [0, 0, 0, 1, 116], [0, 0, 0, 1, 99];
      && Encode(T, FrontierKey(C)) == head + [0x1A] + c
      && Encode(T, MetaKey(C)) == head + [0x1B] + c
      && Encode(T, NodeKey(C, 3, 7)) == head + [0x1F] + c + [3] + [0, 0, 0, 0, 0, 0, 0, 7]
  {
    hide Be, Lp;
    LpOne(116);
    LpOne(99);
    Eight(7);
  }

  lemma {:induction false} BeTop(top: nat, n: nat, width: nat)
    requires top < 256 && n < Pow256(width)
    ensures Be(top * Pow256(width) + n, width + 1) == [top] + Be(n, width)
    decreases width
  {
    if width == 0 {
      BeSmall(top, 1);
    } else {
      var m := top * Pow256(width) + n;
      TopDigits(top, n, Pow256(width - 1));
      BeTop(top, n / 256, width - 1);
      assert Be(m, width + 1) == Be(m / 256, width) + [m % 256];
    }
  }

  lemma TopDigits(top: nat, n: nat, p: nat)
    requires n < 256 * p
    ensures (top * (256 * p) + n) / 256 == top * p + n / 256
    ensures (top * (256 * p) + n) % 256 == n % 256 && n / 256 < p
  {
    assert top * (256 * p) == 256 * (top * p);
  }

  lemma WeightFive()
    ensures WeightObe(5) == [0x80, 0, 0, 0, 0, 0, 0, 5] && WeightObe(-1) == [0x7f, 255, 255, 255, 255, 255, 255, 255]
  {
    hide Be;
    Pow256Values();
    SevenBytes();
    BeTop(0x80, 5, 7);
    BeSmall(5, 7);
    assert FlipSign(AsU64(5)) == 0x80 * Pow256(7) + 5;
    BeTop(0x7f, Pow256(7) - 1, 7);
    AllOnes(7);
    assert FlipSign(AsU64(-1)) == 0x7f * Pow256(7) + (Pow256(7) - 1);
    assert seq(7, _ => 255) == [255, 255, 255, 255, 255, 255, 255];
  }

  lemma SevenBytes()
    ensures 256 * Pow256(7) == Pow256(8)
  {
  }

  lemma {:induction false} AllOnes(width: nat)
    ensures Pow256(width) >= 1 && Be(Pow256(width) - 1, width) == seq(width, _ => 255)
    decreases width
  {
    if width > 0 {
      AllOnes(width - 1);
      var m := Pow256(width) - 1;
      assert m / 256 == Pow256(width - 1) - 1 && m % 256 == 255;
      assert seq(width - 1, _ => 255) + [255] == seq(width, _ => 255);
    }
  }

  /** Graph records: the identity, or an end, the weight with its sign flipped, and the rest. */
  lemma GraphKeyFormats()
    ensures var head: Text := [0, 0, 0, 1, 116];
      var g: Text, s: Text, d: Text, e: Text := [0, 0, 0, 1, 103], [0, 0, 0, 1, 115], [0, 0, 0, 1, 100], [0, 0, 0, 1, 101];
      var id := EdgeId(G, S, D, E);
      && Encode(T, EdgeKey(id)) == head + [0x1C] + g + s + d + e
      && Encode(T, OutKey(Weighted(id, 5))) == head + [0x1D] + g + s + [0x80, 0, 0, 0, 0, 0, 0, 5] + d + e
      && Encode(T, InKey(Weighted(id, -1))) == head + [0x1E] + g + d + [0x7f, 255, 255, 255, 255, 255, 255, 255] + s + e
  {
    hide Lp, WeightObe;
    LpOne(116);
    LpOne(103);
    LpOne(115);
    LpOne(100);
    LpOne(101);
    WeightFive();
  }

  lemma FieldOne(b: Byte)
    ensures Field([b]) == [0, 0, 0, 0, 0, 0, 0, 1, b]
  {
    hide Be;
    Eight(1);
  }

  lemma MinusOne()
    ensures Be(AsU64(-1), 8) == seq(8, _ => 255)
  {
    Pow256Values();
    AllOnes(8);
  }

  /** An edge: four fields, the weight, and a byte for its operation. */
  lemma EdgeFormat(op: EdgeOp)
    ensures EdgeBytes(EdgeDelta(EdgeId(G, S, D, E), -1, op))
         == [0, 0, 0, 0, 0, 0, 0, 1, 103] + [0, 0, 0, 0, 0, 0, 0, 1, 115] + [0, 0, 0, 0, 0, 0, 0, 1, 100]
            + [0, 0, 0, 0, 0, 0, 0, 1, 101] + [255, 255, 255, 255, 255, 255, 255, 255]
            + [match op case Upsert(Set) => 0 case Upsert(Max) => 1 case Delete => 2]
  {
    hide Field, Be;
    FieldOne(103);
    FieldOne(115);
    FieldOne(100);
    FieldOne(101);
    MinusOne();
    assert seq(8, _ => 255) == [255, 255, 255, 255, 255, 255, 255, 255];
  }

  /** What is hashed: a leaf and a fingerprint of one entry, and a node. */
  lemma HashFormats(left: Digest, right: Digest)
    ensures var entry: Text := [0, 0, 0, 0, 0, 0, 0, 1, 116] + [0, 0, 0, 0, 0, 0, 0, 1, 99] + [0, 0, 0, 0, 0, 0, 0, 1, 100]
                               + [0, 0, 0, 0, 0, 0, 0, 0];
      && LeafBytes(EntryInput(T, C, D, [])) == [0] + entry
      && FingerprintBytes([EntryInput(T, C, D, [])]) == [0, 0, 0, 0, 0, 0, 0, 1] + entry
      && NodeBytes(left, right) == [1] + left.bytes + right.bytes
  {
    hide Field, Be;
    FieldOne(116);
    FieldOne(99);
    FieldOne(100);
    Eight(0);
    Eight(1);
    var e := EntryInput(T, C, D, []);
    assert SortEdges([]) == [] && e.(edges := []) == e;
    assert [e][1..] == [] && EntryListBytes([e]) == EntryBytes(e) + EntryListBytes([]);
    assert EntryBytes(e) + [] == EntryBytes(e);
    assert FingerprintBytes([e]) == Be(1, 8) + EntryBytes(e);
    assert EntryBytes(e) == Field(T) + (Field(C) + (Field(D) + (Be(0, 8) + [])));
    assert [1] + (left.bytes + right.bytes) == [1] + left.bytes + right.bytes;
  }

  /** Decimal numbers, as ASCII. */
  lemma NumberFormats()
    ensures Render(0) == [48] && Render(109) == [49, 48, 57] && Render(-7) == [45, 55]
  {
    assert Digits(10) == [49, 48];
  }

  lemma {:induction false} PaddedDigit(d: nat, width: nat)
    requires d < 10 && width >= 1
    ensures Padded(d, width) == seq(width - 1, _ => 48) + [48 + d]
    decreases width
  {
    if width > 1 {
      PaddedDigit(0, width - 1);
      assert seq(width - 2, _ => 48) + [48] == seq(width - 1, _ => 48);
    }
  }

  lemma PaddedTwo()
    ensures Padded(42, 6) == [48, 48, 48, 48, 52, 50] && Padded(7, 6) == [48, 48, 48, 48, 48, 55]
  {
    PaddedDigit(4, 5);
    PaddedDigit(7, 6);
    assert Padded(42, 6) == Padded(4, 5) + [50];
  }

  /** Names of splits, as ASCII. */
  lemma NameFormats()
    ensures BlobName(SplitId.Appended(42))
         == [115, 112, 108, 105, 116, 45] + [48, 48, 48, 48, 52, 50] + [46, 115, 112, 108, 105, 116]
    ensures BlobName(Compacted(7))
         == [99, 111, 109, 112, 97, 99, 116, 101, 100, 45] + [48, 48, 48, 48, 48, 55] + [46, 115, 112, 108, 105, 116]
  {
    hide Padded;
    PaddedTwo();
  }
}

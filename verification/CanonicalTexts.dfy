/** A set has one text in each format, however many words its bitmap has. */
module CanonicalTexts {
  import opened Words
  import opened CText
  import opened Bitmaps
  import opened HexFormat
  import opened HexRoundTrip
  import opened ListFormat
  import opened ListRoundTrip
  import opened TasksetFormat
  import opened TasksetRoundTrip
  import opened Options

  function Shown(b: Bits): seq<Word> {
    b.words[..Trim(b, |b.words|)]
  }

  lemma SameTail(a: Bits, b: Bits)
    requires forall k: nat :: Bitmaps.Read(a, k) == Bitmaps.Read(b, k)
    ensures a.infinite == b.infinite
  {
    assert Bitmaps.Read(a, |a.words| + |b.words|) == Bitmaps.Read(b, |a.words| + |b.words|);
    assert FULL[0] && !ZERO[0];
  }

  lemma NotLonger(a: Bits, b: Bits)
    requires a.infinite == b.infinite && forall k: nat :: Bitmaps.Read(a, k) == Bitmaps.Read(b, k)
    ensures Trim(a, |a.words|) <= Trim(b, |b.words|)
  {
    forall k: nat | k >= Trim(b, |b.words|) ensures Bitmaps.Read(b, k) == Tail(b.infinite) {
    }
    var n := Trim(a, |a.words|);
    assert n > 0 ==> Bitmaps.Read(a, n - 1) == Bitmaps.Read(b, n - 1);
  }

  /** The words that texts show are determined by the set. */
  lemma ShownSame(a: Bits, b: Bits)
    requires Members(a) == Members(b)
    ensures a.infinite == b.infinite && Shown(a) == Shown(b)
  {
    SameMembers(a, b);
    SameTail(a, b);
    NotLonger(a, b);
    NotLonger(b, a);
    forall k | 0 <= k < |Shown(a)| ensures Shown(a)[k] == Shown(b)[k] {
      assert Bitmaps.Read(a, k) == Bitmaps.Read(b, k);
    }
  }

  /** Two bitmaps have the same hex text exactly when they are the same set. */
  lemma HexIsCanonical(a: Bits, b: Bits)
    ensures HexText(a) == HexText(b) <==> Members(a) == Members(b)
  {
    hide HexText, HexScan;
    if Members(a) == Members(b) {
      ShownSame(a, b);
      SameHex(a, b);
    }
    HexRoundTrip.HexRoundTrip(a);
    HexRoundTrip.HexRoundTrip(b);
  }

  lemma SameHex(a: Bits, b: Bits)
    requires a.infinite == b.infinite && Shown(a) == Shown(b)
    ensures HexText(a) == HexText(b)
  {
  }

  lemma {:induction false} SameWide(v: seq<Word>, w: seq<Word>, n: nat)
    requires n <= |v| && n <= |w| && v[..n] == w[..n]
    ensures WideWords(v, n) == WideWords(w, n)
  {
    hide Wide;
    if n > 0 {
      assert v[..n - 1] == v[..n][..n - 1] == w[..n][..n - 1] == w[..n - 1];
      assert v[n - 1] == v[..n][n - 1] == w[..n][n - 1] == w[n - 1];
      SameWide(v, w, n - 1);
    }
  }

  lemma SameTop(a: Bits, b: Bits)
    requires a.words != [] && b.words != [] && a.infinite == b.infinite && Shown(a) == Shown(b)
    ensures Top(a) == Top(b) && a.words[..Top(a)] == b.words[..Top(b)]
  {
    if Top(a) == 1 && Trim(a, |a.words|) == 0 {
      assert a.words[0] == Tail(a.infinite) && b.words[0] == Tail(b.infinite);
    } else {
      assert a.words[..Top(a)] == Shown(a) && b.words[..Top(b)] == Shown(b);
    }
  }

  /** The same for the taskset text. */
  lemma TasksetIsCanonical(a: Bits, b: Bits)
    requires a.words != [] && b.words != []
    ensures TasksetText(a) == TasksetText(b) <==> Members(a) == Members(b)
  {
    hide TasksetScan, Wide, Plain, Merged;
    if Members(a) == Members(b) {
      ShownSame(a, b);
      SameTop(a, b);
      var n := Top(a);
      if n > 0 {
        assert a.words[..n - 1] == a.words[..n][..n - 1] && b.words[..n - 1] == b.words[..n][..n - 1];
        assert a.words[n - 1] == a.words[..n][n - 1] && b.words[n - 1] == b.words[..n][n - 1];
        SameWide(a.words, b.words, n - 1);
      }
    }
    TasksetRoundTrip.TasksetRoundTrip(a);
    TasksetRoundTrip.TasksetRoundTrip(b);
  }

  lemma SameNext(a: Bits, b: Bits, i: nat, wanted: bool)
    requires forall k: nat :: Has(a, k) == Has(b, k)
    ensures NextFrom(a, i, wanted) == NextFrom(b, i, wanted)
  {
    hide Has;
    var r, s := NextFrom(a, i, wanted), NextFrom(b, i, wanted);
    assert r != -1 ==> Has(b, r) == wanted;
    assert s != -1 ==> Has(a, s) == wanted;
  }

  lemma {:induction false} SameList(a: Bits, b: Bits, prev: int, needcomma: bool)
    requires prev >= -1 && forall k: nat :: Has(a, k) == Has(b, k)
    ensures ListFrom(a, prev, needcomma) == ListFrom(b, prev, needcomma)
    decreases Width(a) - prev
  {
    hide NextFrom, Piece, Has, ListFrom;
    var begin := NextFrom(a, prev + 1, true);
    SameNext(a, b, prev + 1, true);
    ListStep(a, prev, needcomma);
    ListStep(b, prev, needcomma);
    if begin != -1 {
      var end := NextFrom(a, begin + 1, false);
      SameNext(a, b, begin + 1, false);
      if end != -1 {
        SameList(a, b, end - 1, true);
      }
    }
  }

  lemma SameHas(a: Bits, b: Bits)
    requires Members(a) == Members(b)
    ensures forall k: nat :: Has(a, k) == Has(b, k)
  {
    forall k: nat ensures Has(a, k) == Has(b, k) {
      assert k in Members(a) <==> k in Members(b);
    }
  }

  /** The same for the list text. */
  lemma ListIsCanonical(a: Bits, b: Bits)
    requires Width(a) < 0x8000_0000 && Width(b) < 0x8000_0000
    ensures ListText(a) == ListText(b) <==> Members(a) == Members(b)
  {
    hide ListScan, Members, ListFrom, Has;
    if Members(a) == Members(b) {
      SameHas(a, b);
      SameList(a, b, -1, false);
    }
    ListRoundTrip.ListRoundTrip(a);
    ListRoundTrip.ListRoundTrip(b);
  }
}

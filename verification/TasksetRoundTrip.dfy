/** Reading the taskset text of a bitmap gives the same set back. */
module TasksetRoundTrip {
  import opened Words
  import opened CText
  import opened HexWords
  import opened Bitmaps
  import opened HexFormat
  import opened TasksetFormat
  import opened Options

  /** Leading zeros do not count. */
  lemma {:induction false} ShortestValue(ds: seq<nat>)
    requires ds != [] && |ds| <= CHARS && forall i :: 0 <= i < |ds| ==> ds[i] < 16
    ensures forall i :: 0 <= i < |Shortest(ds)| ==> Shortest(ds)[i] < 16
    ensures HexValue(Shortest(ds)) == HexValue(ds)
  {
    if |ds| > 1 && ds[0] == 0 {
      ShortestValue(ds[1..]);
      LeadingZero(ds);
    }
  }

  lemma LeadingZero(ds: seq<nat>)
    requires 1 < |ds| <= CHARS && ds[0] == 0 && forall i :: 0 <= i < |ds| ==> ds[i] < 16
    ensures HexValue(ds[1..]) == HexValue(ds)
  {
    var bits := DigitBits(ds[1..]);
    assert DigitBits(ds) == bits + NibbleBits(0);
    assert NibbleBits(0) == Repeat(false, 4);
    forall k | 0 <= k < BITS ensures HexValue(ds[1..])[k] == HexValue(ds)[k] {
    }
  }

  /** Digits alone are read as their value. */
  lemma ChunkOf(ds: seq<nat>, infinite: bool)
    requires ds != [] && forall i :: 0 <= i < |ds| ==> ds[i] < 16
    ensures ChunkWord(Hex(ds), infinite) ==
      Some(if infinite && |ds| != CHARS then Words.Or(HexValue(ds), From(4 * |ds|)) else HexValue(ds))
  {
    hide Scan, Hex, HexValue;
    ScanBareHex(ds);
  }

  lemma WideValue(w: Word)
    ensures |Digits(w)| == CHARS && HexValue(Digits(w)) == w
  {
    assert Repeat(false, 0) == [];
    assert DigitBits(Digits(w)) + [] == w;
  }

  lemma WideIs(w: Word, infinite: bool)
    ensures ChunkWord(Wide(w), infinite) == Some(w)
  {
    hide Digits, HexValue, ChunkWord;
    WideValue(w);
    ChunkOf(Digits(w), infinite);
  }

  lemma PlainIs(w: Word)
    ensures 1 <= |Plain(w)| <= CHARS && ChunkWord(Plain(w), false) == Some(w)
  {
    hide Digits, HexValue, ChunkWord;
    WideValue(w);
    ShortestValue(Digits(w));
    ChunkOf(Shortest(Digits(w)), false);
  }

  lemma LowValue(w: Word)
    requires High(w) == ALL_BITS
    ensures |Digits(Low(w))| == 8 && Words.Or(HexValue(Digits(Low(w))), From(32)) == w
  {
    var v := HexValue(Digits(Low(w)));
    assert v == Low(w) + Repeat(false, 32);
    assert w == Low(w) + High(w);
    forall k | 0 <= k < BITS ensures Words.Or(v, From(32))[k] == w[k] {
      assert k >= 32 ==> High(w)[k - 32];
    }
  }

  lemma MergedIs(w: Word)
    ensures 1 <= |Merged(w)| <= CHARS && ChunkWord(Merged(w), true) == Some(w)
  {
    hide Digits, HexValue, ChunkWord, Words.Or;
    if High(w) == ALL_BITS {
      LowValue(w);
      ChunkOf(Digits(Low(w)), true);
    } else {
      WideIs(w, true);
    }
  }

  /** The first of several chunks. */
  lemma SplitChunk(s: string, pos: nat, first: string, rest: string)
    requires At(s, pos, first + rest) && pos + |first + rest| == |s| && 1 <= |first| <= CHARS && |rest| % CHARS == 0
    ensures pos < |s| && ChunkSize(|s| - pos) == |first| && s[pos..pos + |first|] == first && At(s, pos + |first|, rest)
  {
    AtParts(s, pos, first, rest);
    FirstSize(|first|, |rest|);
  }

  lemma FirstSize(n: nat, m: nat)
    requires 1 <= n <= CHARS && m % CHARS == 0
    ensures ChunkSize(n + m) == n
  {
  }

  lemma Multiple(n: nat)
    ensures n * CHARS % CHARS == 0
  {
  }

  lemma WideStep(words: seq<Word>, n: nat)
    requires 0 < n <= |words|
    ensures WideWords(words, n) == Wide(words[n - 1]) + WideWords(words, n - 1)
    ensures words[..n - 1] + [words[n - 1]] == words[..n]
    ensures |WideWords(words, n)| == CHARS + (n - 1) * CHARS
  {
    hide Wide;
  }

  /** A chunk that is a word is put behind the words of the rest. */
  lemma ReadStep(s: string, pos: nat, first: string, w: Word, rest: seq<Word>, infinite: bool)
    requires pos + |first| <= |s| && pos < |s| && ChunkSize(|s| - pos) == |first| && s[pos..pos + |first|] == first
    requires ChunkWord(first, infinite) == Some(w) && ReadWords(s, pos + |first|, infinite) == Some(rest)
    ensures ReadWords(s, pos, infinite) == Some(rest + [w])
  {
    hide ChunkWord, ChunkSize;
  }

  lemma ReadNone(s: string, infinite: bool)
    ensures ReadWords(s, |s|, infinite) == Some([])
  {
  }

  lemma {:induction false} ReadWide(s: string, pos: nat, words: seq<Word>, n: nat, infinite: bool)
    requires n <= |words| && At(s, pos, WideWords(words, n)) && pos + n * CHARS == |s|
    ensures ReadWords(s, pos, infinite) == Some(words[..n])
    decreases n, 1
  {
    hide ChunkWord, ReadWords, Wide, At, WideWords;
    if n > 0 {
      WideStep(words, n);
      WideIs(words[n - 1], infinite);
      ReadAfter(s, pos, Wide(words[n - 1]), words, n, infinite);
    } else {
      ReadNone(s, infinite);
      assert words[..0] == [];
    }
  }

  /** A first chunk and full ones behind it are read back. */
  lemma {:induction false} ReadAfter(s: string, pos: nat, first: string, words: seq<Word>, n: nat, infinite: bool)
    requires 0 < n <= |words| && 1 <= |first| <= CHARS && ChunkWord(first, infinite) == Some(words[n - 1])
    requires At(s, pos, first + WideWords(words, n - 1)) && pos + |first| + (n - 1) * CHARS == |s|
    ensures pos < |s| && ReadWords(s, pos, infinite) == Some(words[..n])
    decreases n, 0
  {
    hide ChunkWord, ChunkSize, ReadWords, Wide, At, WideWords;
    Multiple(n - 1);
    WideStep(words, n);
    SplitChunk(s, pos, first, WideWords(words, n - 1));
    ReadWide(s, pos + |first|, words, n - 1, infinite);
    ReadStep(s, pos, first, words[n - 1], words[..n - 1], infinite);
  }

  /** The words that the text leaves out do not change the set. */
  lemma CutMembers(b: Bits, n: nat)
    requires n <= |b.words| && forall k :: n <= k < |b.words| ==> b.words[k] == Tail(b.infinite)
    ensures Members(Bits(b.words[..n], b.infinite)) == Members(b)
  {
    SameMembers(Bits(b.words[..n], b.infinite), b);
  }

  lemma Behind7(rest: string)
    ensures var s := INFINITE_PREFIX + rest; Prefixed(s) && |s| == 7 + |rest| && At(s, 7, rest)
  {
    var s := INFINITE_PREFIX + rest;
    assert s[..7] == INFINITE_PREFIX;
  }

  /** Hexadecimal digits never look like the infinite prefix. */
  lemma Behind2(first: string, ds: seq<nat>, rest: string)
    requires ds != [] && (forall i :: 0 <= i < |ds| ==> ds[i] < 16) && first == Hex(ds)
    requires forall k :: 0 <= k < |rest| ==> rest[k] != '.'
    ensures var s := "0x" + first + rest;
            !Prefixed(s) && |s| == 2 + |first + rest| && s[..2] == "0x" && At(s, 2, first + rest)
  {
    hide Hex, DigitChar;
    var s, t := "0x" + first + rest, first + rest;
    assert s == "0x" + t && s[..2] == "0x";
    assert forall k :: 0 <= k < |first| ==> first[k] == DigitChar(ds[k]) && DigitValue(first[k]) < 16;
    assert forall k :: 0 <= k < |t| ==> t[k] != '.';
    NoDotAtThree(s);
  }

  lemma NoDotAtThree(s: string)
    requires |s| > 3 ==> s[3] != '.'
    ensures !Prefixed(s)
  {
    assert INFINITE_PREFIX[3] == '.';
    assert |s| >= 7 ==> s[..7][3] == s[3];
  }

  lemma {:induction false} WideHasNoDot(words: seq<Word>, n: nat)
    requires n <= |words|
    ensures forall k :: 0 <= k < |WideWords(words, n)| ==> WideWords(words, n)[k] != '.'
  {
    if n > 0 {
      hide Digits;
      WideHasNoDot(words, n - 1);
      var w := Wide(words[n - 1]);
      assert forall k :: 0 <= k < |w| ==> w[k] == DigitChar(Digits(words[n - 1])[k]) != '.';
    }
  }

  lemma FiniteText(b: Bits)
    requires b.words != [] && !b.infinite
    ensures TasksetScan(TasksetText(b)) == Some(Bits(b.words[..Top(b)], false))
  {
    hide ChunkWord, ChunkSize, Wide, At, Digits, ReadWords, WideWords, Prefixed, Hex, Shortest;
    var n, w := Top(b), b.words[Top(b) - 1];
    var s := TasksetText(b);
    ShortestBelow(Digits(w));
    PlainIs(w);
    WideHasNoDot(b.words, n - 1);
    Behind2(Plain(w), Shortest(Digits(w)), WideWords(b.words, n - 1));
    ReadAfter(s, 2, Plain(w), b.words, n, false);
  }

  lemma InfiniteText(b: Bits)
    requires b.words != [] && b.infinite
    ensures TasksetScan(TasksetText(b)) == Some(Bits(if Top(b) == 0 then [FULL] else b.words[..Top(b)], true))
  {
    hide ChunkWord, ChunkSize, Wide, At, Digits, ReadWords, WideWords, Prefixed, Merged;
    var n := Top(b);
    var s := TasksetText(b);
    if n == 0 {
      Behind7("");
    } else {
      var w := b.words[n - 1];
      MergedIs(w);
      Behind7(Merged(w) + WideWords(b.words, n - 1));
      ReadAfter(s, 7, Merged(w), b.words, n, true);
    }
  }

  /** Printing any bitmap and reading the text gives the same set back. */
  lemma TasksetRoundTrip(b: Bits)
    requires b.words != []
    ensures var r := TasksetScan(TasksetText(b)); r.Some? && Members(r.value) == Members(b)
  {
    hide TasksetText, TasksetScan, Members;
    var n := Top(b);
    CutMembers(b, n);
    if b.infinite {
      InfiniteText(b);
      if n == 0 {
        FullMembers(b.words[..0]);
      }
    } else {
      FiniteText(b);
    }
  }

  lemma FullMembers(none: seq<Word>)
    requires none == []
    ensures Members(Bits([FULL], true)) == Members(Bits(none, true))
  {
    SameMembers(Bits([FULL], true), Bits(none, true));
  }
}

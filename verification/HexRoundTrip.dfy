/** Reading the hexadecimal text of a bitmap gives the same set back. */
module HexRoundTrip {
  import opened Words
  import opened CText
  import opened HexWords
  import opened Bitmaps
  import opened HexFormat

  /** What one substring looks like behind its comma. */
  function Field(h: Half, last: bool): string {
    if h != NO_BITS then PrintHalf(h) else if last then "0x0" else ""
  }

  /** The printed substrings, from the first one that is printed. */
  function Fields(hs: seq<Half>): (s: string)
    requires hs != []
  {
    if |hs| == 1 then Field(hs[0], true) else Field(hs[0], false) + "," + Fields(hs[1..])
  }

  lemma {:induction false} PrintedBehindComma(hs: seq<Half>)
    requires hs != []
    ensures PrintHalves(hs, true) == "," + Fields(hs)
  {
    hide PrintHalf;
    if |hs| == 1 {
      assert PrintHalves(hs[1..], true) == "";
    } else {
      PrintedBehindComma(hs[1..]);
    }
  }

  lemma PrintedFirst(hs: seq<Half>)
    requires hs != [] && hs[0] != NO_BITS
    ensures PrintHalves(hs, false) == Fields(hs)
  {
    hide PrintHalf;
    if |hs| == 1 {
      assert PrintHalves(hs[1..], true) == "";
    } else {
      PrintedBehindComma(hs[1..]);
    }
  }

  /** A word with nothing in its high half. */
  function LowWord(h: Half): Word {
    h + NO_BITS
  }

  lemma ShortValue(h: Half)
    ensures HexValue(Digits(h)) == LowWord(h)
    ensures HexValue([]) == LowWord(NO_BITS) && HexValue([0]) == LowWord(NO_BITS)
  {
    assert HexValue([0]) == DigitBits([0]) + Repeat(false, 60);
    assert DigitBits([0]) == DigitBits([0][1..]) + NibbleBits(0);
  }

  lemma ScanNothing(s: string, pos: nat)
    requires pos < |s| && s[pos] == ','
    ensures var n := Scan(s, pos, 16); n.digits == [] && n.next == pos
  {
    assert Spaces(s, pos) == pos && TakeDigits(s, pos, 16) == [];
  }

  /** One substring is read back. */
  lemma ScanField(s: string, pos: nat, h: Half, last: bool)
    requires At(s, pos, Field(h, last)) && last == (pos + |Field(h, last)| == |s|)
    requires !last ==> s[pos + |Field(h, last)|] == ','
    ensures var n := Scan(s, pos, 16); n.next == pos + |Field(h, last)| && HexWord(n) == LowWord(h)
  {
    hide Scan;
    ShortValue(h);
    if h != NO_BITS {
      var t := PrintHalf(h);
      assert s[pos + 0] == t[0] == '0' && s[pos + 1] == t[1] == 'x';
      assert forall k :: 0 <= k < 8 ==> s[pos + 2 + k] == s[pos + (k + 2)] == t[k + 2] == Hex(Digits(h))[k];
      ScanHex(s, pos, Digits(h));
    } else if last {
      assert s[pos + 0] == "0x0"[0] && s[pos + 1] == "0x0"[1] && s[pos + 2] == "0x0"[2] == Hex([0])[0];
      ScanHex(s, pos, [0]);
    } else {
      ScanNothing(s, pos);
    }
  }

  /** The words that the loop of sscanf makes of substrings. */
  function Gather(hs: seq<Half>, accum: Word, done: seq<Word>): seq<Word> {
    if hs == [] then done
    else
      var word := Words.Or(accum, Place(LowWord(hs[0]), |hs| - 1));
      if |hs| % 2 == 1 then Gather(hs[1..], ZERO, [word] + done) else Gather(hs[1..], word, done)
  }

  /** Where the first of several printed substrings ends and the others start. */
  lemma FieldsAt(s: string, pos: nat, hs: seq<Half>)
    requires hs != [] && At(s, pos, Fields(hs)) && pos + |Fields(hs)| == |s|
    ensures var f := Field(hs[0], |hs| == 1);
            && At(s, pos, f)
            && (|hs| == 1 ==> f != "" && pos + |f| == |s|)
            && (|hs| > 1 ==>
              && pos + |f| < |s| && s[pos + |f|] == ','
              && At(s, pos + |f| + 1, Fields(hs[1..])) && pos + |f| + 1 + |Fields(hs[1..])| == |s|)
  {
    hide Field, At;
    var f := Field(hs[0], |hs| == 1);
    if |hs| == 1 {
      FieldNotEmpty(hs[0]);
    } else {
      var rest := Fields(hs[1..]);
      AtParts(s, pos, f + ",", rest);
      AtParts(s, pos, f, ",");
      OneCharacter(s, pos + |f|, ',');
    }
  }

  lemma FieldNotEmpty(h: Half)
    ensures Field(h, true) != ""
  {
  }

  /** Reading printed substrings gathers them. */
  lemma {:induction false} ScanFields(s: string, pos: nat, hs: seq<Half>, accum: Word, done: seq<Word>)
    requires hs != [] && At(s, pos, Fields(hs)) && pos + |Fields(hs)| == |s|
    ensures pos < |s| && Commas(s, pos) + 1 == |hs|
    ensures ScanHalves(s, pos, |hs|, accum, done) == Done(Gather(hs, accum, done))
    decreases |hs|
  {
    hide Scan, HexWord, Place, Words.Or, Field, Fields;
    FieldsAt(s, pos, hs);
    var f := Field(hs[0], |hs| == 1);
    ScanField(s, pos, hs[0], |hs| == 1);
    OneSubstring(s, pos);
    var word := Words.Or(accum, Place(LowWord(hs[0]), |hs| - 1));
    if |hs| > 1 {
      ScanFields(s, pos + |f| + 1, hs[1..], if |hs| % 2 == 1 then ZERO
        else word, if |hs| % 2 == 1 then [word] + done else done);
    } else {
      assert hs[1..] == [];
    }
  }

  /** A low half completes the word whose high half is in the accumulator. */
  lemma GatherLow(w: Word, accum: Word, lower: seq<Half>, done: seq<Word>)
    requires |lower| % 2 == 0
    requires forall j :: 0 <= j < BITS ==> accum[j] == if j < SUBSTRING then false else w[j]
    ensures Gather([Low(w)] + lower, accum, done) == Gather(lower, ZERO, [w] + done)
  {
    hide Gather, Words.Or, Place, LowWord;
    OrLow(w, accum, |lower|);
    GatherOne(Low(w), lower, accum, done);
  }

  lemma OrLow(w: Word, accum: Word, count: nat)
    requires count % 2 == 0
    requires forall j :: 0 <= j < BITS ==> accum[j] == if j < SUBSTRING then false else w[j]
    ensures Words.Or(accum, Place(LowWord(Low(w)), count)) == w
  {
  }

  lemma OrHigh(w: Word, count: nat)
    requires count % 2 == 1
    ensures Words.Or(ZERO, Place(LowWord(High(w)), count)) == NO_BITS + High(w)
  {
  }

  lemma GatherOne(h: Half, lower: seq<Half>, accum: Word, done: seq<Word>)
    ensures var word := Words.Or(accum, Place(LowWord(h), |lower|));
            Gather([h] + lower, accum, done) == if |lower| % 2 == 0
              then Gather(lower, ZERO, [word] + done) else Gather(lower, word, done)
  {
    hide Words.Or, Place, LowWord, Gather;
    var hs := [h] + lower;
    assert hs[1..] == lower && hs[0] == h && |hs| == |lower| + 1;
    GatherStep(hs, accum, done);
  }

  lemma GatherStep(hs: seq<Half>, accum: Word, done: seq<Word>)
    requires hs != []
    ensures var word := Words.Or(accum, Place(LowWord(hs[0]), |hs| - 1));
            Gather(hs, accum, done) == if |hs| % 2 == 1 then Gather(hs[1..], ZERO, [word] + done)
              else Gather(hs[1..], word, done)
  {
    hide Words.Or, Place, LowWord;
  }

  lemma GatherBoth(w: Word, lower: seq<Half>, done: seq<Word>)
    requires |lower| % 2 == 0
    ensures Gather([High(w), Low(w)] + lower, ZERO, done) == Gather(lower, ZERO, [w] + done)
  {
    hide Gather, Words.Or, Place, LowWord;
    var accum := Words.Or(ZERO, Place(LowWord(High(w)), |lower| + 1));
    OrHigh(w, |lower| + 1);
    GatherOne(High(w), [Low(w)] + lower, ZERO, done);
    assert [High(w)] + ([Low(w)] + lower) == [High(w), Low(w)] + lower;
    GatherLow(w, accum, lower, done);
  }

  lemma {:induction false} GatherWords(ws: seq<Word>, done: seq<Word>)
    ensures Gather(Halves(ws), ZERO, done) == ws + done
  {
    hide Gather;
    if ws == [] {
      GatherNothing(done);
    } else {
      var w, front := ws[|ws| - 1], ws[..|ws| - 1];
      GatherBoth(w, Halves(front), done);
      GatherWords(front, [w] + done);
      assert front + ([w] + done) == ws + done;
    }
  }

  lemma GatherNothing(done: seq<Word>)
    ensures Gather([], ZERO, done) == done
  {
  }

  /** The same when the high half of the last word is not among the substrings. */
  lemma GatherWithoutTop(ws: seq<Word>, accum: Word)
    requires ws != []
    requires forall j :: 0 <= j < BITS ==> accum[j] == if j < SUBSTRING then false else ws[|ws| - 1][j]
    ensures Gather(Halves(ws)[1..], accum, []) == ws
  {
    hide Gather;
    var w, front := ws[|ws| - 1], ws[..|ws| - 1];
    assert Halves(ws)[1..] == [Low(w)] + Halves(front);
    GatherLow(w, accum, Halves(front), []);
    assert [w] + [] == [w] && front + [w] == ws;
    GatherWords(front, [w]);
  }

  /** The words that are cut off do not change the set. */
  lemma TrimmedMembers(b: Bits)
    ensures Members(Bits(b.words[..Trim(b, |b.words|)], b.infinite)) == Members(b)
  {
    var top := Trim(b, |b.words|);
    var t := Bits(b.words[..top], b.infinite);
    forall k: nat ensures Bitmaps.Read(t, k) == Bitmaps.Read(b, k) {
      if top <= k < |b.words| {
        assert b.words[k] == Tail(b.infinite);
      }
    }
    SameMembers(t, b);
  }

  /** The substrings of some words, without a first one that the text can do without. */
  function Kept(ws: seq<Word>, infinite: bool): (hs: seq<Half>)
    requires ws != []
    ensures hs != []
  {
    if Halves(ws)[0] == (if infinite then ALL_BITS else NO_BITS) then Halves(ws)[1..] else Halves(ws)
  }

  lemma KeptStarts(ws: seq<Word>)
    requires ws != [] && ws[|ws| - 1] != ZERO
    ensures Kept(ws, false)[0] != NO_BITS
  {
    var w := ws[|ws| - 1];
    assert w == Low(w) + High(w);
    assert NO_BITS + NO_BITS == ZERO;
  }

  lemma KeptGathers(ws: seq<Word>, infinite: bool)
    requires ws != []
    ensures var hs := Kept(ws, infinite); Gather(hs, Hidden(infinite, |hs|), []) == ws
  {
    hide Gather, Halves;
    var w := ws[|ws| - 1];
    FirstHalf(ws);
    if Kept(ws, infinite) == Halves(ws) {
      assert Hidden(infinite, |Halves(ws)|) == ZERO && ws + [] == ws;
      GatherWords(ws, []);
    } else {
      HiddenTop(w, infinite);
      GatherWithoutTop(ws, Hidden(infinite, 1));
    }
  }

  lemma FirstHalf(ws: seq<Word>)
    requires ws != []
    ensures Halves(ws)[0] == High(ws[|ws| - 1])
  {
  }

  lemma HiddenTop(w: Word, infinite: bool)
    requires High(w) == if infinite then ALL_BITS else NO_BITS
    ensures forall j :: 0 <= j < BITS ==> Hidden(infinite, 1)[j] == if j < SUBSTRING then false else w[j]
  {
    assert w == Low(w) + High(w);
    assert Hidden(infinite, 1) == NO_BITS + High(w);
  }

  /** A substring with a bit set does not look like the infinite prefix. */
  lemma NotPrefixed(hs: seq<Half>)
    requires hs != [] && hs[0] != NO_BITS
    ensures |Fields(hs)| >= 4 && Fields(hs)[0] == '0' && !Prefixed(Fields(hs))
  {
    var f, ds := PrintHalf(hs[0]), Digits(hs[0]);
    assert Fields(hs)[..4] == f[..4];
    assert f[0] == '0' && f[3] == Hex(ds)[1] == DigitChar(ds[1]) != '.';
    assert Fields(hs)[3] == Fields(hs)[..4][3] == f[..4][3] && Fields(hs)[0] == f[..4][0];
    assert INFINITE_PREFIX[3] == '.';
  }

  /** The scanner on the text of a finite bitmap. */
  lemma ScanFinite(ws: seq<Word>, hs: seq<Half>)
    requires hs != [] && (hs[0] != NO_BITS || hs == [NO_BITS])
    requires Gather(hs, ZERO, []) == ws
    ensures Fields(hs) != "" && Fields(hs)[0] != ',' && HexScan(Fields(hs)) == Read(Bits(ws, false))
  {
    hide Gather, ScanHalves, Fields;
    var s := Fields(hs);
    if hs[0] == NO_BITS {
      ZeroField();
    } else {
      NotPrefixed(hs);
    }
    WholeAt(s);
    ScanFields(s, 0, hs, ZERO, []);
  }

  lemma ZeroField()
    ensures Fields([NO_BITS]) == "0x0"
    ensures Gather([NO_BITS], ZERO, []) == [ZERO]
  {
    assert Gather([NO_BITS][1..], ZERO, [ZERO]) == [ZERO];
    assert Words.Or(ZERO, Place(LowWord(NO_BITS), 0)) == ZERO;
  }

  /** The scanner on the text of an infinite bitmap that is not full. */
  lemma ScanInfinite(s: string, ws: seq<Word>, hs: seq<Half>)
    requires hs != [] && Gather(hs, Hidden(true, |hs|), []) == ws
    requires |s| == 8 + |Fields(hs)| && Prefixed(s) && s[7] == ',' && s[0] == '0' && At(s, 8, Fields(hs))
    ensures HexScan(s) == Read(Bits(ws, true))
  {
    hide Gather, ScanHalves, Fields, Hidden, Prefixed;
    ScanFields(s, 8, hs, Hidden(true, |hs|), []);
  }

  lemma PrefixedText(f: string)
    ensures var s := INFINITE_PREFIX + "," + f;
            |s| == 8 + |f| && Prefixed(s) && s[7] == ',' && s[0] == '0' && At(s, 8, f)
  {
    var s := INFINITE_PREFIX + "," + f;
    assert s[..7] == INFINITE_PREFIX && s[0] == s[..7][0];
  }

  /** What the scanner makes of the text of a bitmap. */
  lemma ScanText(b: Bits)
    ensures HexText(b) != "" && HexText(b)[0] != ','
    ensures HexScan(HexText(b)) == Read(if Trim(b, |b.words|) == 0 then Bits([Tail(b.infinite)], b.infinite)
                                        else Bits(b.words[..Trim(b, |b.words|)], b.infinite))
  {
    hide Gather, ScanHalves, Fields;
    var ws := b.words[..Trim(b, |b.words|)];
    if ws == [] {
      ZeroField();
      if b.infinite {
        assert HexText(b) == INFINITE_PREFIX + "" == INFINITE_PREFIX;
      } else {
        ScanFinite([ZERO], [NO_BITS]);
      }
    } else {
      var hs := Kept(ws, b.infinite);
      KeptGathers(ws, b.infinite);
      if b.infinite {
        assert PendingHalves(b) == hs;
        PrintedBehindComma(hs);
        Associative(INFINITE_PREFIX, ",", Fields(hs));
        PrefixedText(Fields(hs));
        ScanInfinite(INFINITE_PREFIX + "," + Fields(hs), ws, hs);
      } else {
        KeptStarts(ws);
        PrintedFirst(hs);
        assert Hidden(false, |hs|) == ZERO;
        ScanFinite(ws, hs);
        SkippedZero(ws);
      }
    }
  }

  lemma SkippedZero(ws: seq<Word>)
    requires ws != []
    ensures PrintHalves(Halves(ws), false) == PrintHalves(Kept(ws, false), false)
  {
  }

  /** Printing any bitmap and reading the text gives the same set back. */
  lemma HexRoundTrip(b: Bits)
    ensures HexText(b) != "" && HexText(b)[0] != ','
    ensures var r := HexScan(HexText(b)); r.Read? && Members(r.b) == Members(b)
  {
    ScanText(b);
    TrimmedMembers(b);
    var top := Trim(b, |b.words|);
    if top == 0 {
      SameMembers(Bits([Tail(b.infinite)], b.infinite), Bits(b.words[..top], b.infinite));
    }
  }
}

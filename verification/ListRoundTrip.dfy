/** Reading the list text of a bitmap gives the same set back. */
module ListRoundTrip {
  import opened Words
  import opened CText
  import opened Bitmaps
  import opened ListFormat
  import opened Options

  /** The members up to prev. */
  ghost function UpTo(b: Bits, prev: int): iset<nat> {
    iset i: nat | Has(b, i) && i <= prev
  }

  lemma NothingAbove(b: Bits, prev: int)
    requires prev >= -1 && NextFrom(b, prev + 1, true) == -1
    ensures UpTo(b, prev) == Members(b)
  {
  }

  /** The run that starts at the next member. */
  lemma RunAbove(b: Bits, prev: int, begin: nat, end: int)
    requires prev >= -1 && NextFrom(b, prev + 1, true) == begin && NextFrom(b, begin + 1, false) == end
    ensures end == -1 ==> UpTo(b, prev) + Range(begin, -1) == Members(b)
    ensures end != -1 ==> UpTo(b, prev) + Range(begin, end - 1) == UpTo(b, end - 1)
  {
    hide Has, NextFrom;
    assert Has(b, begin);
    if end == -1 {
      assert forall k: nat :: begin + 1 <= k ==> Has(b, k);
    }
  }

  lemma CommaFirst(b: Bits, prev: int)
    requires prev >= -1
    ensures var rest := ListFrom(b, prev, false); ListFrom(b, prev, true) == if rest == "" then "" else "," + rest
    ensures ListFrom(b, prev, false) == "" <==> NextFrom(b, prev + 1, true) == -1
  {
    hide NextFrom, Piece, ListFrom;
    ListStep(b, prev, true);
    ListStep(b, prev, false);
    var begin := NextFrom(b, prev + 1, true);
    if begin != -1 {
      var end := NextFrom(b, begin + 1, false);
      PieceNotEmpty(begin, end);
      if end != -1 {
        Associative(",", Piece(begin, end), ListFrom(b, end - 1, true));
      }
    }
  }

  lemma PieceNotEmpty(begin: nat, end: int)
    requires end == -1 || end > begin
    ensures Piece(begin, end) != ""
  {
    hide Dec;
  }

  /** A printed index is read back. */
  lemma ReadIndex(s: string, pos: nat, n: nat)
    requires n < 0x8000_0000 && At(s, pos, Dec(n)) && StopsAt(s, pos + |Dec(n)|)
    ensures pos < |s| && SkipSeparators(s, pos) == pos
    ensures var r := Scan(s, pos, 0); r.next == pos + |Dec(n)| > pos && Signed(ULong(r)) == n
    ensures ToUnsigned(n) == n && ToInt(n) == n && Last(n) == n
  {
    assert Dec(n)[0] == s[pos + 0];
    var ds := DecDigits(n);
    assert Dec(n)[0] == DigitChar(ds[0]);
    hide Dec, Scan;
    ScanDec(s, pos, n, 0);
  }

  /** What follows a piece: the end of the text, or a comma and the next piece. */
  lemma After(s: string, pos: nat, piece: string, b: Bits, prev: int)
    requires prev >= -1 && At(s, pos, piece + ListFrom(b, prev, true)) && pos + |piece + ListFrom(b, prev, true)| == |s|
    ensures At(s, pos, piece) && StopsAt(s, pos + |piece|)
    ensures pos + |piece| == |s| ==> NextFrom(b, prev + 1, true) == -1
    ensures pos + |piece| < |s| ==>
      var rest := ListFrom(b, prev, false);
      s[pos + |piece|] == ',' && At(s, pos + |piece| + 1, rest) && pos + |piece| + 1 + |rest| == |s|
  {
    hide NextFrom, ListFrom, At, StopsAt;
    CommaFirst(b, prev);
    AfterPiece(s, pos, piece, ListFrom(b, prev, true), ListFrom(b, prev, false));
  }

  lemma AfterPiece(s: string, pos: nat, piece: string, tail: string, rest: string)
    requires At(s, pos, piece + tail) && pos + |piece + tail| == |s| && tail == if rest == "" then "" else "," + rest
    ensures At(s, pos, piece) && StopsAt(s, pos + |piece|) && (pos + |piece| == |s| <==> rest == "")
    ensures rest != "" ==>
      && s[pos + |piece|] == ','
      && At(s, pos + |piece| + 1, rest) && pos + |piece| + 1 + |rest| == |s|
  {
    hide At;
    AtParts(s, pos, piece, tail);
    if rest != "" {
      AtParts(s, pos + |piece|, ",", rest);
      OneCharacter(s, pos + |piece|, ',');
    }
  }

  /** Reading a single index. */
  lemma ScanIndex(s: string, pos: nat, n: nat, m: Scanned)
    requires n < 0x8000_0000 && At(s, pos, Dec(n)) && StopsAt(s, pos + |Dec(n)|)
    requires var next := pos + |Dec(n)|; next == |s| || s[next] == ','
    ensures var (next, m') := (pos + |Dec(n)|, Adding(m, n, n));
            ListScan(s, pos, -1, m) == if next == |s| then Some(m') else ListScan(s, next + 1, -1, m')
  {
    hide Scan, ULong, Signed, SkipSeparators, ToUnsigned, ToInt, Dec, Adding;
    ReadIndex(s, pos, n);
  }

  /** Reading the start of a range. */
  lemma ScanStart(s: string, pos: nat, n: nat, m: Scanned)
    requires n < 0x8000_0000 && At(s, pos, Dec(n) + "-")
    ensures var next := pos + |Dec(n)|;
            ListScan(s, pos, -1, m) == if next + 1 == |s| then Some(Adding(m, n, -1)) else ListScan(s, next + 1, n, m)
  {
    hide Scan, ULong, Signed, SkipSeparators, ToUnsigned, ToInt, Dec, Adding;
    AtParts(s, pos, Dec(n), "-");
    assert s[pos + |Dec(n)| + 0] == "-"[0];
    ReadIndex(s, pos, n);
  }

  /** Reading the end of a range. */
  lemma ScanEnd(s: string, pos: nat, begin: nat, n: nat, m: Scanned)
    requires n < 0x8000_0000 && begin < 0x8000_0000 && At(s, pos, Dec(n)) && StopsAt(s, pos + |Dec(n)|)
    ensures var (next, m') := (pos + |Dec(n)|, Adding(m, begin, n));
            ListScan(s, pos, begin, m) == if next == |s| then Some(m') else ListScan(s, next + 1, -1, m')
  {
    hide Scan, ULong, Signed, SkipSeparators, ToInt, Dec, Adding;
    ReadIndex(s, pos, n);
    assert ToUnsigned(begin) == begin;
  }

  /** A finite bitmap reaches all of a range. */
  lemma AddingToFinite(m: Scanned, begin: nat, last: int)
    requires last >= -1 && !m.infinite
    ensures var m' := Adding(m, begin, last);
            m'.members == m.members + Range(begin, last) && m'.infinite == (last == -1)
  {
    assert Reached(false, m.count, begin, last) == Range(begin, last);
  }

  /** One piece is read as the run it stands for, and then what is behind it. */
  lemma ScanPiece(s: string, pos: nat, begin: nat, end: nat, m: Scanned)
    requires begin < end < 0x8000_0000 && At(s, pos, Piece(begin, end))
    requires var next := pos + |Piece(begin, end)|; StopsAt(s, next) && (next == |s| || s[next] == ',')
    ensures var (next, m') := (pos + |Piece(begin, end)|, Adding(m, begin, end - 1));
            ListScan(s, pos, -1, m) == if next == |s| then Some(m') else ListScan(s, next + 1, -1, m')
  {
    hide ListScan, Dec, Adding, At;
    if end == begin + 1 {
      ScanIndex(s, pos, begin, m);
    } else {
      Associative(Dec(begin), "-", Dec(end - 1));
      AtParts(s, pos, Dec(begin) + "-", Dec(end - 1));
      ScanStart(s, pos, begin, m);
      ScanEnd(s, pos + |Dec(begin)| + 1, begin, end - 1, m);
    }
  }

  lemma {:induction false} ScanList(s: string, pos: nat, b: Bits, prev: int, m: Scanned)
    requires -1 <= prev < Width(b) < 0x8000_0000 && m.members == UpTo(b, prev) && !m.infinite
    requires At(s, pos, ListFrom(b, prev, false)) && pos + |ListFrom(b, prev, false)| == |s|
    ensures var r := ListScan(s, pos, -1, m); r.Some? && r.value.members == Members(b)
    decreases Width(b) - prev
  {
    hide ListScan, ListFrom, NextFrom, Piece, UpTo, Members, Range, Width, Dec, At, Adding;
    ListStep(b, prev, false);
    var begin := NextFrom(b, prev + 1, true);
    if begin == -1 {
      NothingAbove(b, prev);
      ScanNothing(s, m);
    } else {
      var end := NextFrom(b, begin + 1, false);
      RunAbove(b, prev, begin, end);
      Small(b, prev, begin, end);
      AddingToFinite(m, begin, if end == -1 then -1 else end - 1);
      if end == -1 {
        OpenPiece(begin);
        ScanStart(s, pos, begin, m);
      } else {
        assert "" + Piece(begin, end) == Piece(begin, end);
        After(s, pos, Piece(begin, end), b, end - 1);
        ScanPiece(s, pos, begin, end, m);
        if pos + |Piece(begin, end)| == |s| {
          NothingAbove(b, end - 1);
        } else {
          ScanList(s, pos + |Piece(begin, end)| + 1, b, end - 1, Adding(m, begin, end - 1));
        }
      }
    }
  }

  lemma ScanNothing(s: string, m: Scanned)
    ensures ListScan(s, |s|, -1, m) == Some(m)
  {
  }

  lemma OpenPiece(begin: nat)
    ensures "" + Piece(begin, -1) == Dec(begin) + "-" && |Piece(begin, -1)| == |Dec(begin)| + 1
  {
  }

  /** Indexes in the text are in the words, or the first one behind them. */
  lemma Small(b: Bits, prev: int, begin: nat, end: int)
    requires prev >= -1 && NextFrom(b, prev + 1, true) == begin && NextFrom(b, begin + 1, false) == end
    requires prev < Width(b)
    ensures begin <= Width(b) && end <= Width(b)
  {
    if end != -1 {
      RunInside(b, begin, end);
    }
  }

  lemma NothingUpTo(b: Bits)
    ensures UpTo(b, -1) == iset{}
  {
  }

  /** Printing any bitmap whose indexes an int can hold, and reading the text, gives the same set. */
  lemma ListRoundTrip(b: Bits)
    requires Width(b) < 0x8000_0000
    ensures var r := ListScan(ListText(b), 0, -1, NothingRead()); r.Some? && r.value.members == Members(b)
  {
    hide ListScan, ListFrom;
    NothingUpTo(b);
    ScanList(ListText(b), 0, b, -1, NothingRead());
  }
}

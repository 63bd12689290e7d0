/** The comma-separated hexadecimal text of a bitmap: 32-bit substrings, most significant
    first, behind 0xf...f when the bitmap is infinite. */
module HexFormat {
  import opened Words
  import opened CText
  import opened HexWords
  import opened Bitmaps

  const SUBSTRING := 32  // HWLOC_BITMAP_SUBSTRING_SIZE
  const INFINITE_PREFIX := "0xf...f"

  type Half = h: seq<bool> | |h| == SUBSTRING witness Repeat(false, SUBSTRING)

  const NO_BITS: Half := Repeat(false, SUBSTRING)
  const ALL_BITS: Half := Repeat(true, SUBSTRING)

  function High(w: Word): Half { w[SUBSTRING..] }

  function Low(w: Word): Half { w[..SUBSTRING] }

  /** The substrings of some words, most significant first. */
  function Halves(ws: seq<Word>): (hs: seq<Half>)
    ensures |hs| == 2 * |ws|
  {
    if ws == [] then [] else [High(ws[|ws| - 1]), Low(ws[|ws| - 1])] + Halves(ws[..|ws| - 1])
  }

  /** The leading words that the text does not mention are cut off. */
  function Trim(b: Bits, n: nat): (i: nat)
    requires n <= |b.words|
    ensures i <= n && forall k :: i <= k < n ==> b.words[k] == Tail(b.infinite)
    ensures i > 0 ==> b.words[i - 1] != Tail(b.infinite)
  {
    if n > 0 && b.words[n - 1] == Tail(b.infinite) then Trim(b, n - 1) else n
  }

  function PrintHalf(h: Half): string {
    "0x" + Hex(Digits(h))
  }

  /** What the loop of snprintf prints for the substrings that are left. */
  function PrintHalves(hs: seq<Half>, needcomma: bool): string {
    if hs == [] then ""
    else
      var comma := if needcomma then "," else "";
      if hs[0] != NO_BITS then comma + PrintHalf(hs[0]) + PrintHalves(hs[1..], true)
      else if |hs| == 1 then comma + "0x0"
      else comma + PrintHalves(hs[1..], needcomma)
  }

  /** The substrings to print: a first one that is full merges with the infinite prefix. */
  function Unmerged(hs: seq<Half>, merge: bool): seq<Half> {
    if merge && hs != [] && hs[0] == ALL_BITS then hs[1..] else hs
  }

  function PendingHalves(b: Bits): seq<Half> {
    Unmerged(Halves(b.words[..Trim(b, |b.words|)]), b.infinite)
  }

  /** The text that snprintf writes. */
  function HexText(b: Bits): string {
    if b.infinite then INFINITE_PREFIX + PrintHalves(PendingHalves(b), true)
    else
      var t := PrintHalves(PendingHalves(b), false);
      if t == "" then "0x0" else t
  }

  /** One substring in the loop of snprintf. */
  method PrintOne(value: Half, last: bool, needcomma: bool, ghost rest: seq<Half>)
      returns (piece: string, needcomma': bool)
    requires last <==> rest == []
    ensures PrintHalves([value] + rest, needcomma) == piece + PrintHalves(rest, needcomma')
  {
    assert ([value] + rest)[1..] == rest;
    needcomma' := needcomma;
    if value != NO_BITS {
      piece := (if needcomma then "," else "") + PrintHalf(value);
      needcomma' := true;
    } else if last {
      piece := (if needcomma then "," else "") + "0x0";
    } else if needcomma {
      piece := ",";
    } else {
      piece := "";
    }
  }

  /** Where the loop of snprintf starts: the highest word that the text mentions. */
  method SkipTail(set1: Bitmap) returns (i: int)
    requires set1.Valid()
    ensures i + 1 == Trim(set1.Value(), set1.count)
  {
    ghost var b := set1.Value();
    i := set1.count - 1;
    while i >= 0 && set1.ulongs[i] == Tail(set1.infinite)
      invariant -1 <= i < set1.count
      invariant Trim(b, i + 1) == Trim(b, set1.count)
    {
      assert b.words[i] == set1.ulongs[i];
      i := i - 1;
    }
    assert i >= 0 ==> b.words[i] == set1.ulongs[i];
  }

  /** What the loop of snprintf still has to print, given its accumulator and its index. */
  function Pending(b: Bits, n: nat, accum: Word, accumed: nat): seq<Half>
    requires n <= |b.words|
  {
    if accumed == 0 then Halves(b.words[..n]) else [High(accum)] + Halves(b.words[..n])
  }

  /** `accum <<= 32` */
  function Shift(accum: Word): (r: Word)
    ensures High(r) == Low(accum)
  {
    NO_BITS + Low(accum)
  }

  lemma Refill(b: Bits, n: nat, accum: Word)
    requires 0 < n <= |b.words|
    ensures Pending(b, n, accum, 0) == [High(b.words[n - 1])] + Pending(b, n - 1, Shift(b.words[n - 1]), SUBSTRING)
  {
    assert b.words[..n][..n - 1] == b.words[..n - 1];
  }

  lemma NothingPending(b: Bits, accum: Word, merge: bool, text: string, needcomma: bool)
    ensures text + PrintHalves(Unmerged(Pending(b, 0, accum, 0), merge), needcomma) == text
  {
  }

  /** The body of the loop of snprintf behind the refill: print the top half of the accumulator
      and shift it out. */
  method PrintTop(ghost b: Bits, n: nat, accum: Word, accumed: nat, needcomma: bool, merge: bool, text: string)
    returns (text': string, needcomma': bool)
    requires n <= |b.words| && (accumed == 0 || accumed == SUBSTRING)
    ensures var rest := Pending(b, n, Shift(accum), accumed);
            text' + PrintHalves(rest, needcomma') ==
              text + PrintHalves(Unmerged([High(accum)] + rest, merge), needcomma)
  {
    hide PrintHalves, Halves;
    ghost var rest := Pending(b, n, Shift(accum), accumed);
    var value := High(accum);
    text', needcomma' := text, needcomma;
    if merge && value == ALL_BITS {
      assert ([value] + rest)[1..] == rest;
    } else {
      var piece;
      piece, needcomma' := PrintOne(value, n == 0 && accumed == 0, needcomma, rest);
      text' := text + piece;
      Associative(text, piece, PrintHalves(rest, needcomma'));
    }
  }

  /** Where the loop of snprintf stands: the text so far and what is pending make the goal. */
  ghost predicate Printing(b: Bits, n: nat, accum: Word, accumed: nat,
      merge: bool, needcomma: bool, text: string, goal: string)
  {
    n <= |b.words| && text + PrintHalves(Unmerged(Pending(b, n, accum, accumed), merge), needcomma) == goal
  }

  lemma PrintStart(b: Bits, text: string)
    requires text == if b.infinite then INFINITE_PREFIX else ""
    ensures Printing(b, Trim(b, |b.words|), ZERO, 0, b.infinite,
      b.infinite, text, text + PrintHalves(PendingHalves(b), b.infinite))
  {
    hide PrintHalves;
  }

  /** What the next word, or the rest of the last one, adds. */
  lemma PrintNext(b: Bits, n: nat, accum: Word, accumed: nat, merge: bool, needcomma: bool, text: string, goal: string)
    requires Printing(b, n, accum, accumed, merge, needcomma, text, goal) && (n > 0 || accumed > 0)
    ensures
      var (accum', n', accumed') := if accumed == 0 then (b.words[n - 1], n - 1, SUBSTRING) else (accum, n, 0);
      text + PrintHalves(Unmerged([High(accum')] + Pending(b, n', Shift(accum'), accumed'), merge), needcomma) == goal
  {
    hide PrintHalves, Unmerged, Halves;
    if accumed == 0 {
      Refill(b, n, accum);
    }
  }

  /** hwloc_bitmap_snprintf, into a buffer that is large enough. */
  method Snprintf(set1: Bitmap) returns (text: string)
    requires set1.Valid()
    ensures text == HexText(set1.Value())
  {
    hide PrintHalves, Halves, Trim, Pending, Printing, Unmerged;
    ghost var b := set1.Value();
    text := "";
    var needcomma, merge := false, false;
    var accum: Word, accumed := ZERO, 0;
    if set1.infinite {
      text, needcomma, merge := INFINITE_PREFIX, true, true;
    }
    ghost var goal := text + PrintHalves(PendingHalves(b), b.infinite);
    PrintStart(b, text);
    var i := SkipTail(set1);
    while i >= 0 || accumed > 0
      invariant -1 <= i < set1.count && (accumed == 0 || accumed == SUBSTRING)
      invariant Printing(b, i + 1, accum, accumed, merge, needcomma, text, goal)
      decreases i, accumed
    {
      PrintNext(b, i + 1, accum, accumed, merge, needcomma, text, goal);
      if accumed == 0 {
        accum := set1.ulongs[i];
        assert accum == b.words[i];
        i := i - 1;
        accumed := BITS;
      }
      text, needcomma := PrintTop(b, i + 1, accum, accumed - SUBSTRING, needcomma, merge, text);
      accum := Shift(accum);
      accumed := accumed - SUBSTRING;
      merge := false;
      PrintingIs(b, i + 1, accum, accumed, needcomma, text, goal);
    }
    PrintEnd(b, accum, merge, needcomma, text, goal);
    if text == "" {
      text := "0x0";
    }
  }

  lemma PrintingIs(b: Bits, n: nat, accum: Word, accumed: nat, needcomma: bool, text: string, goal: string)
    requires n <= |b.words| && text + PrintHalves(Pending(b, n, accum, accumed), needcomma) == goal
    ensures Printing(b, n, accum, accumed, false, needcomma, text, goal)
  {
    hide PrintHalves, Pending;
  }

  lemma PrintEnd(b: Bits, accum: Word, merge: bool, needcomma: bool, text: string, goal: string)
    requires Printing(b, 0, accum, 0, merge, needcomma, text, goal)
    ensures text == goal
  {
    NothingPending(b, accum, merge, text, needcomma);
  }

  // Reading

  /** The number of commas from position i on. */
  function Commas(s: string, i: nat): nat
    requires i <= |s|
    decreases |s| - i
  {
    if i == |s| then 0 else (if s[i] == ',' then 1 else 0) + Commas(s, i + 1)
  }

  lemma {:induction false} SkipToComma(s: string, i: nat, k: nat)
    requires i <= k <= |s| && forall m :: i <= m < k ==> s[m] != ','
    ensures Commas(s, i) == Commas(s, k)
    decreases k - i
  {
    if i < k {
      SkipToComma(s, i + 1, k);
    }
  }

  /** A number and the comma behind it make one substring. */
  lemma OneSubstring(s: string, pos: nat)
    requires pos <= |s|
    ensures Commas(s, pos) == Commas(s, Scan(s, pos, 16).next)
  {
    NoCommaInNumber(s, pos, 16);
    SkipToComma(s, pos, Scan(s, pos, 16).next);
  }

  /** `val << (count * 32 % 64)` */
  function Place(val: Word, count: nat): Word {
    if count % 2 == 1 then NO_BITS + Low(val) else val
  }

  /** What reading the substrings gives: all words, or a failure, or fewer substrings than commas
      announce, which leaves words that nobody has written. */
  datatype Scanned = Done(words: seq<Word>) | Malformed | Unfilled

  /** The loop of sscanf from a position with count substrings: accum holds what is known of the
      word at hand, done the words above it. */
  function ScanHalves(s: string, pos: nat, count: nat, accum: Word, done: seq<Word>): (r: Scanned)
    requires pos <= |s| && count == Commas(s, pos) + 1
    decreases count
  {
    if pos == |s| then Unfilled
    else
      OneSubstring(s, pos);
      var n := Scan(s, pos, 16);
      var word := Words.Or(accum, Place(HexWord(n), count - 1));
      var done' := if count % 2 == 1 then [word] + done else done;
      if n.next == |s| then if count > 1 then Malformed else Done(done')
      else if s[n.next] != ',' then Malformed
      else ScanHalves(s, n.next + 1, count - 1, if count % 2 == 1 then ZERO else word, done')
  }

  datatype Outcome = Read(b: Bits) | Rejected | Partial(infinite: bool)

  predicate Prefixed(text: string) {
    |text| >= 7 && text[..7] == INFINITE_PREFIX
  }

  /** The substring of the first word that is hidden in the infinite prefix. */
  function Hidden(infinite: bool, count: nat): Word {
    if infinite && count % 2 == 1 then NO_BITS + ALL_BITS else ZERO
  }

  /** What sscanf makes of a text; one that starts with a comma violates an assertion there. */
  function HexScan(text: string): Outcome
    requires text != "" && text[0] != ','
  {
    if Prefixed(text) && (|text| == 7 || text[7] != ',') then Read(Bits([FULL], true))
    else
      var infinite := Prefixed(text);
      var pos := if infinite then 8 else 0;
      var count := Commas(text, pos) + 1;
      match ScanHalves(text, pos, count, Hidden(infinite, count), [])
      case Done(words) => Read(Bits(words, infinite))
      case Malformed => Rejected
      case Unfilled => Partial(infinite)
  }

  /** The count that sscanf makes of the commas behind the first character. */
  lemma CountIsCommas(text: string)
    requires text != "" && text[0] != ','
    ensures Commas(text, 1) == Commas(text, 0)
    ensures Prefixed(text) && |text| > 7 && text[7] == ',' ==> Commas(text, 0) == 1 + Commas(text, 8)
  {
    if Prefixed(text) {
      assert forall i :: 0 <= i < 7 ==> text[i] == text[..7][i] != ',';
      SkipToComma(text, 0, 7);
    }
  }

  /** The end of the loop body of sscanf: a word is stored once its low half is there, so words
      are stored from the last one down. */
  method Store(set1: Bitmap, count: nat, word: Word, ghost done: seq<Word>)
      returns (accum: Word, ghost done': seq<Word>)
    requires set1.count <= set1.ulongs.Length && 1 <= count && (count + 1) / 2 <= set1.count
    requires done == set1.ulongs[(count + 1) / 2..set1.count]
    modifies set1.ulongs
    ensures accum == if count % 2 == 1 then ZERO else word
    ensures done' == if count % 2 == 1 then [word] + done else done
    ensures done' == set1.ulongs[count / 2..set1.count]
    ensures count == 1 ==> done' == set1.ulongs[..set1.count]
  {
    accum, done' := word, done;
    if count % 2 == 1 {
      set1.ulongs[count / 2] := word;
      accum, done' := ZERO, [word] + done;
    }
  }

  /** The loop of sscanf. */
  method ReadHalves(set1: Bitmap, s: string, start: nat, total: nat, first: Word) returns (ok: bool)
    requires start <= |s| && total == Commas(s, start) + 1
    requires set1.Valid() && set1.count == (total + 1) / 2
    modifies set1.ulongs
    ensures var r := ScanHalves(s, start, total, first, []);
            ok == !r.Malformed? && (r.Done? ==> set1.Value().words == r.words)
  {
    hide Scan, HexWord, Place, Words.Or, ScanHalves;
    var pos: nat, count: nat, accum: Word := start, total, first;
    ghost var goal := ScanHalves(s, start, total, first, []);
    ghost var done: seq<Word> := [];
    while pos < |s|
      invariant pos <= |s| && count == Commas(s, pos) + 1 <= total
      invariant done == set1.ulongs[(count + 1) / 2..set1.count]
      invariant ScanHalves(s, pos, count, accum, done) == goal
      decreases count
    {
      HalvesStep(s, pos, count, accum, done);
      var n := Scan(s, pos, 16);
      accum, done := Store(set1, count, Words.Or(accum, Place(HexWord(n), count - 1)), done);
      count := count - 1;
      pos := n.next;
      if pos == |s| || s[pos] != ',' {
        return pos == |s| && count == 0;
      }
      pos := pos + 1;
    }
    HalvesEnd(s, count, accum, done);
    ok := true;
  }

  /** One iteration of the loop of sscanf. */
  lemma HalvesStep(s: string, pos: nat, count: nat, accum: Word, done: seq<Word>)
    requires pos < |s| && count == Commas(s, pos) + 1
    ensures
      var n := Scan(s, pos, 16);
      var word := Words.Or(accum, Place(HexWord(n), count - 1));
      var (accum', done') := if count % 2 == 1 then (ZERO, [word] + done) else (word, done);
      Commas(s, pos) == Commas(s, n.next) &&
      if n.next < |s| && s[n.next] == ',' then
        Commas(s, n.next) == 1 + Commas(s, n.next + 1)
          && ScanHalves(s, pos, count, accum, done) == ScanHalves(s, n.next + 1, count - 1, accum', done')
      else ScanHalves(s, pos, count, accum, done) == if n.next == |s| && count == 1 then Done(done') else Malformed
  {
    hide Scan, HexWord, Place, Words.Or;
    OneSubstring(s, pos);
  }

  lemma HalvesEnd(s: string, count: nat, accum: Word, done: seq<Word>)
    requires count == Commas(s, |s|) + 1
    ensures ScanHalves(s, |s|, count, accum, done) == Unfilled
  {
  }

  /** hwloc_bitmap_sscanf */
  method Sscanf(set1: Bitmap, text: string) returns (ok: bool)
    requires set1.Valid() && text != "" && text[0] != ','
    modifies set1, set1.ulongs
    ensures set1.Valid()
    ensures match HexScan(text)
            case Read(b) => ok && set1.Value() == b
            case Rejected => !ok && Members(set1.Value()) == iset{}
            case Partial(infinite) => ok && set1.infinite == infinite
  {
    hide ScanHalves, Hidden;
    CountIsCommas(text);
    var infinite := Prefixed(text);
    if infinite && (|text| == 7 || text[7] != ',') {
      set1.Reset(true);
      return true;
    }
    var pos := if infinite then 8 else 0;
    var count := if infinite then Commas(text, 1) else Commas(text, 1) + 1;
    set1.ResetByUlongs((count + 1) / 2);
    set1.infinite := false;
    ok := ReadHalves(set1, text, pos, count, Hidden(infinite, count));
    if ok {
      set1.infinite := infinite;
    } else {
      set1.Reset(false);
      NoMembers(set1.Value());
    }
  }
}

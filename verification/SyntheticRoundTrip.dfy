/** Importing what was exported gives the same indexes back. */
module SyntheticRoundTrip {
  import opened Arithmetic
  import opened CText
  import opened Interleaving
  import opened Synthetic
  import opened SyntheticText
  import opened SyntheticExport
  import opened Options

  const U32_SIZE := 0x1_0000_0000

  /** A number, a separator and what follows, at a position. */
  lemma NumberAt(s: string, pos: nat, n: nat, c: char, rest: string)
    requires At(s, pos, Dec(n) + [c] + rest)
    requires c == ',' || c == '*' || c == ':' || c == ')'
    ensures At(s, pos, Dec(n)) && StopsAt(s, pos + |Dec(n)|)
    ensures pos + |Dec(n)| < |s| && s[pos + |Dec(n)|] == c && At(s, pos + |Dec(n)| + 1, rest)
  {
    hide Dec, At;
    AtParts(s, pos, Dec(n) + [c], rest);
    AtParts(s, pos, Dec(n), [c]);
    OneCharacter(s, pos + |Dec(n)|, c);
  }

  lemma SmallNumbers(n: nat)
    requires n < U32_SIZE
    ensures U32(n) == n
  {
  }

  /** Reading an exported list. */
  lemma {:induction false} ReadExportedList(s: string, pos: nat, os: seq<nat>, done: seq<nat>)
    requires os != [] && At(s, pos, ListText(os)) && forall i :: 0 <= i < |os| ==> os[i] < U32_SIZE
    ensures ReadList(s, pos, |os|, done) == Some(done + os)
    decreases |os|
  {
    hide Dec, At, Scan, Horner, U32;
    var c := if |os| == 1 then ')' else ',';
    NumberAt(s, pos, os[0], c, ListText(os[1..]));
    ScanDec(s, pos, os[0], 10);
    SmallNumbers(os[0]);
    if |os| == 1 {
      assert done + os == done + [os[0]];
    } else {
      assert done + os == (done + [os[0]]) + os[1..];
      ReadExportedList(s, pos + |Dec(os[0])| + 1, os[1..], done + [os[0]]);
    }
  }

  /** Reading exported loops. */
  lemma {:induction false} ReadExportedLoops(s: string, pos: nat, loops: seq<Loop>, done: seq<Loop>)
    requires loops != [] && At(s, pos, LoopText(loops)) && Usable(loops) && Usable(done)
    requires forall i :: 0 <= i < |loops| ==> loops[i].step < U32_SIZE && loops[i].nb < U32_SIZE
    ensures ReadLoops(s, pos, done) == Some(done + loops)
    decreases |loops|
  {
    hide Dec, At, Scan, Horner, U32;
    var l, c := loops[0], if |loops| == 1 then ')' else ':';
    var tail := Dec(l.nb) + [c] + LoopText(loops[1..]);
    NumberAt(s, pos, l.step, '*', tail);
    ScanDec(s, pos, l.step, 0);
    SmallNumbers(l.step);
    var next := pos + |Dec(l.step)| + 1;
    NumberAt(s, next, l.nb, c, LoopText(loops[1..]));
    ScanDec(s, next, l.nb, 0);
    SmallNumbers(l.nb);
    if |loops| == 1 {
      assert done + loops == done + [l];
    } else {
      assert done + loops == (done + [l]) + loops[1..];
      ReadExportedLoops(s, next + |Dec(l.nb)| + 1, loops[1..], done + [l]);
    }
  }

  // Where an exported text ends, and which branch of the importer it takes

  predicate Plain(c: char) {
    IsDigit(c) || c == ','
  }

  lemma {:induction false} DecIsDigits(n: nat)
    ensures forall k :: 0 <= k < |Dec(n)| ==> IsDigit(Dec(n)[k])
  {
    if n >= 10 {
      DecIsDigits(n / 10);
    }
  }

  lemma {:induction false} SpanStops(s: string, i: nat, k: nat)
    requires i <= k < |s| && !Plain(s[k]) && forall m :: i <= m < k ==> Plain(s[m])
    ensures Span(s, i) == k
    decreases k - i
  {
    if i < k {
      SpanStops(s, i + 1, k);
    }
  }

  /** A text of allowed characters with one parenthesis, at its end. */
  predicate Closed(t: string, allowed: char -> bool) {
    t != "" && t[|t| - 1] == ')' && forall k :: 0 <= k < |t| - 1 ==> allowed(t[k])
  }

  lemma Extend(a: string, c: char, r: string, allowed: char -> bool)
    requires forall k :: 0 <= k < |a| ==> allowed(a[k])
    requires if r == "" then c == ')' else allowed(c) && Closed(r, allowed)
    ensures Closed(a + [c] + r, allowed)
  {
    var t := a + [c] + r;
    forall k | 0 <= k < |t| - 1 ensures allowed(t[k]) {
      if k > |a| {
        assert t[k] == r[k - |a| - 1];
      }
    }
  }

  /** A list is digits and commas up to the parenthesis at its end. */
  lemma {:induction false} ListShape(os: seq<nat>)
    requires os != []
    ensures Closed(ListText(os), Plain) && |ListText(os)| > 1 && IsDigit(ListText(os)[0])
  {
    hide Dec, Closed;
    var d, r := Dec(os[0]), ListText(os[1..]);
    DecIsDigits(os[0]);
    if |os| > 1 {
      ListShape(os[1..]);
    } else {
      assert r == "";
    }
    Extend(d, if |os| == 1 then ')' else ',', r, Plain);
  }

  /** Characters that do not end the attribute. */
  predicate Inside(c: char) {
    c != ' ' && c != ')'
  }

  /** Loops end with the only parenthesis. */
  lemma {:induction false} LoopShape(loops: seq<Loop>)
    requires loops != []
    ensures Closed(LoopText(loops), Inside)
  {
    hide Dec, Closed;
    var a, b, r := Dec(loops[0].step), Dec(loops[0].nb), LoopText(loops[1..]);
    DecIsDigits(loops[0].step);
    DecIsDigits(loops[0].nb);
    if |loops| > 1 {
      LoopShape(loops[1..]);
    } else {
      assert r == "";
    }
    Extend(b, if |loops| == 1 then ')' else ':', r, Inside);
    Extend(a, '*', b + [if |loops| == 1 then ')' else ':'] + r, Inside);
  }

  lemma LoopSpan(loops: seq<Loop>)
    requires loops != []
    ensures var t, k := LoopText(loops), |Dec(loops[0].step)|; k < |t| - 1 && IsDigit(t[0]) && Span(t, 0) == k
  {
    hide Dec;
    var t, a := LoopText(loops), Dec(loops[0].step);
    var b := Dec(loops[0].nb);
    DecIsDigits(loops[0].step);
    assert forall k :: 0 <= k < |a| ==> t[k] == a[k];
    assert t[|a|] == '*' && |t| > |a| + 1;
    SpanStops(t, 0, |a|);
  }

  /** Loops that explain distinct indexes pass the checks of the importer. */
  lemma ExplainedInterleaves(loops: seq<Loop>, os: seq<nat>)
    requires os != [] && os[0] == 0 && Distinct(os)
    requires Explains(loops, os) && Product(loops) == |os|
    ensures Interleaved(loops, |os|) == Some(os)
  {
    assert Completed(loops, |os|) == loops && Indexes(loops, |os|) == os;
    forall j | 0 <= j < |os| ensures os[j] < |os| && (os[j] == 0 ==> j == 0) {
      IndexBelow(loops, j);
    }
  }

  /** Exporting the indexes of a level and importing the text gives them back. The one level that
      cannot be exported is a single object with index 0, whose text is empty. */
  lemma ExportImportRoundTrip(os: seq<nat>, names: Option<seq<nat>>, w: seq<nat>)
    requires names.Some? ==> Named(names.value, w, |os|)
    requires os != [] && |os| < U32_SIZE && Distinct(os) && forall i :: 0 <= i < |os| ==> os[i] < U32_SIZE
    ensures ExportText(os) == "" <==> os == [0]
    ensures os != [0] ==>
      var text := ExportText(os); var length := |text| - 1;
      && Closed(text, Inside) && IsDigit(text[0]) && Imported(text, length, names, w, |os|) == Some(os)
  {
    hide Search, Explains, Dec, ListText, LoopText, Interleaved, ReadList, ReadLoops;
    SearchFinds(os, 1, []);
    assert |os| == 1 ==> os == [os[0]];
    var r := Search(os, 1, []);
    if os == [0] {
      SingleZero();
    } else if os[0] == 0 && r.Some? && Explains(r.value, os) {
      var loops, text := r.value, LoopText(r.value);
      assert loops != [] by {
        assert Product([]) == 1;
      }
      LoopShape(loops);
      LoopSpan(loops);
      WholeAt(text);
      ReadExportedLoops(text, 0, loops, []);
      assert [] + loops == loops;
      ExplainedInterleaves(loops, os);
    } else {
      var text := ListText(os);
      ListShape(os);
      assert forall c :: Plain(c) ==> Inside(c);
      SpanStops(text, 0, |text| - 1);
      WholeAt(text);
      ReadExportedList(text, 0, os, []);
      assert [] + os == os;
    }
  }

  lemma SingleZero()
    ensures ExportText([0]) == ""
  {
    assert Search([0], 1, []) == Some([]);
    assert Explains([], [0]);
  }
}

/** The taskset text of a bitmap: one hexadecimal number, behind 0xf...f when it is infinite. */
module TasksetFormat {
  import opened Words
  import opened CText
  import opened HexWords
  import opened Bitmaps
  import opened HexFormat
  import opened Options

  const CHARS := 16  // HWLOC_BITS_PER_LONG/4

  /** Digits without leading zeros, but for a last one: what %lx prints. */
  function Shortest(ds: seq<nat>): (r: seq<nat>)
    ensures ds != [] ==> r != []
    ensures |r| <= |ds| && forall i :: 0 <= i < |r| ==> r[i] in ds
  {
    if |ds| > 1 && ds[0] == 0 then Shortest(ds[1..]) else ds
  }

  lemma {:induction false} ShortestBelow(ds: seq<nat>)
    requires forall i :: 0 <= i < |ds| ==> ds[i] < 16
    ensures forall i :: 0 <= i < |Shortest(ds)| ==> Shortest(ds)[i] < 16
  {
    if |ds| > 1 && ds[0] == 0 {
      ShortestBelow(ds[1..]);
    }
  }

  /** %016lx */
  function Wide(w: Word): (s: string)
    ensures |s| == CHARS
  {
    Hex(Digits(w))
  }

  /** %lx */
  function Plain(w: Word): string {
    ShortestBelow(Digits(w));
    Hex(Shortest(Digits(w)))
  }

  /** The first word behind 0xf...f: its high half is left out when it is full. */
  function Merged(w: Word): string {
    if High(w) == ALL_BITS then Hex(Digits(Low(w))) else Wide(w)
  }

  /** The words below n, each in full. */
  function WideWords(words: seq<Word>, n: nat): (s: string)
    requires n <= |words|
    ensures |s| == n * CHARS
  {
    if n == 0 then "" else Wide(words[n - 1]) + WideWords(words, n - 1)
  }

  /** The words that the text shows; a finite one shows at least one. */
  function Top(b: Bits): (n: nat)
    requires b.words != []
    ensures n <= |b.words|
  {
    var t := Trim(b, |b.words|);
    if !b.infinite && t == 0 then 1 else t
  }

  function TasksetText(b: Bits): string
    requires b.words != []
  {
    var n := Top(b);
    if b.infinite then INFINITE_PREFIX + (if n == 0 then "" else Merged(b.words[n - 1]) + WideWords(b.words, n - 1))
    else "0x" + Plain(b.words[n - 1]) + WideWords(b.words, n - 1)
  }

  /** The loops that skip what need not be shown. */
  method Start(set1: Bitmap) returns (i: int)
    requires set1.Valid()
    ensures i + 1 == Top(set1.Value())
  {
    ghost var b := set1.Value();
    i := set1.count - 1;
    if set1.infinite {
      while i >= 0 && set1.ulongs[i] == FULL
        invariant -1 <= i < set1.count && Trim(b, i + 1) == Trim(b, set1.count)
      {
        assert b.words[i] == set1.ulongs[i];
        i := i - 1;
      }
    } else {
      while i >= 1 && set1.ulongs[i] == ZERO
        invariant 0 <= i < set1.count && Trim(b, i + 1) == Trim(b, set1.count)
      {
        assert b.words[i] == set1.ulongs[i];
        i := i - 1;
      }
    }
    assert i >= 0 ==> b.words[i] == set1.ulongs[i];
    TrimOnce(b, i + 1);
  }

  lemma TrimOnce(b: Bits, n: nat)
    requires n <= |b.words|
    ensures n > 0 && b.words[n - 1] != Tail(b.infinite) ==> Trim(b, n) == n
    ensures n == 1 && b.words[0] == Tail(b.infinite) ==> Trim(b, n) == 0
    ensures n == 0 ==> Trim(b, n) == 0
  {
  }

  /** hwloc_bitmap_taskset_snprintf, into a buffer that is large enough. */
  method TasksetSnprintf(set1: Bitmap) returns (text: string)
    requires set1.Valid()
    ensures text == TasksetText(set1.Value())
  {
    hide Wide, Merged, Plain, Top, Trim;
    ghost var b := set1.Value();
    text := "";
    var merge, started := false, false;
    if set1.infinite {
      text, started, merge := INFINITE_PREFIX, true, true;
    }
    var i := Start(set1);
    if i >= 0 {
      var val := set1.ulongs[i];
      assert val == b.words[i];
      text := text + if started then if merge then Merged(val) else Wide(val) else "0x" + Plain(val);
      ghost var first := text;
      i := i - 1;
      while i >= 0
        invariant -1 <= i < set1.count
        invariant text + WideWords(b.words, i + 1) == TasksetText(b)
      {
        assert set1.ulongs[i] == b.words[i];
        Associative(text, Wide(set1.ulongs[i]), WideWords(b.words, i));
        text := text + Wide(set1.ulongs[i]);
        i := i - 1;
      }
    }
  }

  // Reading

  /** The word of one chunk of digits; nothing when it is not a number. */
  function ChunkWord(chunk: string, infinite: bool): Option<Word> {
    var n := Scan(chunk, 0, 16);
    if n.next != |chunk| then None
    else
      var val := HexWord(n);
      Some(if infinite && |chunk| != CHARS then Words.Or(val, From(4 * |chunk|)) else val)
  }

  /** The number of words for so many characters. */
  function Chunks(chars: nat): nat {
    (chars * 4 + BITS - 1) / BITS
  }

  /** How many characters of so many make the next chunk. */
  function ChunkSize(chars: nat): (n: nat)
    requires chars > 0
    ensures 1 <= n <= CHARS && n <= chars && Chunks(chars) == Chunks(chars - n) + 1
  {
    if chars % CHARS == 0 then CHARS else chars % CHARS
  }

  /** The words of a text from pos on, the highest one first in the text. */
  function ReadWords(s: string, pos: nat, infinite: bool): (r: Option<seq<Word>>)
    requires pos <= |s|
    ensures r.Some? ==> |r.value| == Chunks(|s| - pos)
    decreases |s| - pos
  {
    if pos == |s| then Some([])
    else
      var n := ChunkSize(|s| - pos);
      var word := ChunkWord(s[pos..pos + n], infinite);
      if word.None? then None
      else
        var rest := ReadWords(s, pos + n, infinite);
        if rest.None? then None else Some(rest.value + [word.value])
  }

  /** What the scanner makes of a text; nothing when it is malformed. */
  function TasksetScan(s: string): Option<Bits> {
    var infinite := Prefixed(s);
    var pos := if infinite then 7 else if |s| >= 2 && s[..2] == "0x" then 2 else 0;
    if pos == |s| then Some(Bits([Tail(infinite)], infinite))
    else
      var words := ReadWords(s, pos, infinite);
      if words.None? then None else Some(Bits(words.value, infinite))
  }

  /** The words that are still to be read, in front of those that have been. */
  function Behind(rest: Option<seq<Word>>, done: seq<Word>): Option<seq<Word>> {
    if rest.None? then None else Some(rest.value + done)
  }

  lemma NextChunk(s: string, pos: nat, infinite: bool, done: seq<Word>)
    requires pos < |s|
    ensures
      var n := ChunkSize(|s| - pos);
      var word := ChunkWord(s[pos..pos + n], infinite);
      Behind(ReadWords(s, pos, infinite), done) ==
        if word.None? then None else Behind(ReadWords(s, pos + n, infinite), [word.value] + done)
  {
    hide ChunkWord, ChunkSize;
    var n := ChunkSize(|s| - pos);
    var rest, word := ReadWords(s, pos + n, infinite), ChunkWord(s[pos..pos + n], infinite);
    if word.Some? && rest.Some? {
      assert rest.value + [word.value] + done == rest.value + ([word.value] + done);
    }
  }

  /** The loop of sscanf stores the words from the last one down. */
  method ReadAll(set1: Bitmap, s: string, start: nat, infinite: bool) returns (ok: bool)
    requires start < |s| && set1.Valid() && set1.count == Chunks(|s| - start)
    modifies set1.ulongs
    ensures ok == ReadWords(s, start, infinite).Some?
    ensures ok ==> set1.ulongs[..set1.count] == ReadWords(s, start, infinite).value
  {
    hide ReadWords, ChunkWord, ChunkSize, Chunks;
    var pos: nat, count: nat := start, set1.count;
    ghost var done: seq<Word> := [];
    BehindNothing(ReadWords(s, start, infinite));
    NoChunks();
    while pos < |s|
      invariant pos <= |s| && count == Chunks(|s| - pos) <= set1.count
      invariant done == set1.ulongs[count..set1.count]
      invariant Behind(ReadWords(s, pos, infinite), done) == ReadWords(s, start, infinite)
      decreases |s| - pos
    {
      NextChunk(s, pos, infinite, done);
      var tmpchars := ChunkSize(|s| - pos);
      var val := ChunkWord(s[pos..pos + tmpchars], infinite);
      if val.None? {
        return false;
      }
      set1.ulongs[count - 1] := val.value;
      done := [val.value] + done;
      pos, count := pos + tmpchars, count - 1;
    }
    NothingLeft(s, infinite, done);
    ok := true;
  }

  lemma BehindNothing(words: Option<seq<Word>>)
    ensures Behind(words, []) == words
  {
    if words.Some? {
      assert words.value + [] == words.value;
    }
  }

  lemma NoChunks()
    ensures Chunks(0) == 0
  {
  }

  lemma NothingLeft(s: string, infinite: bool, done: seq<Word>)
    ensures Behind(ReadWords(s, |s|, infinite), done) == Some(done)
  {
    assert [] + done == done;
  }

  lemma SomeChunks(chars: nat)
    requires chars > 0
    ensures Chunks(chars) >= 1
  {
  }

  /** hwloc_bitmap_taskset_sscanf */
  method TasksetSscanf(set1: Bitmap, s: string) returns (ok: bool)
    requires set1.Valid()
    modifies set1, set1.ulongs
    ensures set1.Valid() && ok == TasksetScan(s).Some?
    ensures set1.Value() == if ok then TasksetScan(s).value else Bits([ZERO], false)
  {
    hide ReadWords, Chunks;
    var infinite, pos: nat := Prefixed(s), 0;
    if infinite {
      pos := 7;
    } else if |s| >= 2 && s[..2] == "0x" {
      pos := 2;
    }
    if pos == |s| {
      set1.Reset(infinite);
      return true;
    }
    SomeChunks(|s| - pos);
    set1.ResetByUlongs(Chunks(|s| - pos));
    set1.infinite := false;
    ok := ReadAll(set1, s, pos, infinite);
    if ok {
      set1.infinite := infinite;
    } else {
      set1.Reset(false);
    }
  }
}

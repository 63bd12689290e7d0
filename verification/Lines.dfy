/** Lines that arrive in chunks. */
module Lines {

  const NEWLINE := 10
  const MAX_LINE := 0x10_0000

  type Byte = n: nat | n < 256

  /** The lines that a stream completes. */
  function Complete(s: seq<Byte>): seq<seq<Byte>> {
    if s == [] then []
    else
      var n := |s| - 1;
      Complete(s[..n]) + if s[n] == NEWLINE then [Partial(s[..n])] else []
  }

  /** The line that has begun at the end of a stream. */
  function Partial(s: seq<Byte>): seq<Byte> {
    if s == [] then []
    else
      var n := |s| - 1;
      if s[n] == NEWLINE then [] else Partial(s[..n]) + [s[n]]
  }

  predicate OneLine(s: seq<Byte>) {
    NEWLINE !in s
  }

  /** Lines as a stream, each with a newline behind it. */
  function Unsplit(lines: seq<seq<Byte>>): seq<Byte> {
    if lines == [] then [] else Unsplit(lines[..|lines| - 1]) + lines[|lines| - 1] + [NEWLINE]
  }

  function Flatten(chunks: seq<seq<Byte>>): seq<Byte> {
    if chunks == [] then [] else Flatten(chunks[..|chunks| - 1]) + chunks[|chunks| - 1]
  }

  lemma UnsplitMore(lines: seq<seq<Byte>>, line: seq<Byte>)
    ensures Unsplit(lines + [line]) == Unsplit(lines) + line + [NEWLINE]
  {
    assert (lines + [line])[..|lines|] == lines;
  }

  /** Splitting is what it should be: nothing is lost, and no line holds a newline. */
  lemma {:induction false} SplitIsExact(s: seq<Byte>)
    ensures Unsplit(Complete(s)) + Partial(s) == s
    ensures OneLine(Partial(s)) && forall i :: 0 <= i < |Complete(s)| ==> OneLine(Complete(s)[i])
  {
    if s != [] {
      hide Unsplit;
      var n := |s| - 1;
      var front, line := Complete(s[..n]), Partial(s[..n]);
      SplitIsExact(s[..n]);
      assert s == s[..n] + [s[n]];
      if s[n] == NEWLINE {
        UnsplitMore(front, line);
        assert Unsplit(front + [line]) + [] == Unsplit(front) + line + [NEWLINE];
      } else {
        assert front + [] == front;
        assert Unsplit(front) + (line + [s[n]]) == Unsplit(front) + line + [s[n]];
      }
    } else {
      assert Unsplit([]) + [] == [];
    }
  }

  lemma {:induction false} MoreOfLine(s: seq<Byte>, t: seq<Byte>)
    requires OneLine(t)
    ensures Complete(s + t) == Complete(s) && Partial(s + t) == Partial(s) + t
  {
    if t == [] {
      assert s + t == s && Partial(s) + t == Partial(s);
    } else {
      var n := |t| - 1;
      MoreOfLine(s, t[..n]);
      assert (s + t)[..|s + t| - 1] == s + t[..n];
      assert Partial(s) + t[..n] + [t[n]] == Partial(s) + t;
    }
  }

  lemma EndOfLine(s: seq<Byte>, t: seq<Byte>)
    requires OneLine(t)
    ensures Complete(s + t + [NEWLINE]) == Complete(s) + [Partial(s) + t] && Partial(s + t + [NEWLINE]) == []
  {
    MoreOfLine(s, t);
    assert (s + t + [NEWLINE])[..|s + t|] == s + t;
  }

  /** There is no other way to split a stream into lines. */
  lemma {:induction false} SplitIsUnique(lines: seq<seq<Byte>>, rest: seq<Byte>)
    requires OneLine(rest) && forall i :: 0 <= i < |lines| ==> OneLine(lines[i])
    ensures Complete(Unsplit(lines) + rest) == lines && Partial(Unsplit(lines) + rest) == rest
    decreases |lines|
  {
    if lines == [] {
      MoreOfLine([], rest);
      assert [] + rest == rest;
    } else {
      var n := |lines| - 1;
      var s := Unsplit(lines[..n]);
      SplitIsUnique(lines[..n], []);
      assert s + [] == s;
      EndOfLine(s, lines[n]);
      assert [] + lines[n] == lines[n] && lines[..n] + [lines[n]] == lines;
      MoreOfLine(Unsplit(lines), rest);
      assert [] + rest == rest;
    }
  }

  lemma FlattenMore(chunks: seq<seq<Byte>>, chunk: seq<Byte>)
    ensures Flatten(chunks + [chunk]) == Flatten(chunks) + chunk
  {
    assert (chunks + [chunk])[..|chunks|] == chunks;
  }

  class Splitter {
    var chunks: seq<seq<Byte>>
    var totalLen: nat
    var destroyed: bool
    /** The lines that have been passed on. */
    var lines: seq<seq<Byte>>
    /** All that has arrived. */
    ghost var received: seq<Byte>

    ghost predicate Valid()
      reads this
    {
      && lines == Complete(received)
      && totalLen == |Flatten(chunks)|
      && (!destroyed ==> Flatten(chunks) == Partial(received))
    }

    constructor ()
      ensures Valid() && !destroyed && received == [] && lines == []
    {
      chunks, totalLen, destroyed, lines, received := [], 0, false, [], [];
    }

    /** `raw.indexOf(0x0a, from)` */
    static method IndexOf(raw: seq<Byte>, from: nat) returns (at: int)
      requires from <= |raw|
      ensures at == -1 ==> OneLine(raw[from..])
      ensures at != -1 ==> from <= at < |raw| && raw[at] == NEWLINE && OneLine(raw[from..at])
    {
      at := from;
      while at < |raw|
        invariant from <= at <= |raw| && OneLine(raw[from..at])
      {
        if raw[at] == NEWLINE {
          return;
        }
        at := at + 1;
      }
      at := -1;
    }

    method Push(chunk: seq<Byte>)
      modifies `chunks, `totalLen
      ensures chunks == old(chunks) + [chunk] && totalLen == old(totalLen) + |chunk|
      ensures Flatten(chunks) == old(Flatten(chunks)) + chunk
    {
      FlattenMore(chunks, chunk);
      chunks := chunks + [chunk];
      totalLen := totalLen + |chunk|;
    }

    /** A newline at nlPos: the line is passed on. */
    method Dispatch(slice: seq<Byte>)
      requires Valid() && !destroyed && OneLine(slice)
      modifies `chunks, `totalLen, `lines, `received
      ensures Valid() && received == old(received) + slice + [NEWLINE] && chunks == []
    {
      hide Complete, Partial, Flatten, OneLine;
      EndOfLine(received, slice);
      FlattenNone();
      var line := slice;
      if |chunks| != 0 {
        Push(slice);
        line := Concat(chunks);
        totalLen := 0;
        chunks := [];
      } else {
        assert Partial(received) + slice == slice;
      }
      lines := lines + [line];
      received := received + slice + [NEWLINE];
    }

    static method Concat(chunks: seq<seq<Byte>>) returns (r: seq<Byte>)
      ensures r == Flatten(chunks)
    {
      r := [];
      for i := 0 to |chunks|
        invariant r == Flatten(chunks[..i])
      {
        assert chunks[..i + 1][..i] == chunks[..i];
        r := r + chunks[i];
      }
      assert chunks[..|chunks|] == chunks;
    }

    /** The end of a chunk: what is left has to be short enough. */
    method Keep(tail: seq<Byte>)
      requires Valid() && !destroyed && OneLine(tail)
      modifies `chunks, `totalLen, `destroyed, `received
      ensures Valid() && received == old(received) + tail
      ensures destroyed <==> |Partial(received)| > MAX_LINE
    {
      hide Complete, Partial, Flatten, OneLine;
      MoreOfLine(received, tail);
      FlattenNone();
      Push(tail);
      received := received + tail;
      if totalLen > MAX_LINE {
        totalLen := 0;
        chunks := [];
        destroyed := true;
      }
    }

    /** The handler of a chunk. */
    method Data(raw: seq<Byte>)
      requires Valid() && !destroyed
      modifies this
      ensures Valid() && received == old(received) + raw
      ensures destroyed <==> |Partial(received)| > MAX_LINE
    {
      hide Complete, Partial, Flatten, OneLine;
      var scanStart: nat := 0;
      assert received + raw[..0] == received;
      while true
        invariant Valid() && !destroyed && scanStart <= |raw| && (scanStart < |raw| || scanStart == 0)
        invariant received == old(received) + raw[..scanStart]
        decreases |raw| - scanStart
      {
        var nlPos := IndexOf(raw, scanStart);
        if nlPos == -1 {
          assert raw[..scanStart] + raw[scanStart..] == raw;
          Keep(raw[scanStart..]);
          break;
        }
        Dispatch(raw[scanStart..nlPos]);
        assert raw[..scanStart] + raw[scanStart..nlPos] + [raw[nlPos]] == raw[..nlPos + 1];
        scanStart := nlPos + 1;
        if scanStart >= |raw| {
          assert raw[..scanStart] == raw;
          FlattenNone();
          break;
        }
      }
    }
  }

  lemma NothingBegun()
    ensures Partial([]) == []
  {
  }

  lemma FlattenNone()
    ensures Flatten([]) == []
  {
  }

  /** What a connection has received when it has not been closed for a line that is too long. */
  ghost predicate Survives(chunks: seq<seq<Byte>>) {
    forall k :: 0 <= k <= |chunks| ==> |Partial(Flatten(chunks[..k]))| <= MAX_LINE
  }

  /** However a stream is cut into chunks, the lines passed on are the ones it completes, and what
      is kept is the one that it has begun, unless one is too long at the end of a chunk. */
  method Feed(chunks: seq<seq<Byte>>) returns (s: Splitter)
    ensures fresh(s) && s.Valid() && (s.destroyed <==> !Survives(chunks))
    ensures !s.destroyed ==> s.lines == Complete(Flatten(chunks)) && Flatten(s.chunks) == Partial(Flatten(chunks))
  {
    hide Complete, Partial, Flatten;
    FlattenNone();
    NothingBegun();
    s := new Splitter();
    var i := 0;
    while i < |chunks| && !s.destroyed
      invariant fresh(s) && s.Valid() && 0 <= i <= |chunks| && s.received == Flatten(chunks[..i])
      invariant s.destroyed <==> |Partial(Flatten(chunks[..i]))| > MAX_LINE
      invariant forall k :: 0 <= k < i ==> |Partial(Flatten(chunks[..k]))| <= MAX_LINE
    {
      assert chunks[..i + 1] == chunks[..i] + [chunks[i]];
      FlattenMore(chunks[..i], chunks[i]);
      s.Data(chunks[i]);
      i := i + 1;
    }
    if !s.destroyed {
      assert chunks[..|chunks|] == chunks;
    }
  }
}

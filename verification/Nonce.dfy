/** The nonce space of a link, as it is handed out in ranges, and the ledger of who owns what. */
module Nonce {
  import opened Options

  const NONCE_SPACE := 0x1_0000_0000
  const LAST_NONCE := 0xFFFF_FFFF
  const NICEHASH_SPAN := 0x100_0000
  const NICEHASH_SLOTS := 256

  datatype Segment = Segment(base: nat, size: nat)

  datatype Grant = Grant(start: nat, limit: nat)

  predicate InGrant(g: Grant, n: nat) {
    g.start <= n < g.limit
  }

  /** A space: its segments, and how much of them is taken: all before index, and the first
      `cursor` nonces of the one at index. */
  datatype Space = Space(segments: seq<Segment>, index: nat, cursor: nat)

  function NonEmpty(segments: seq<Segment>): (r: seq<Segment>)
    ensures forall i :: 0 <= i < |r| ==> r[i].size > 0 && r[i] in segments
    ensures forall s :: s in segments && s.size > 0 ==> s in r
  {
    if segments == [] then []
    else (if segments[0].size > 0 then [segments[0]] else []) + NonEmpty(segments[1..])
  }

  function CreateSpace(segments: seq<Segment>): (s: Space)
    ensures Sized(s)
  {
    Space(NonEmpty(segments), 0, 0)
  }

  const FULL_SPACE := CreateSpace([Segment(0, NONCE_SPACE)])

  /** Segments inside the 32-bit nonces that do not overlap. */
  ghost predicate Separate(segments: seq<Segment>) {
    && (forall i :: 0 <= i < |segments| ==> segments[i].base + segments[i].size <= NONCE_SPACE)
    && (forall i, j :: 0 <= i < j < |segments| ==> Beside(segments[i], segments[j]))
  }

  ghost predicate Proper(s: Space) {
    Separate(s.segments) && Sized(s)
  }

  predicate Sized(s: Space) {
    s.index <= |s.segments| && (s.index < |s.segments| ==> s.cursor <= s.segments[s.index].size)
  }

  predicate Beside(a: Segment, b: Segment) {
    a.base + a.size <= b.base || b.base + b.size <= a.base
  }

  /** Where the nonces of a segment that are not taken start. */
  function Start(s: Space, i: nat): nat
    requires i < |s.segments|
  {
    s.segments[i].base + if i == s.index then s.cursor else 0
  }

  predicate FreeIn(s: Space, i: nat, n: nat)
    requires i < |s.segments|
  {
    s.index <= i && Start(s, i) <= n < s.segments[i].base + s.segments[i].size
  }

  /** Whether a nonce is still to be handed out. */
  ghost predicate Free(s: Space, n: nat) {
    exists i: nat :: i < |s.segments| && FreeIn(s, i, n)
  }

  /** Math.max(1, Math.floor(count)) */
  function Wanted(count: real): (n: nat)
    ensures n >= 1
  {
    if count.Floor < 1 then 1 else count.Floor
  }

  /** What `take` hands out, and the space it leaves. */
  function Taken(s: Space, count: real): (r: (Space, Option<Grant>))
    requires Sized(s)
    ensures Sized(r.0)
    decreases |s.segments| - s.index, if s.index < |s.segments| then s.segments[s.index].size - s.cursor else 0
  {
    if s.index == |s.segments| then (s, None)
    else
      var seg := s.segments[s.index];
      var left := seg.size - s.cursor;
      if left <= 0 then Taken(s.(index := s.index + 1, cursor := 0), count)
      else
        var size := if Wanted(count) < left then Wanted(count) else left;
        var start := seg.base + s.cursor;
        var s' := s.(cursor := s.cursor + size);
        var limit := if start + size < LAST_NONCE then start + size else LAST_NONCE;
        if limit > start then (s', Some(Grant(start, limit))) else Taken(s', count)
  }

  /** What one call of `take` does to every nonce. The last 32-bit nonce is never granted, but is
      taken off the space. What is granted cannot be granted again when the segments are apart. */
  ghost predicate TakeEffect(s: Space, s': Space, g: Option<Grant>) {
    && Shrinks(s, s')
    && match g
       case None => forall n: nat :: !Free(s', n) && (Free(s, n) ==> n >= LAST_NONCE)
       case Some(g) =>
         && g.start < g.limit <= LAST_NONCE
         && (forall n: nat :: InGrant(g, n) ==> Free(s, n) && (Separate(s.segments) ==> !Free(s', n)))
         && (forall n: nat :: n < LAST_NONCE && Free(s, n) ==> InGrant(g, n) || Free(s', n))
  }

  ghost predicate Shrinks(s: Space, s': Space) {
    Sized(s') && s'.segments == s.segments && forall n: nat :: Free(s', n) ==> Free(s, n)
  }

  /** The segment at hand: the first one with nonces to be had. */
  ghost predicate AtHand(s: Space, i: nat) {
    && s.index <= i < |s.segments|
    && Start(s, i) < LAST_NONCE && Start(s, i) < s.segments[i].base + s.segments[i].size
    && forall k: nat, n: nat :: k < i && FreeIn(s, k, n) ==> n >= LAST_NONCE
  }

  /** As many nonces as asked for, and at least one, from the first that is left of the segment at
      hand on; fewer only when the range ends with the segment, or before the last 32-bit nonce. */
  ghost predicate AskedFor(s: Space, g: Grant, count: real) {
    exists i: nat :: AtHand(s, i) && AskedOf(s, i, g, if count < 2.0 then 1 else count.Floor)
  }

  predicate AskedOf(s: Space, i: nat, g: Grant, asked: int)
    requires i < |s.segments|
  {
    var end := s.segments[i].base + s.segments[i].size;
    && g.start == Start(s, i) && g.start < g.limit <= end && g.limit <= LAST_NONCE
    && g.limit - g.start <= asked && (g.limit - g.start == asked || g.limit == end || g.limit == LAST_NONCE)
  }

  /** What was at hand in a space that has lost nothing but the last nonce was at hand before. */
  lemma AtHandBefore(s: Space, s1: Space, g: Grant, count: real)
    requires s1 == Skipped(s) || (s.index < |s.segments| && exists n: nat :: s1 == Moved(s, n))
    requires s.index < |s.segments| && forall n: nat :: FreeIn(s, s.index, n) ==> n >= LAST_NONCE
    requires s1.index == s.index ==> s1.cursor >= s.cursor
    requires AskedFor(s1, g, count)
    ensures AskedFor(s, g, count)
  {
    var asked := if count < 2.0 then 1 else count.Floor;
    var i: nat :| AtHand(s1, i) && AskedOf(s1, i, g, asked);
    if i == s.index {
      assert FreeIn(s, i, Start(s1, i));
    }
    forall k: nat, n: nat | k < i && FreeIn(s, k, n) ensures n >= LAST_NONCE {
      if k != s.index {
        assert FreeIn(s1, k, n);
      }
    }
    assert AtHand(s, i) && AskedOf(s, i, g, asked);
  }

  /** The branch that grants takes as many as asked for. */
  lemma GrantSize(s: Space, count: real)
    requires Sized(s) && s.index < |s.segments| && s.cursor < s.segments[s.index].size
    requires Start(s, s.index) < LAST_NONCE
    ensures var (left, start) := (s.segments[s.index].size - s.cursor, Start(s, s.index));
            var size := if Wanted(count) < left then Wanted(count) else left;
            AskedFor(s, Grant(start, if start + size < LAST_NONCE then start + size else LAST_NONCE), count)
  {
    assert AtHand(s, s.index);
  }

  function Skipped(s: Space): Space {
    s.(index := s.index + 1, cursor := 0)
  }

  lemma SkipSegment(s: Space)
    requires Sized(s) && s.index < |s.segments| && s.cursor == s.segments[s.index].size
    ensures Shrinks(s, Skipped(s)) && forall n: nat :: Free(s, n) ==> Free(Skipped(s), n)
  {
    var s' := Skipped(s);
    forall n: nat ensures Free(s', n) <==> Free(s, n) {
      if Free(s, n) {
        var i: nat :| i < |s.segments| && FreeIn(s, i, n);
        assert FreeIn(s', i, n);
      }
      if Free(s', n) {
        var i: nat :| i < |s.segments| && FreeIn(s', i, n);
        assert FreeIn(s, i, n);
      }
    }
  }

  function Moved(s: Space, size: nat): Space {
    s.(cursor := s.cursor + size)
  }

  /** The nonces that moving the cursor passes. */
  predicate Passed(s: Space, size: nat, n: nat)
    requires s.index < |s.segments|
  {
    Start(s, s.index) <= n < Start(s, s.index) + size
  }

  /** Moving the cursor takes the nonces that it passes, which no other segment has if they are apart. */
  lemma MoveCursor(s: Space, size: nat)
    requires Sized(s) && s.index < |s.segments| && s.cursor + size <= s.segments[s.index].size
    ensures Shrinks(s, Moved(s, size))
    ensures forall n: nat :: Free(s, n) ==> Passed(s, size, n) || Free(Moved(s, size), n)
    ensures forall n: nat :: Passed(s, size, n) ==> Free(s, n)
    ensures Separate(s.segments) ==> forall n: nat :: Passed(s, size, n) ==> !Free(Moved(s, size), n)
  {
    var s' := Moved(s, size);
    forall n: nat | Free(s, n) && !Passed(s, size, n) ensures Free(s', n) {
      var i: nat :| i < |s.segments| && FreeIn(s, i, n);
      assert FreeIn(s', i, n);
    }
    forall n: nat | Passed(s, size, n) ensures Free(s, n) {
      assert FreeIn(s, s.index, n);
    }
    forall n: nat | Free(s', n) ensures Free(s, n) && (Separate(s.segments) ==> !Passed(s, size, n)) {
      var i: nat :| i < |s.segments| && FreeIn(s', i, n);
      assert FreeIn(s, i, n);
      assert Separate(s.segments) && i > s.index ==> Beside(s.segments[s.index], s.segments[i]);
    }
  }

  /** What is done to a space that has lost nothing but the last nonce is done to the space itself. */
  lemma AfterLoss(s: Space, s1: Space, s2: Space, g: Option<Grant>)
    requires Shrinks(s, s1) && TakeEffect(s1, s2, g)
    requires forall n: nat :: n < LAST_NONCE && Free(s, n) ==> Free(s1, n)
    ensures TakeEffect(s, s2, g)
  {
    hide Free, Separate, Sized, InGrant;
  }

  /** The branch that grants. */
  lemma GrantDoes(s: Space, size: nat)
    requires Sized(s) && s.index < |s.segments| && 0 < size && s.cursor + size <= s.segments[s.index].size
    requires Start(s, s.index) < LAST_NONCE
    ensures var start := Start(s, s.index);
            var limit := if start + size < LAST_NONCE then start + size else LAST_NONCE;
            TakeEffect(s, Moved(s, size), Some(Grant(start, limit)))
  {
    MoveCursor(s, size);
    hide Free, Separate, Sized, Start, Moved;
  }

  lemma {:induction false} TakeDoes(s: Space, count: real)
    requires Sized(s)
    ensures var (s', g) := Taken(s, count); TakeEffect(s, s', g)
    decreases |s.segments| - s.index, if s.index < |s.segments| then s.segments[s.index].size - s.cursor else 0
  {
    hide Free, TakeEffect, Shrinks;
    if s.index == |s.segments| {
      NothingFree(s);
    } else if s.segments[s.index].size - s.cursor <= 0 {
      SkipSegment(s);
      SkippedIsSized(s);
      TakeDoes(Skipped(s), count);
      AfterLoss(s, Skipped(s), Taken(s, count).0, Taken(s, count).1);
    } else {
      var left := s.segments[s.index].size - s.cursor;
      var size := if Wanted(count) < left then Wanted(count) else left;
      if Start(s, s.index) < LAST_NONCE {
        GrantDoes(s, size);
      } else {
        MoveCursor(s, size);
        TakeDoes(Moved(s, size), count);
        AfterLoss(s, Moved(s, size), Taken(s, count).0, Taken(s, count).1);
      }
    }
  }

  lemma {:induction false} TakesAsked(s: Space, count: real)
    requires Sized(s)
    ensures var g := Taken(s, count).1; g.Some? ==> AskedFor(s, g.value, count)
    decreases |s.segments| - s.index, if s.index < |s.segments| then s.segments[s.index].size - s.cursor else 0
  {
    hide AskedFor;
    var g := Taken(s, count).1;
    if s.index < |s.segments| && g.Some? {
      var left := s.segments[s.index].size - s.cursor;
      var size := if Wanted(count) < left then Wanted(count) else left;
      if left <= 0 {
        TakesAsked(Skipped(s), count);
        AtHandBefore(s, Skipped(s), g.value, count);
      } else if Start(s, s.index) < LAST_NONCE {
        GrantSize(s, count);
      } else {
        TakesAsked(Moved(s, size), count);
        AtHandBefore(s, Moved(s, size), g.value, count);
      }
    }
  }

  lemma SkippedIsSized(s: Space)
    requires s.index < |s.segments|
    ensures Sized(Skipped(s))
  {
  }

  lemma NothingFree(s: Space)
    requires Sized(s) && s.index == |s.segments|
    ensures TakeEffect(s, s, None)
  {
    assert forall n: nat :: !Free(s, n);
  }

  class NonceSpace {
    var index: nat
    var cursor: nat
    var segments: seq<Segment>

    predicate Valid()
      reads `index, `cursor, `segments
    {
      Sized(Value())
    }

    function Value(): Space
      reads `index, `cursor, `segments
    {
      Space(segments, index, cursor)
    }

    constructor (given: seq<Segment>)
      ensures Valid() && Value() == CreateSpace(given)
    {
      segments, index, cursor := NonEmpty(given), 0, 0;
    }

    method Take(count: real) returns (g: Option<Grant>)
      requires Valid()
      modifies `index, `cursor
      ensures Valid() && segments == old(segments) && (Value(), g) == Taken(old(Value()), count)
      ensures TakeEffect(old(Value()), Value(), g)
      ensures g.Some? ==> AskedFor(old(Value()), g.value, count)
    {
      hide TakeEffect, AskedFor;
      TakeDoes(Value(), count);
      TakesAsked(Value(), count);
      ghost var start := Value();
      while index < |segments|
        modifies `index, `cursor
        invariant Sized(Value()) && Taken(Value(), count) == Taken(start, count)
        decreases |segments| - index, if index < |segments| then segments[index].size - cursor else 0
      {
        var segment := segments[index];
        var left := segment.size - cursor;
        if left <= 0 {
          index, cursor := index + 1, 0;
          continue;
        }
        var size := if Wanted(count) < left then Wanted(count) else left;
        var from := segment.base + cursor;
        cursor := cursor + size;
        var limit := if from + size < LAST_NONCE then from + size else LAST_NONCE;
        if limit > from {
          return Some(Grant(from, limit));
        }
      }
      g := None;
    }
  }
}

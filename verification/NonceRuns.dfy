/** What handing out one space does over a whole run between two jobs. */
module NonceRuns {
  import opened Arithmetic
  import opened Nonce
  import opened Options

  const MIN_CHUNK := 4096.0
  const MAX_CHUNK := 268435456.0
  const CHUNK_SECONDS := 20.0

  function Max(a: real, b: real): real { if a < b then b else a }

  function Min(a: real, b: real): real { if b < a then b else a }

  function Ceil(x: real): real { -((-x).Floor as real) }

  /** The seconds of work that a chunk is to last for. */
  function Window(deadline: real): (w: real)
    ensures 1.0 <= w <= CHUNK_SECONDS && (1.0 <= deadline ==> w <= deadline)
  {
    Max(1.0, Min(CHUNK_SECONDS, deadline))
  }

  /** Above the least size a chunk is within the miner's share and lasts for less than one nonce more
      than the window; a chunk below both bounds of its size lasts for the whole window. */
  function ChunkSize(hashrate: real, share: real, deadline: real): (size: real)
    ensures MIN_CHUNK <= size <= MAX_CHUNK
    ensures var rate := if hashrate > 0.0 then hashrate else 1000.0;
            && (size > MIN_CHUNK ==> size <= share && size < rate * Window(deadline) + 1.0)
            && (size < MAX_CHUNK && size < share ==> size >= rate * Window(deadline))
  {
    var rate := if hashrate > 0.0 then hashrate else 1000.0;
    Max(MIN_CHUNK, Min(Min(MAX_CHUNK, Ceil(rate * Window(deadline))), Max(share, MIN_CHUNK)))
  }

  function Total(segments: seq<Segment>): nat {
    if segments == [] then 0 else Total(segments[..|segments| - 1]) + segments[|segments| - 1].size
  }

  /** The rate that a space lasts for, between jobs that many milliseconds apart. */
  function Capacity(segments: seq<Segment>, interval: real): (rate: real)
    ensures rate >= 0.0
  {
    Total(segments) as real / Max(0.5, interval / 1000.0)
  }

  /** The nonces left from segment k on. */
  function LeftFrom(s: Space, k: nat): nat
    requires Sized(s) && s.index <= k <= |s.segments|
    decreases |s.segments| - k
  {
    if k == |s.segments| then 0
    else s.segments[k].size - (if k == s.index then s.cursor else 0) + LeftFrom(s, k + 1)
  }

  method SpaceLeft(s: Space) returns (left: nat)
    requires Sized(s)
    ensures left == LeftFrom(s, s.index)
  {
    left := 0;
    for i := s.index to |s.segments|
      invariant left + LeftFrom(s, i) == LeftFrom(s, s.index)
    {
      left := left + s.segments[i].size - (if i == s.index then s.cursor else 0);
    }
  }

  ghost predicate FreeFrom(s: Space, k: nat, n: nat) {
    exists i: nat :: k <= i < |s.segments| && FreeIn(s, i, n)
  }

  ghost function Interval(a: nat, b: nat): (r: set<nat>)
    requires a <= b
    ensures |r| == b - a && forall n: nat :: n in r <==> a <= n < b
    decreases b - a
  {
    if a == b then {} else Interval(a + 1, b) + {a}
  }

  ghost function FreeSet(s: Space, k: nat): (r: set<nat>)
    requires Proper(s) && s.index <= k <= |s.segments|
    ensures forall n: nat :: n in r <==> FreeFrom(s, k, n)
    ensures |r| == LeftFrom(s, k)
    decreases |s.segments| - k
  {
    if k == |s.segments| then {}
    else
      var first, rest := Interval(Start(s, k), s.segments[k].base + s.segments[k].size), FreeSet(s, k + 1);
      FreeParts(s, k);
      assert first !! rest;
      first + rest
  }

  /** The free nonces of one segment, and those of later ones. */
  lemma FreeParts(s: Space, k: nat)
    requires Proper(s) && s.index <= k < |s.segments|
    ensures forall n: nat :: FreeFrom(s, k, n) <==> FreeIn(s, k, n) || FreeFrom(s, k + 1, n)
    ensures forall n: nat :: FreeFrom(s, k + 1, n) ==> !FreeIn(s, k, n)
  {
    forall n: nat | FreeFrom(s, k + 1, n) ensures FreeFrom(s, k, n) && !FreeIn(s, k, n) {
      var i: nat :| k + 1 <= i < |s.segments| && FreeIn(s, i, n);
      assert Beside(s.segments[k], s.segments[i]);
    }
    forall n: nat | FreeIn(s, k, n) ensures FreeFrom(s, k, n) {
    }
    forall n: nat | FreeFrom(s, k, n) && !FreeIn(s, k, n) ensures FreeFrom(s, k + 1, n) {
      var i: nat :| k <= i < |s.segments| && FreeIn(s, i, n);
    }
  }

  /** spaceLeft counts the free nonces, and is zero exactly when there are none. */
  lemma LeftIsFree(s: Space)
    requires Proper(s)
    ensures LeftFrom(s, s.index) == |FreeSet(s, s.index)|
    ensures forall n: nat :: n in FreeSet(s, s.index) <==> Free(s, n)
    ensures LeftFrom(s, s.index) == 0 <==> forall n: nat :: !Free(s, n)
  {
    forall n: nat ensures n in FreeSet(s, s.index) <==> Free(s, n) {
      if Free(s, n) {
        var i: nat :| i < |s.segments| && FreeIn(s, i, n);
        assert s.index <= i;
      }
    }
    if forall n: nat :: !Free(s, n) {
      assert FreeSet(s, s.index) == {};
    }
  }

  // A run on one space: grants to any miners, for any counts

  datatype Issued = Issued(miner: nat, grant: Grant)

  /** One call for a range, as attaching, asking for a chunk and migrating make it. */
  datatype Call = Call(miner: nat, count: real)

  function Run(start: Space, calls: seq<Call>): (r: (Space, seq<Issued>))
    requires Sized(start)
    ensures Sized(r.0)
  {
    if calls == [] then (start, [])
    else
      var n := |calls| - 1;
      var (s, issued) := Run(start, calls[..n]);
      var (s', g) := Taken(s, calls[n].count);
      (s', if g.Some? then issued + [Issued(calls[n].miner, g.value)] else issued)
  }

  lemma LastGrants(start: Space, calls: seq<Call>, g: Grant)
    requires Sized(start) && calls != []
    requires var n := |calls| - 1; Taken(Run(start, calls[..n]).0, calls[n].count).1 == Some(g)
    ensures var n := |calls| - 1; var (s, issued) := Run(start, calls[..n]);
            Run(start, calls) == (Taken(s, calls[n].count).0, issued + [Issued(calls[n].miner, g)])
  {
  }

  /** No nonce is in two of the ranges. */
  ghost predicate Exclusive(issued: seq<Issued>) {
    forall i, j, n: nat ::
      0 <= i < j < |issued| && InGrant(issued[i].grant, n) ==> !InGrant(issued[j].grant, n)
  }

  /** What has been handed out and what is left divide the space among them. */
  ghost predicate Divided(start: Space, s: Space, issued: seq<Issued>) {
    && Proper(s)
    && (forall i :: 0 <= i < |issued| ==> issued[i].grant.start < issued[i].grant.limit <= LAST_NONCE)
    && (forall i, n: nat :: 0 <= i < |issued| && InGrant(issued[i].grant, n) ==> Free(start, n) && !Free(s, n))
    && Exclusive(issued)
    && (forall n: nat :: Free(s, n) ==> Free(start, n))
    && (forall n: nat :: n < LAST_NONCE && Free(start, n) ==> Free(s, n) || IsIssued(issued, n))
  }

  ghost predicate IsIssued(issued: seq<Issued>, n: nat) {
    exists i :: 0 <= i < |issued| && InGrant(issued[i].grant, n)
  }

  lemma IssueOne(start: Space, s: Space, s': Space, issued: seq<Issued>, miner: nat, g: Grant)
    requires Divided(start, s, issued) && TakeEffect(s, s', Some(g))
    ensures Divided(start, s', issued + [Issued(miner, g)])
  {
    var more := issued + [Issued(miner, g)];
    forall n: nat | n < LAST_NONCE && Free(start, n) ensures Free(s', n) || IsIssued(more, n) {
      if IsIssued(issued, n) {
        var i :| 0 <= i < |issued| && InGrant(issued[i].grant, n);
        assert InGrant(more[i].grant, n);
      } else if InGrant(g, n) {
        assert InGrant(more[|issued|].grant, n);
      }
    }
  }

  /** Over any run on one space the ranges are non-empty, disjoint and inside the space, and
      together with what is left they make up the space, but for the last nonce. */
  lemma {:induction false} RangesAreExclusive(start: Space, calls: seq<Call>)
    requires Proper(start)
    ensures var (s, issued) := Run(start, calls); Divided(start, s, issued)
  {
    if calls != [] {
      hide Divided, Taken, TakeEffect, Separate;
      var n := |calls| - 1;
      RangesAreExclusive(start, calls[..n]);
      var (s, issued) := Run(start, calls[..n]);
      var (s', g) := Taken(s, calls[n].count);
      TakeDoes(s, calls[n].count);
      match g
      case Some(grant) => IssueOne(start, s, s', issued, calls[n].miner, grant);
      case None => IssueNone(start, s, s', issued);
    }
  }

  lemma IssueNone(start: Space, s: Space, s': Space, issued: seq<Issued>)
    requires Divided(start, s, issued) && TakeEffect(s, s', None)
    ensures Divided(start, s', issued)
  {
  }

  lemma FullSpaceIs()
    ensures FULL_SPACE.segments == [Segment(0, NONCE_SPACE)] && Proper(FULL_SPACE)
    ensures forall n: nat :: Free(FULL_SPACE, n) <==> n < NONCE_SPACE
  {
    assert NonEmpty([Segment(0, NONCE_SPACE)]) == [Segment(0, NONCE_SPACE)];
    forall n: nat | n < NONCE_SPACE ensures Free(FULL_SPACE, n) {
      assert FreeIn(FULL_SPACE, 0, n);
    }
  }

  /** On a link without a nonce byte of its own, every run hands out disjoint ranges, and every
      nonce but the last is handed out or left. */
  lemma FullSpaceIsShared(calls: seq<Call>, n: nat)
    requires n < LAST_NONCE
    ensures var (s, issued) := Run(FULL_SPACE, calls);
            && (Free(s, n) <==> !IsIssued(issued, n))
            && Exclusive(issued)
  {
    hide Free;
    FullSpaceIs();
    RangesAreExclusive(FULL_SPACE, calls);
  }
}

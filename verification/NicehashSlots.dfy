/** How links that a pool gives one nonce byte each share out the bytes that nobody has. */
module NicehashSlots {
  import opened Arithmetic
  import opened Nonce
  import NonceRuns
  import opened Options

  /** nicehashSpace: one span of nonces for the slot and for each extra slot. */
  function NicehashSegments(slots: seq<nat>): (r: seq<Segment>)
    ensures |r| == |slots| && forall i :: 0 <= i < |r| ==> r[i] == Segment(slots[i] * NICEHASH_SPAN, NICEHASH_SPAN)
  {
    seq(|slots|, i requires 0 <= i < |slots| => Segment(slots[i] * NICEHASH_SPAN, NICEHASH_SPAN))
  }

  function SlotSpace(slots: seq<nat>): (s: Space)
    ensures Sized(s)
  {
    CreateSpace(NicehashSegments(slots))
  }

  function NicehashSpace(slot: nat, extra: seq<nat>): Space {
    SlotSpace([slot] + extra)
  }

  /** The slots below n that no link owns. */
  function FreeSlots(owned: set<nat>, n: nat): (r: seq<nat>)
    ensures forall x: nat :: x in r <==> x < n && x !in owned
    ensures forall i :: 0 <= i < |r| ==> r[i] < n
    ensures forall i, j :: 0 <= i < j < |r| ==> r[i] < r[j]
  {
    if n == 0 then []
    else
      var r := FreeSlots(owned, n - 1);
      assert forall x: nat :: x in r + [n - 1] <==> x in r || x == n - 1;
      if n - 1 in owned then r else r + [n - 1]
  }

  /** Every count-th of some slots, from position i on. */
  function Share(slots: seq<nat>, count: nat, i: nat): (r: seq<nat>)
    requires i < count
    ensures forall x :: x in r <==> exists k :: 0 <= k < |slots| && k % count == i && slots[k] == x
  {
    if slots == [] then []
    else
      var n := |slots| - 1;
      var r := Share(slots[..n], count, i);
      var r' := if n % count == i then r + [slots[n]] else r;
      ShareExtends(slots, count, i, r);
      r'
  }

  lemma ShareExtends(slots: seq<nat>, count: nat, i: nat, r: seq<nat>)
    requires slots != [] && i < count
    requires forall x :: x in r <==> exists k :: 0 <= k < |slots| - 1 && k % count == i && slots[..|slots| - 1][k] == x
    ensures var n := |slots| - 1; var r' := if n % count == i then r + [slots[n]] else r;
            forall x :: x in r' <==> exists k :: 0 <= k < |slots| && k % count == i && slots[k] == x
  {
    var n := |slots| - 1;
    var r' := if n % count == i then r + [slots[n]] else r;
    forall x ensures x in r' <==> exists k :: 0 <= k < |slots| && k % count == i && slots[k] == x {
      if x in r {
        var k :| 0 <= k < n && k % count == i && slots[..n][k] == x;
        assert slots[k] == x;
      }
      if k :| 0 <= k < |slots| && k % count == i && slots[k] == x {
        assert k < n ==> slots[..n][k] == x;
      }
    }
  }

  /** Links that own slots: each has one of its own. */
  ghost predicate Owners(nice: seq<nat>) {
    && (forall i :: 0 <= i < |nice| ==> 0 < nice[i] < NICEHASH_SLOTS)
    && Distinct(nice)
  }

  function OwnedSlots(nice: seq<nat>): (r: set<nat>)
    ensures forall x :: x in r <==> x in nice
  {
    set x | x in nice
  }

  /** The extra slots of the link at position i of those that own slots. */
  function Extra(nice: seq<nat>, i: nat): seq<nat>
    requires i < |nice|
  {
    Share(FreeSlots(OwnedSlots(nice), NICEHASH_SLOTS), |nice|, i)
  }

  /** A nonce is in a nicehash space exactly when its highest byte is one of the slots. */
  lemma SlotOfNonce(slots: seq<nat>, n: nat)
    ensures Free(SlotSpace(slots), n) <==> n / NICEHASH_SPAN in slots
  {
    var s := SlotSpace(slots);
    if Free(s, n) {
      var i: nat :| i < |s.segments| && FreeIn(s, i, n);
      assert s.segments[i] in NicehashSegments(slots);
      var k :| 0 <= k < |slots| && NicehashSegments(slots)[k] == s.segments[i];
      assert slots[k] == n / NICEHASH_SPAN;
    }
    if n / NICEHASH_SPAN in slots {
      var k :| 0 <= k < |slots| && slots[k] == n / NICEHASH_SPAN;
      var seg := NicehashSegments(slots)[k];
      assert seg in NicehashSegments(slots) && seg in s.segments;
      var i: nat :| i < |s.segments| && s.segments[i] == seg;
      assert FreeIn(s, i, n);
    }
  }

  /** Whether the link at position i hands out a nonce after reslicing. */
  ghost predicate Hands(nice: seq<nat>, i: nat, n: nat)
    requires i < |nice|
  {
    Free(NicehashSpace(nice[i], Extra(nice, i)), n)
  }

  lemma HandsSlot(nice: seq<nat>, i: nat, n: nat)
    requires i < |nice|
    ensures Hands(nice, i, n) <==> n / NICEHASH_SPAN == nice[i] || n / NICEHASH_SPAN in Extra(nice, i)
  {
    hide FreeSlots, Share;
    SlotOfNonce([nice[i]] + Extra(nice, i), n);
  }

  /** Every free slot is the extra slot of one link. */
  lemma ExtraOwner(nice: seq<nat>, slot: nat, i: nat)
    requires Owners(nice) && slot < NICEHASH_SLOTS && i < |nice|
    ensures slot in nice ==> slot !in Extra(nice, i)
    ensures slot !in nice ==> exists k: nat ::
      slot in Extra(nice, k % |nice|) && forall j: nat :: j < |nice| && slot in Extra(nice, j) ==> j == k % |nice|
  {
    var free := FreeSlots(OwnedSlots(nice), NICEHASH_SLOTS);
    if slot !in nice {
      var k: nat :| k < |free| && free[k] == slot;
      assert slot in Extra(nice, k % |nice|);
      forall j: nat | j < |nice| && slot in Extra(nice, j) ensures j == k % |nice| {
        var m :| 0 <= m < |free| && m % |nice| == j && free[m] == slot;
        assert m == k;
      }
    }
  }

  /** After reslicing, every 32-bit nonce is handed out by exactly one of the links. */
  lemma SlotsTile(nice: seq<nat>, n: nat)
    requires Owners(nice) && nice != [] && n < NONCE_SPACE
    ensures exists i: nat ::
      i < |nice| && Hands(nice, i, n) && forall j: nat :: j < |nice| && Hands(nice, j, n) ==> j == i
  {
    hide FreeSlots, Share, Hands, Extra;
    var slot := n / NICEHASH_SPAN;
    assert slot < NICEHASH_SLOTS;
    forall j: nat | j < |nice| ensures Hands(nice, j, n) <==> slot == nice[j] || slot in Extra(nice, j) {
      HandsSlot(nice, j, n);
    }
    if slot in nice {
      var i: nat :| i < |nice| && nice[i] == slot;
      forall j: nat | j < |nice| ensures slot !in Extra(nice, j) {
        ExtraOwner(nice, slot, j);
      }
      assert Hands(nice, i, n);
    } else {
      ExtraOwner(nice, slot, 0);
      var k: nat :|
        slot in Extra(nice, k % |nice|) && forall j: nat :: j < |nice| && slot in Extra(nice, j) ==> j == k % |nice|;
      assert Hands(nice, k % |nice|, n);
    }
  }

  /** The slots of the links that own one, in order. */
  function Nice(slots: seq<nat>): seq<nat> {
    if slots == [] then []
    else
      var n := |slots| - 1;
      Nice(slots[..n]) + if slots[n] > 0 then [slots[n]] else []
  }

  /** The loop over all slots that collects the free ones. */
  method CollectFree(owned: set<nat>) returns (free: seq<nat>)
    ensures free == FreeSlots(owned, NICEHASH_SLOTS)
  {
    free := [];
    for slot := 0 to NICEHASH_SLOTS
      invariant free == FreeSlots(owned, slot)
    {
      if slot !in owned {
        free := free + [slot];
      }
    }
  }

  /** `free.filter((_, k) => k % count === i)` */
  method Filter(free: seq<nat>, count: nat, i: nat) returns (r: seq<nat>)
    requires i < count
    ensures r == Share(free, count, i)
  {
    r := [];
    for k := 0 to |free|
      invariant r == Share(free[..k], count, i)
    {
      assert free[..k + 1][..k] == free[..k];
      if k % count == i {
        r := r + [free[k]];
      }
    }
    assert free[..|free|] == free;
  }

  /** The rank of a link that owns a slot, among those that do. */
  function Rank(slots: seq<nat>, i: nat): nat
    requires i < |slots|
  {
    |Nice(slots[..i])|
  }

  lemma {:induction false} RankOfOwner(slots: seq<nat>, i: nat)
    requires i < |slots| && slots[i] > 0
    ensures Rank(slots, i) < |Nice(slots)| && Nice(slots)[Rank(slots, i)] == slots[i]
    decreases |slots|
  {
    var n := |slots| - 1;
    if i < n {
      assert slots[..n][..i] == slots[..i];
      RankOfOwner(slots[..n], i);
    }
  }

  /** The extra slots that reslicing gives a link that owns a slot. */
  function Resliced(slots: seq<nat>, i: nat, expand: bool): seq<nat>
    requires i < |slots| && slots[i] > 0
  {
    RankOfOwner(slots, i);
    if expand then Extra(Nice(slots), Rank(slots, i)) else []
  }

  method CollectNice(slots: seq<nat>) returns (nice: seq<nat>)
    ensures nice == Nice(slots)
  {
    nice := [];
    for i := 0 to |slots|
      invariant nice == Nice(slots[..i])
    {
      assert slots[..i + 1][..i] == slots[..i];
      if slots[i] > 0 {
        nice := nice + [slots[i]];
      }
    }
    assert slots[..|slots|] == slots;
  }

  lemma NiceOfNone()
    ensures Nice([]) == []
  {
  }

  lemma NextRank(slots: seq<nat>, i: nat)
    requires i < |slots|
    ensures |Nice(slots[..i + 1])| == Rank(slots, i) + if slots[i] > 0 then 1 else 0
    ensures Rank(slots, i) == |Nice(slots[..i])|
  {
    assert slots[..i + 1][..i] == slots[..i];
  }

  lemma ReslicedIs(slots: seq<nat>, i: nat, expand: bool)
    requires i < |slots| && slots[i] > 0
    ensures Rank(slots, i) < |Nice(slots)|
    ensures Resliced(slots, i, expand) == if expand
      then Share(FreeSlots(OwnedSlots(Nice(slots)), NICEHASH_SLOTS), |Nice(slots)|, Rank(slots, i)) else []
  {
    RankOfOwner(slots, i);
  }

  lemma {:induction false} NoneNice(slots: seq<nat>)
    requires Nice(slots) == []
    ensures forall i :: 0 <= i < |slots| ==> slots[i] == 0
  {
    if slots != [] {
      NoneNice(slots[..|slots| - 1]);
    }
  }

  // Every link's space, resliced, is one that ranges can be taken from

  ghost predicate Increasing(s: seq<nat>) {
    forall i, j :: 0 <= i < j < |s| ==> s[i] < s[j]
  }

  lemma {:induction false} ShareIncreases(slots: seq<nat>, count: nat, i: nat)
    requires i < count && Increasing(slots)
    ensures Increasing(Share(slots, count, i))
  {
    if slots != [] {
      var n := |slots| - 1;
      ShareIncreases(slots[..n], count, i);
      var r := Share(slots[..n], count, i);
      forall a | 0 <= a < |r| ensures r[a] < slots[n] {
        assert r[a] in r;
      }
    }
  }

  lemma {:induction false} AllNonEmpty(segments: seq<Segment>)
    requires forall i :: 0 <= i < |segments| ==> segments[i].size > 0
    ensures NonEmpty(segments) == segments
  {
    if segments != [] {
      AllNonEmpty(segments[1..]);
    }
  }

  predicate InByte(slots: seq<nat>) {
    forall i :: 0 <= i < |slots| ==> slots[i] < NICEHASH_SLOTS
  }

  lemma SlotSpaceIs(slots: seq<nat>)
    ensures SlotSpace(slots) == Space(NicehashSegments(slots), 0, 0)
  {
    AllNonEmpty(NicehashSegments(slots));
  }

  lemma SpansBeside(a: nat, b: nat)
    ensures Beside(Segment(a * NICEHASH_SPAN, NICEHASH_SPAN), Segment(b * NICEHASH_SPAN, NICEHASH_SPAN)) <==> a != b
  {
  }

  lemma SpansAreSeparate(slots: seq<nat>)
    requires InByte(slots)
    ensures Separate(NicehashSegments(slots)) <==> Distinct(slots)
  {
    hide Beside;
    var segments := NicehashSegments(slots);
    forall i, j | 0 <= i < j < |slots| ensures Beside(segments[i], segments[j]) <==> slots[i] != slots[j] {
      SpansBeside(slots[i], slots[j]);
    }
  }

  /** The spans are apart exactly when no slot is named twice. */
  lemma ProperExactly(slots: seq<nat>)
    requires InByte(slots)
    ensures Proper(SlotSpace(slots)) <==> Distinct(slots)
  {
    hide Separate, Distinct, NonEmpty;
    SlotSpaceIs(slots);
    SpansAreSeparate(slots);
  }

  /** All of a span but for the last 32-bit nonce. */
  function WholeSpan(slot: nat): Grant {
    var start := slot * NICEHASH_SPAN;
    Grant(start, if start + NICEHASH_SPAN < LAST_NONCE then start + NICEHASH_SPAN else LAST_NONCE)
  }

  /** The space when n spans are taken. */
  function AfterSpans(slots: seq<nat>, n: nat): (s: Space)
    requires n <= |slots|
    ensures Sized(s)
  {
    if n == 0 then Space(NicehashSegments(slots), 0, 0) else Space(NicehashSegments(slots), n - 1, NICEHASH_SPAN)
  }

  ghost predicate SpansGiven(slots: seq<nat>, issued: seq<NonceRuns.Issued>) {
    |issued| <= |slots| && forall k :: 0 <= k < |issued| ==> issued[k].grant == WholeSpan(slots[k])
  }

  lemma OneMoreSpan(slots: seq<nat>, issued: seq<NonceRuns.Issued>, miner: nat)
    requires SpansGiven(slots, issued) && |issued| < |slots|
    ensures SpansGiven(slots, issued + [NonceRuns.Issued(miner, WholeSpan(slots[|issued|]))])
  {
  }

  /** Calls that ask for a span each get one span after the other. */
  lemma {:induction false} SpansInOrder(slots: seq<nat>, calls: seq<NonceRuns.Call>)
    requires InByte(slots) && |calls| <= |slots|
    requires forall k :: 0 <= k < |calls| ==> calls[k].count == NICEHASH_SPAN as real
    ensures
      var (s, issued) := NonceRuns.Run(SlotSpace(slots), calls);
      s == AfterSpans(slots, |calls|) && |issued| == |calls| && SpansGiven(slots, issued)
  {
    hide Taken, WholeSpan, Sized, InByte;
    SlotSpaceIs(slots);
    if calls != [] {
      hide AfterSpans, SpansGiven, NonceRuns.Run, SlotSpace;
      var n := |calls| - 1;
      SpansInOrder(slots, calls[..n]);
      NextSpan(slots, n);
      NonceRuns.LastGrants(SlotSpace(slots), calls, WholeSpan(slots[n]));
      OneMoreSpan(slots, NonceRuns.Run(SlotSpace(slots), calls[..n]).1, calls[n].miner);
    }
  }

  lemma NextSpan(slots: seq<nat>, n: nat)
    requires InByte(slots) && n < |slots|
    ensures Taken(AfterSpans(slots, n), NICEHASH_SPAN as real) == (AfterSpans(slots, n + 1), Some(WholeSpan(slots[n])))
  {
    var s := Space(NicehashSegments(slots), n, 0);
    assert Wanted(NICEHASH_SPAN as real) == NICEHASH_SPAN;
    assert Taken(s, NICEHASH_SPAN as real) == (Moved(s, NICEHASH_SPAN), Some(WholeSpan(slots[n])));
  }

  /** The ranges of every run are disjoint exactly when no slot is named twice. */
  lemma ExclusiveExactly(slots: seq<nat>)
    requires InByte(slots)
    ensures Distinct(slots) <==> forall calls :: NonceRuns.Exclusive(NonceRuns.Run(SlotSpace(slots), calls).1)
  {
    hide SlotSpace, NonceRuns.Run;
    if Distinct(slots) {
      ProperExactly(slots);
      forall calls ensures NonceRuns.Exclusive(NonceRuns.Run(SlotSpace(slots), calls).1) {
        NonceRuns.RangesAreExclusive(SlotSpace(slots), calls);
      }
    } else {
      var i, j :| 0 <= i < j < |slots| && slots[i] == slots[j];
      var calls := seq(|slots|, _ => NonceRuns.Call(0, NICEHASH_SPAN as real));
      SpansInOrder(slots, calls);
      var issued := NonceRuns.Run(SlotSpace(slots), calls).1;
      var n := slots[i] * NICEHASH_SPAN;
      assert InGrant(issued[i].grant, n) && InGrant(issued[j].grant, n);
      assert !NonceRuns.Exclusive(issued);
    }
  }

  /** A job gives a link a space with separate segments exactly when the byte of the job is not one
      of the extra bytes that the link got before the job came. */
  lemma AcceptedIsProper(slot: nat, extra: seq<nat>)
    requires slot < NICEHASH_SLOTS && InByte(extra) && Distinct(extra)
    ensures Proper(NicehashSpace(slot, extra)) <==> slot !in extra
  {
    hide Proper, SlotSpace;
    var slots := [slot] + extra;
    ProperExactly(slots);
    if slot in extra {
      var k :| 0 <= k < |extra| && extra[k] == slot;
      assert slots[0] == slots[k + 1];
    } else {
      forall i, j | 0 <= i < j < |slots| ensures slots[i] != slots[j] {
        assert slots[j] == extra[j - 1] && extra[j - 1] in extra;
      }
    }
  }

  lemma NicehashIsProper(nice: seq<nat>, i: nat)
    requires Owners(nice) && i < |nice|
    ensures Proper(NicehashSpace(nice[i], Extra(nice, i)))
  {
    hide Extra, Proper;
    ExtraIsApart(nice, i);
    AcceptedIsProper(nice[i], Extra(nice, i));
  }

  lemma ExtraIsApart(nice: seq<nat>, i: nat)
    requires Owners(nice) && i < |nice|
    ensures Increasing(Extra(nice, i)) && nice[i] !in Extra(nice, i)
    ensures InByte(Extra(nice, i))
  {
    var free := FreeSlots(OwnedSlots(nice), NICEHASH_SLOTS);
    ShareIncreases(free, |nice|, i);
    ExtraOwner(nice, nice[i], i);
    forall k | 0 <= k < |Extra(nice, i)| ensures Extra(nice, i)[k] < NICEHASH_SLOTS {
      assert Extra(nice, i)[k] in Extra(nice, i);
    }
  }

  /** No nonce is granted on two resliced links, whatever their miners ask for. */
  lemma LinksAreExclusive(nice: seq<nat>, i: nat, j: nat,
      iCalls: seq<NonceRuns.Call>, jCalls: seq<NonceRuns.Call>, n: nat)
    requires Owners(nice) && i < |nice| && j < |nice| && i != j
    ensures
      var (iSpace, jSpace) := (NicehashSpace(nice[i], Extra(nice, i)), NicehashSpace(nice[j], Extra(nice, j)));
      !(NonceRuns.IsIssued(NonceRuns.Run(iSpace, iCalls).1, n)
        && NonceRuns.IsIssued(NonceRuns.Run(jSpace, jCalls).1, n))
  {
    hide Owners, NicehashSpace, Extra, NonceRuns.Run, Free;
    var (iSpace, jSpace) := (NicehashSpace(nice[i], Extra(nice, i)), NicehashSpace(nice[j], Extra(nice, j)));
    NicehashIsProper(nice, i);
    NicehashIsProper(nice, j);
    NonceRuns.RangesAreExclusive(iSpace, iCalls);
    NonceRuns.RangesAreExclusive(jSpace, jCalls);
    if NonceRuns.IsIssued(NonceRuns.Run(iSpace, iCalls).1, n)
      && NonceRuns.IsIssued(NonceRuns.Run(jSpace, jCalls).1, n) {
      assert Hands(nice, i, n) && Hands(nice, j, n);
      SlotsTile(nice, n);
    }
  }
}

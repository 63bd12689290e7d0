/** The ranges that a miner answers for: those of its current and its previous job. */
module Ledgers {
  import opened Nonce

  /** One call of `record`: a range, and the job it was granted for. */
  datatype Entry = Entry(job: string, range: Grant)

  /** Where the last run of records for one job starts. */
  function RunStart(history: seq<Entry>): (r: nat)
    ensures r <= |history| && (history != [] ==> r < |history|)
    ensures forall k :: r <= k < |history| ==> history[k].job == history[|history| - 1].job
    ensures r > 0 ==> history[r - 1].job != history[r].job
  {
    var n := |history|;
    if n <= 1 then 0
    else if history[n - 1].job == history[n - 2].job then RunStart(history[..n - 1])
    else n - 1
  }

  /** Where the run of records before the last one starts. */
  function PreviousStart(history: seq<Entry>): (r: nat)
    ensures r <= RunStart(history)
  {
    RunStart(history[..RunStart(history)])
  }

  /** Whether a nonce is in a range recorded from a up to b. */
  ghost predicate RecordedIn(history: seq<Entry>, a: nat, b: nat, n: nat)
    requires a <= b <= |history|
  {
    exists k :: a <= k < b && InGrant(history[k].range, n)
  }

  ghost predicate Covers(ranges: seq<Grant>, n: nat) {
    exists i :: 0 <= i < |ranges| && InGrant(ranges[i], n)
  }

  ghost predicate Solid(ranges: seq<Grant>) {
    forall i :: 0 <= i < |ranges| ==> ranges[i].start < ranges[i].limit
  }

  datatype Book = Book(job: string, prior: seq<Grant>, ranges: seq<Grant>)

  ghost predicate Owned(b: Book, n: nat) {
    Covers(b.ranges, n) || Covers(b.prior, n)
  }

  /** Adds a range at the end, or to the last one when it goes on where that one ends. */
  function Added(ranges: seq<Grant>, range: Grant): seq<Grant> {
    var n := |ranges|;
    if n > 0 && ranges[n - 1].limit == range.start then ranges[n - 1 := Grant(ranges[n - 1].start, range.limit)]
    else ranges + [range]
  }

  /** What the ledger is to keep of its history. */
  ghost predicate Keeps(b: Book, history: seq<Entry>) {
    && Solid(b.ranges)
    && b.job == (if history == [] then "" else history[|history| - 1].job)
    && (forall n: nat :: Covers(b.ranges, n) <==> RecordedIn(history, RunStart(history), |history|, n))
    && (forall n: nat :: Covers(b.prior, n) <==> RecordedIn(history, PreviousStart(history), RunStart(history), n))
  }

  lemma AddedCovers(ranges: seq<Grant>, range: Grant, n: nat)
    requires Solid(ranges) && range.start < range.limit
    ensures Solid(Added(ranges, range))
    ensures Covers(Added(ranges, range), n) <==> Covers(ranges, n) || InGrant(range, n)
  {
    var more, last := Added(ranges, range), |ranges| - 1;
    if Covers(more, n) {
      var i :| 0 <= i < |more| && InGrant(more[i], n);
      assert i < |ranges| && !InGrant(range, n) ==> InGrant(ranges[i], n);
    }
    if Covers(ranges, n) {
      var i :| 0 <= i < |ranges| && InGrant(ranges[i], n);
      assert InGrant(more[i], n);
    }
    if InGrant(range, n) {
      assert InGrant(more[|more| - 1], n);
    }
  }

  lemma RecordedMore(history: seq<Entry>, e: Entry, a: nat, n: nat)
    requires a <= |history|
    ensures RecordedIn(history + [e], a, |history| + 1, n) <==>
      RecordedIn(history, a, |history|, n) || InGrant(e.range, n)
  {
    var more := history + [e];
    if RecordedIn(history, a, |history|, n) {
      var k :| a <= k < |history| && InGrant(history[k].range, n);
      assert InGrant(more[k].range, n);
    }
    if InGrant(e.range, n) {
      assert InGrant(more[|history|].range, n);
    }
    if k :| a <= k < |more| && InGrant(more[k].range, n) {
      assert k < |history| ==> InGrant(history[k].range, n);
    }
  }

  lemma RecordedBefore(history: seq<Entry>, e: Entry, a: nat, b: nat, n: nat)
    requires a <= b <= |history|
    ensures RecordedIn(history + [e], a, b, n) <==> RecordedIn(history, a, b, n)
  {
    assert forall k :: a <= k < b ==> (history + [e])[k] == history[k];
  }

  /** A record for the same job makes the last run longer, one for another job starts a run. */
  lemma NextRun(history: seq<Entry>, e: Entry)
    ensures
      var same, more := history != [] && history[|history| - 1].job == e.job, history + [e];
      && RunStart(more) == (if same then RunStart(history) else |history|)
      && PreviousStart(more) == (if same then PreviousStart(history) else RunStart(history))
  {
    NextRunStart(history, e);
    CutBefore(history, e,
      if history != [] && history[|history| - 1].job == e.job then RunStart(history) else |history|);
  }

  lemma CutBefore(history: seq<Entry>, e: Entry, r: nat)
    requires r <= |history|
    ensures (history + [e])[..r] == history[..r] && history[..|history|] == history
  {
  }

  lemma NextRunStart(history: seq<Entry>, e: Entry)
    ensures RunStart(history + [e]) ==
      if history != [] && history[|history| - 1].job == e.job then RunStart(history) else |history|
  {
    assert (history + [e])[..|history|] == history;
  }

  function Recorded(b: Book, job: string, range: Grant): Book {
    if b.job != job then Book(job, b.ranges, [range]) else b.(ranges := Added(b.ranges, range))
  }

  lemma RecordKeeps(b: Book, history: seq<Entry>, job: string, range: Grant)
    requires Keeps(b, history) && range.start < range.limit
    ensures Keeps(Recorded(b, job, range), history + [Entry(job, range)])
  {
    hide RunStart, PreviousStart, Covers, RecordedIn, Added;
    var e, b' := Entry(job, range), Recorded(b, job, range);
    var more := history + [e];
    NextRun(history, e);
    SolidOne(range);
    forall n: nat
      ensures Covers(b'.ranges, n) <==> RecordedIn(more, RunStart(more), |more|, n)
      ensures Covers(b'.prior, n) <==> RecordedIn(more, PreviousStart(more), RunStart(more), n)
    {
      CoversOne(range, n);
      RecordedMore(history, e, RunStart(history), n);
      RecordedMore(history, e, |history|, n);
      RecordedNowhere(history, n);
      RecordedBefore(history, e, PreviousStart(history), RunStart(history), n);
      RecordedBefore(history, e, RunStart(history), |history|, n);
      AddedCovers(b.ranges, range, n);
    }
    SolidAdded(b.ranges, range);
  }

  lemma SolidOne(range: Grant)
    requires range.start < range.limit
    ensures Solid([range])
  {
  }

  lemma SolidAdded(ranges: seq<Grant>, range: Grant)
    requires Solid(ranges) && range.start < range.limit
    ensures Solid(Added(ranges, range))
  {
    AddedCovers(ranges, range, 0);
  }

  lemma CoversOne(range: Grant, n: nat)
    ensures Covers([range], n) <==> InGrant(range, n)
    ensures !Covers([], n)
  {
    assert [range][0] == range;
  }

  lemma RecordedNowhere(history: seq<Entry>, n: nat)
    ensures !RecordedIn(history, |history|, |history|, n)
    ensures RunStart([]) == 0 && !RecordedIn([], 0, 0, n)
  {
  }

  method FindIn(among: seq<Grant>, nonce: nat) returns (found: bool)
    ensures found <==> Covers(among, nonce)
  {
    var i := |among| - 1;
    while i >= 0
      invariant -1 <= i < |among|
      invariant forall k :: i < k < |among| ==> !InGrant(among[k], nonce)
    {
      if nonce >= among[i].start && nonce < among[i].limit {
        assert InGrant(among[i], nonce);
        return true;
      }
      i := i - 1;
    }
    found := false;
  }

  class Ledger {
    var job: string
    var prior: seq<Grant>
    var ranges: seq<Grant>
    ghost var history: seq<Entry>

    function Value(): Book
      reads `job, `prior, `ranges
    {
      Book(job, prior, ranges)
    }

    ghost predicate Valid()
      reads `job, `prior, `ranges, `history
    {
      Keeps(Value(), history)
    }

    constructor ()
      ensures Valid() && history == []
    {
      job, prior, ranges, history := "", [], [], [];
    }

    method Record(id: string, range: Grant)
      requires Valid() && range.start < range.limit
      modifies `job, `prior, `ranges, `history
      ensures Valid() && history == old(history) + [Entry(id, range)]
      ensures Value() == Recorded(old(Value()), id, range)
    {
      hide Keeps;
      ghost var b := Value();
      RecordKeeps(b, history, id, range);
      if job != id {
        prior := ranges;
        ranges := [];
        job := id;
      }
      if |ranges| > 0 && ranges[|ranges| - 1].limit == range.start {
        var last := ranges[|ranges| - 1];
        ranges := ranges[|ranges| - 1 := last.(limit := range.limit)];
      } else {
        ranges := ranges + [range];
      }
      history := history + [Entry(id, range)];
      assert Value() == Recorded(b, id, range);
    }

    /** Exactly the ranges recorded in the last two runs of jobs are owned. */
    method Owns(nonce: nat) returns (r: bool)
      requires Valid()
      ensures r <==> Owned(Value(), nonce)
      ensures r <==> RecordedIn(history, PreviousStart(history), |history|, nonce)
    {
      TwoRuns(history, nonce);
      r := FindIn(ranges, nonce);
      if !r {
        r := FindIn(prior, nonce);
      }
    }
  }

  lemma TwoRuns(history: seq<Entry>, n: nat)
    ensures RecordedIn(history, PreviousStart(history), |history|, n)
       <==> (RecordedIn(history, PreviousStart(history), RunStart(history), n)
             || RecordedIn(history, RunStart(history), |history|, n))
  {
    hide RunStart, PreviousStart;
  }
}

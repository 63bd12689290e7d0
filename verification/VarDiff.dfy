/** The share target that a miner works on, and how it is tuned to the miner's hashrate. */
module VarDiffs {
  import opened Arithmetic
  import opened Targets
  import opened Options

  const RETUNE_RATIO := 1.3
  const SHARE_SECONDS := 15.0

  /** Math.round */
  function Round(x: real): int { (x + 0.5).Floor }

  /** A target that was handed out, and the difficulty its shares are credited with. */
  datatype Issue = Issue(target: string, difficulty: nat)

  /** A target never credits more than a hash that meets it is worth. */
  predicate Fair(i: Issue) {
    Decode(i.target).Some? && NonZero(i.target) && i.difficulty <= Difficulty(i.target)
  }

  /** Math.max(MIN_DIFFICULTY, Math.round(hashrate * SHARE_SECONDS)) */
  function Aim(hashrate: real): (d: nat)
    ensures d >= MIN_DIFFICULTY
  {
    if Round(hashrate * SHARE_SECONDS) < MIN_DIFFICULTY then MIN_DIFFICULTY else Round(hashrate * SHARE_SECONDS)
  }

  function FirstIssue(hashrate: real): Issue {
    Issue(DifficultyTarget(Aim(hashrate)), Aim(hashrate))
  }

  /** The first target is fair exactly when a compact target can express the difficulty. */
  lemma FirstIssueIsFair(hashrate: real)
    ensures Fair(FirstIssue(hashrate)) <==> Aim(hashrate) <= U32
  {
    DifficultyTargetReads(Aim(hashrate));
    DifficultyRoundTrip(Aim(hashrate));
  }

  /** The difficulty that a miner is to work at under the pool's: its own until the aim is far off. */
  function Wanted(difficulty: nat, hashrate: real, ceiling: nat): nat {
    var aim := Aim(hashrate);
    var want := if ceiling < aim then ceiling else aim;
    if want as real > difficulty as real * RETUNE_RATIO || want as real * RETUNE_RATIO < difficulty as real then want
    else difficulty
  }

  function Tuned(difficulty: nat, hashrate: real, pool: string): (target: string)
    requires Decode(pool).Some?
    ensures Decode(target).Some?
  {
    var ceiling := Difficulty(pool);
    var next := Wanted(difficulty, hashrate, ceiling);
    DifficultyTargetReads(next);
    if next >= ceiling || Difficulty(DifficultyTarget(next)) >= ceiling then pool else DifficultyTarget(next)
  }

  /** A tuned target is never harder than the pool's, and loses no solution of the pool. */
  lemma TunedLosesNothing(difficulty: nat, hashrate: real, pool: string, v: Option<nat>)
    requires Decode(pool).Some? && NonZero(pool)
    ensures var target := Tuned(difficulty, hashrate, pool);
            && Difficulty(target) <= Difficulty(pool)
            && NonZero(target)
            && (Meets(v, pool) ==> Meets(v, target))
  {
    hide Decode, NonZero;
    var next := Wanted(difficulty, hashrate, Difficulty(pool));
    DifficultyTargetReads(next);
    if Meets(v, pool) && Difficulty(DifficultyTarget(next)) <= Difficulty(pool) {
      EasierPasses(DifficultyTarget(next), pool, v);
    }
  }

  /** Two difficulties within a factor of 1.3 of each other. */
  predicate Near(a: nat, b: nat) {
    a as real <= b as real * 1.3 && b as real <= a as real * 1.3
  }

  /** What a target is tuned for: the pool's difficulty or what the hashrate aims at, whichever is
      less, or the difficulty that there was as long as that is near. */
  ghost predicate FollowsRate(difficulty: nat, hashrate: real, pool: string, target: string)
    requires Decode(pool).Some? && Decode(target).Some?
  {
    var ceiling := Difficulty(pool);
    var want := if ceiling < Aim(hashrate) then ceiling else Aim(hashrate);
    var next := if Near(difficulty, want) then difficulty else want;
    Near(next, want) && MadeFor(next, pool, target)
  }

  /** A target made for a difficulty: its own, or the pool's once that is no harder. Difficulties up
      to 65535 are met exactly. */
  ghost predicate MadeFor(next: nat, pool: string, target: string)
    requires Decode(pool).Some? && Decode(target).Some?
  {
    DifficultyTargetReads(next);
    var (ceiling, own) := (Difficulty(pool), DifficultyTarget(next));
    && (target == if next < ceiling && Difficulty(own) < ceiling then own else pool)
    && (next <= 65535 ==> Difficulty(target) == if next < ceiling then (if next < 1 then 1 else next) else ceiling)
  }

  lemma TunedFollows(difficulty: nat, hashrate: real, pool: string)
    requires Decode(pool).Some?
    ensures FollowsRate(difficulty, hashrate, pool, Tuned(difficulty, hashrate, pool))
  {
    hide Decode, DifficultyTarget, Aim;
    var ceiling := Difficulty(pool);
    var want := if ceiling < Aim(hashrate) then ceiling else Aim(hashrate);
    var next := if Near(difficulty, want) then difficulty else want;
    DifficultyTargetReads(next);
    if 1 <= next {
      DifficultyRoundTrip(next);
    }
    assert MadeFor(next, pool, Tuned(difficulty, hashrate, pool));
  }

  /** With 30 threads and then a stated hashrate of 1000 the difficulty falls from 450000 to 15000. */
  lemma FallsWithTheRate(pool: string)
    requires pool == DifficultyTarget(1000000)
    ensures Decode(pool).Some? && Tuned(450000, 1000.0, pool) == DifficultyTarget(15000) != DifficultyTarget(450000)
  {
    hide Decode, DifficultyTarget;
    DifficultyTargetReads(1000000);
    DifficultyTargetReads(15000);
    DifficultyTargetReads(450000);
    assert Aim(1000.0) == 15000;
  }

  /** Tuning once more for the same rate changes nothing exactly when the target is worth a difficulty
      near the one that is wanted, or is the one made for that itself. */
  lemma SettlesExactly(difficulty: nat, hashrate: real, pool: string)
    requires Decode(pool).Some?
    ensures
      var target := Tuned(difficulty, hashrate, pool);
      var want := if Difficulty(pool) < Aim(hashrate) then Difficulty(pool) else Aim(hashrate);
      Tuned(Difficulty(target), hashrate, pool) == target <==>
        Near(Difficulty(target), want) || Tuned(want, hashrate, pool) == target
  {
    hide Decode, DifficultyTarget, Aim;
    var ceiling := Difficulty(pool);
    var want := if ceiling < Aim(hashrate) then ceiling else Aim(hashrate);
    var next := if Near(difficulty, want) then difficulty else want;
    DifficultyTargetReads(next);
    DifficultyTargetReads(want);
    if 1 <= next {
      DifficultyRoundTrip(next);
    }
  }

  /** Tuning once more changes nothing. Above 65535 the difficulty that there was may be rounded up
      by more than the factor it is allowed to be off. */
  lemma TuningSettles(difficulty: nat, hashrate: real, pool: string)
    requires Decode(pool).Some?
    requires difficulty <= 65535 ||
      !Near(difficulty, if Difficulty(pool) < Aim(hashrate) then Difficulty(pool) else Aim(hashrate))
    ensures var target := Tuned(difficulty, hashrate, pool);
            Decode(target).Some? && Tuned(Difficulty(target), hashrate, pool) == target
  {
    hide Decode, DifficultyTarget, Aim;
    var ceiling := Difficulty(pool);
    var want := if ceiling < Aim(hashrate) then ceiling else Aim(hashrate);
    var next := if Near(difficulty, want) then difficulty else want;
    DifficultyTargetReads(next);
    DifficultyTargetReads(want);
    if 1 <= next {
      DifficultyRoundTrip(next);
    }
  }

  lemma WidePool(limit: nat)
    requires limit == U64 / 2500000000
    ensures Decode(WriteLE(limit, 8)) == Some(Decoded(limit, 2500000000))
  {
    hide Decode, WriteLE;
    assert limit == 7378697629;
    WideDecodes(limit);
    QuotientUnique(U64, limit, 2500000000, U64 - 2500000000 * limit);
  }

  /** For a difficulty of 2200000000 and a pool of 2500000000 it is: aiming at 1700000000, the pool's
      target is taken, and given up again. */
  lemma NotSettled(difficulty: nat, hashrate: real, want: nat, limit: nat, pool: string)
    requires difficulty == 2200000000 && hashrate * 15.0 == 1700000000.0 && want == 1700000000
    requires limit == U64 / 2500000000 && pool == WriteLE(limit, 8)
    ensures Decode(pool).Some? && Tuned(difficulty, hashrate, pool) == pool
    ensures Tuned(Difficulty(pool), hashrate, pool) == DifficultyTarget(want) != pool
  {
    hide Decode, DifficultyTarget, WriteLE;
    WidePool(limit);
    assert Aim(hashrate) == want;
    DifficultyTargetReads(difficulty);
    DifficultyTargetReads(want);
  }

  /** The estimate of a hashrate, moved towards what a window of shares shows. */
  function Observed(hashrate: real, observed: real): real {
    if hashrate > 0.0 then hashrate * 0.6 + observed * 0.4 else observed
  }

  /** The shares of the running window, their work, its start, and the estimated hashrate. */
  datatype Window = Window(shares: int, work: int, since: real, hashrate: real)

  /** A window takes shares in, and starts anew once it has four and has lasted long enough; then
      it gives an estimate, unless the miner has told its hashrate. */
  function Counted(w: Window, told: bool, difficulty: int, count: int, now: real): Window {
    var shares, work, elapsed := w.shares + count, w.work + difficulty * count, now - w.since;
    if shares < 4 || elapsed < SHARE_SECONDS * 2.0 then Window(shares, work, w.since, w.hashrate)
    else Window(0, 0, now, if told then w.hashrate else Observed(w.hashrate, work as real / elapsed))
  }

  ghost function Power(x: real, n: nat): real {
    if n == 0 then 1.0 else x * Power(x, n - 1)
  }

  /** The estimate after some windows that all show the same rate. */
  function Estimated(hashrate: real, rate: real, n: nat): real {
    if n == 0 then hashrate else Observed(Estimated(hashrate, rate, n - 1), rate)
  }

  /** The estimate closes in on a rate that is kept: each window leaves six tenths of the error. */
  lemma {:induction false} EstimateConverges(hashrate: real, rate: real, n: nat)
    requires hashrate > 0.0 && rate > 0.0
    ensures Estimated(hashrate, rate, n) > 0.0
    ensures Estimated(hashrate, rate, n) - rate == Power(0.6, n) * (hashrate - rate)
  {
    if n > 0 {
      EstimateConverges(hashrate, rate, n - 1);
      var e := Estimated(hashrate, rate, n - 1);
      assert Observed(e, rate) - rate == 0.6 * (e - rate);
      assert 0.6 * (Power(0.6, n - 1) * (hashrate - rate)) == 0.6 * Power(0.6, n - 1) * (hashrate - rate);
    }
  }

  /** A window that is complete, for a miner that never stated a rate, moves the estimate four tenths
      of the way to the rate of its work; nothing else moves it. */
  lemma WindowMoves(w: Window, told: bool, difficulty: int, count: int, now: real)
    requires w.hashrate > 0.0
    ensures var w' := Counted(w, told, difficulty, count, now);
            var (work, elapsed) := (w.work + difficulty * count, now - w.since);
            if !told && w.shares + count >= 4 && elapsed >= 30.0 then
              && (w'.hashrate - work as real / elapsed) == 0.6 * (w.hashrate - work as real / elapsed)
              && w' == Window(0, 0, now, w'.hashrate)
            else w'.hashrate == w.hashrate
  {
  }

  class VarDiff {
    var hashrate: real
    var told: bool
    var work: int
    var solved: int
    var accepted: int
    var issue: Issue
    var prior: Option<Issue>
    var ceiling: Option<Issue>
    var shares: int
    var window: int
    var since: real

    /** What is handed out is fair, and the pool's difficulty is remembered as it is. */
    predicate Valid()
      reads this
    {
      && Fair(issue)
      && (prior.Some? ==> Fair(prior.value) && prior.value.target != issue.target)
      && (ceiling.Some? ==>
        && Decode(ceiling.value.target).Some?
        && ceiling.value.difficulty == Difficulty(ceiling.value.target))
    }

    constructor (seed: real, now: real)
      ensures hashrate == (if seed > 0.0 then seed else 1000.0) && issue == FirstIssue(hashrate)
      ensures Aim(hashrate) <= U32 ==> Valid()
      ensures !told && work == solved == accepted == shares == window == 0 && prior.None? && ceiling.None?
    {
      hashrate := if seed > 0.0 then seed else 1000.0;
      told, work, solved, accepted, prior, ceiling, shares, window, since := false, 0, 0, 0, None, None, 0, 0, now;
      issue := FirstIssue(if seed > 0.0 then seed else 1000.0);
      FirstIssueIsFair(if seed > 0.0 then seed else 1000.0);
    }

    /** The easier of the targets that shares are still taken for. */
    function Floor(): (i: Issue)
      reads this
      ensures i == issue || Some(i) == prior
      ensures i.difficulty <= issue.difficulty && (prior.Some? ==> i.difficulty <= prior.value.difficulty)
    {
      if prior.Some? && prior.value.difficulty < issue.difficulty then prior.value else issue
    }

    method Settle()
      modifies `prior
      ensures prior == None && (old(Valid()) ==> Valid())
    {
      prior := None;
    }

    function CurrentWindow(): Window
      reads `shares, `window, `since, `hashrate
    {
      Window(shares, window, since, hashrate)
    }

    method Submitted(difficulty: int, count: int, now: real)
      modifies `shares, `accepted, `work, `window, `hashrate, `since
      ensures accepted == old(accepted) + (if count > 0 then count else 0)
      ensures work == old(work) + (if count > 0 then difficulty * count else 0)
      ensures CurrentWindow() == if count > 0 then Counted(old(CurrentWindow()), told, difficulty, count, now)
        else old(CurrentWindow())
      ensures old(Valid()) ==> Valid()
    {
      if !(count > 0) {
        return;
      }
      shares := shares + count;
      accepted := accepted + count;
      work := work + difficulty * count;
      window := window + difficulty * count;
      var elapsed := now - since;
      if shares < 4 || elapsed < SHARE_SECONDS * 2.0 {
        return;
      }
      var observed := window as real / elapsed;
      if !told {
        hashrate := Observed(hashrate, observed);
      }
      shares, window, since := 0, 0, now;
    }

    method Observe(rate: real)
      modifies `told, `hashrate
      ensures if rate > 0.0 then told && hashrate == rate else told == old(told) && hashrate == old(hashrate)
      ensures old(Valid()) ==> Valid()
    {
      if rate > 0.0 {
        told, hashrate := true, rate;
      }
    }

    method Credit(difficulty: nat)
      modifies `solved
      ensures solved == old(solved) + difficulty && (old(Valid()) ==> Valid())
    {
      solved := solved + difficulty;
    }

    method Retune(top: nat) returns (next: nat)
      ensures next == Wanted(issue.difficulty, hashrate, top)
    {
      var want := if top < Aim(hashrate) then top else Aim(hashrate);
      next := issue.difficulty;
      if want as real > next as real * RETUNE_RATIO || want as real * RETUNE_RATIO < next as real {
        next := want;
      }
    }

    /** Nothing, and no change, when the pool's target cannot be read. */
    method Tune(pool: string) returns (target: Option<string>)
      requires Valid()
      modifies `issue, `prior, `ceiling
      ensures target.None? <==> Decode(pool).None?
      ensures target.None? ==> issue == old(issue) && prior == old(prior) && ceiling == old(ceiling)
      ensures target.Some? ==>
        && target.value == issue.target == Tuned(old(issue.difficulty), hashrate, pool)
        && if issue.target == old(issue.target) then issue == old(issue) && prior == old(prior)
           else issue.difficulty == Difficulty(issue.target) && prior == Some(old(issue))
      ensures target.Some? ==> FollowsRate(old(issue.difficulty), hashrate, pool, issue.target)
      ensures Valid() <==> (Decode(pool).Some? ==> NonZero(issue.target))
    {
      hide Decode, NonZero, Wanted, DifficultyTarget, FollowsRate;
      if Decode(pool).Some? {
        TunedFollows(issue.difficulty, hashrate, pool);
      }
      if ceiling.None? || ceiling.value.target != pool {
        var r := Decode(pool);
        if r.None? {
          return None;
        }
        ceiling := Some(Issue(pool, r.value.difficulty));
      }
      var top := ceiling.value.difficulty;
      var next := Retune(top);
      var chosen := if next >= top then pool else DifficultyTarget(next);
      DifficultyTargetReads(next);
      if chosen != pool && Difficulty(chosen) >= top {
        chosen := pool;
      }
      if chosen != issue.target {
        prior := Some(issue);
        issue := Issue(chosen, Difficulty(chosen));
      }
      target := Some(issue.target);
    }
  }
}

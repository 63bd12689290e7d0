/** What the primary and a worker make of a share, and why they make the same of it. */
module Shares {
  import opened Arithmetic
  import opened Targets
  import opened VarDiffs
  import opened Ledgers
  import Nonce
  import opened Options

  datatype Reason = NotLoggedIn | NoJob | MalformedNonce | OutsideRange | BelowTarget

  datatype Verdict =
    | Denied(reason: Reason)
    | Absorbed(credit: nat, actual: nat)
    | Forwarded(credit: nat)

  datatype Job = Job(id: string, target: string)

  /** What the primary has on a miner: its targets, the job it works on and its ranges. */
  datatype Standing = Standing(issue: Issue, prior: Option<Issue>, job: Option<Job>, book: Book)

  predicate AllFair(s: Standing) {
    && Fair(s.issue)
    && (s.prior.Some? ==> Fair(s.prior.value))
    && (s.job.Some? ==> Decode(s.job.value.target).Some? && NonZero(s.job.value.target))
  }

  function FloorOf(s: Standing): Issue {
    if s.prior.Some? && s.prior.value.difficulty < s.issue.difficulty then s.prior.value else s.issue
  }

  /** What the primary makes of a share, and the prior target it keeps. */
  ghost function LocalVerdict(s: Standing, nonce: Option<nat>, v: Option<nat>): (Verdict, Option<Issue>)
    requires AllFair(s)
  {
    if s.job.None? then (Denied(NoJob), s.prior)
    else if nonce.None? then (Denied(MalformedNonce), s.prior)
    else if !Owned(s.book, nonce.value) then (Denied(OutsideRange), s.prior)
    else
      var floor := FloorOf(s);
      if !Meets(v, floor.target) then (Denied(BelowTarget), s.prior)
      else
        var settled := floor.target == s.issue.target || Meets(v, s.issue.target);
        var credit := if settled && s.issue.difficulty > floor.difficulty then s.issue.difficulty else floor.difficulty;
        (if Meets(v, s.job.value.target) then Forwarded(credit) else Absorbed(credit, ValueDifficulty(v)),
         if settled then None else s.prior)
  }

  /** The targets that shares are still taken for: the current one, and the one before it while that
      is the easier one. */
  predicate StillTaken(s: Standing, i: Issue) {
    i == s.issue || (s.prior == Some(i) && i.difficulty < s.issue.difficulty)
  }

  /** Which shares go to the pool, which are settled here, and which are refused, and why. */
  lemma VerdictIs(s: Standing, nonce: Option<nat>, v: Option<nat>)
    requires AllFair(s)
    ensures
      var verdict := LocalVerdict(s, nonce, v).0;
      var owned := s.job.Some? && nonce.Some? && Owned(s.book, nonce.value);
      var met := if s.prior.Some? && s.prior.value.difficulty < s.issue.difficulty then Meets(v, s.prior.value.target)
                 else Meets(v, s.issue.target);
      && (verdict.Forwarded? <==> owned && met && Meets(v, s.job.value.target))
      && (verdict.Absorbed? <==> owned && met && !Meets(v, s.job.value.target))
      && (verdict == Denied(BelowTarget) <==> owned && !met)
      && (verdict == Denied(OutsideRange) <==> s.job.Some? && nonce.Some? && !owned)
      && (verdict == Denied(MalformedNonce) <==> s.job.Some? && nonce.None?)
      && (verdict == Denied(NoJob) <==> s.job.None?)
  {
    hide Decode, NonZero, Owned, Meets;
  }

  /** The target before the current one, while it counts as the easier one, lets all hashes pass that
      the current one does. */
  predicate Ordered(s: Standing)
    requires AllFair(s)
  {
    s.prior.Some? && s.prior.value.difficulty < s.issue.difficulty ==>
      Decode(s.prior.value.target).value.value >= Decode(s.issue.target).value.value
  }

  /** Then, and only then, shares that meet the current target are never refused as too easy, and
      those that meet the current target, the pool's and are owned all go to the pool. */
  lemma CurrentIsEnough(s: Standing, nonce: nat)
    requires AllFair(s) && s.job.Some? && Owned(s.book, nonce)
    ensures Ordered(s) <==>
      forall v :: Meets(v, s.issue.target) ==> LocalVerdict(s, Some(nonce), v).0 != Denied(BelowTarget)
    ensures Ordered(s) ==> forall v ::
      LocalVerdict(s, Some(nonce), v).0.Forwarded? <==>
        && Meets(v, s.job.value.target)
        && (Meets(v, s.issue.target)
            || (s.prior.Some? && s.prior.value.difficulty < s.issue.difficulty && Meets(v, s.prior.value.target)))
  {
    hide Decode, NonZero, LocalVerdict, Owned;
    forall v ensures Ordered(s) ==>
      && (Meets(v, s.issue.target) ==> LocalVerdict(s, Some(nonce), v).0 != Denied(BelowTarget))
      && (LocalVerdict(s, Some(nonce), v).0.Forwarded? <==>
            && Meets(v, s.job.value.target)
            && (Meets(v, s.issue.target)
                || (s.prior.Some? && s.prior.value.difficulty < s.issue.difficulty && Meets(v, s.prior.value.target))))
    {
      VerdictIs(s, Some(nonce), v);
    }
    if !Ordered(s) {
      var v := Some(Decode(s.issue.target).value.value);
      VerdictIs(s, Some(nonce), v);
      assert Meets(v, s.issue.target) && LocalVerdict(s, Some(nonce), v).0 == Denied(BelowTarget);
    }
  }

  /** Targets that are credited as what they are made for are ordered by what they are credited as. */
  lemma OrderedWhen(s: Standing)
    requires AllFair(s) && s.issue.difficulty == Difficulty(s.issue.target)
    requires s.prior.Some? ==> s.prior.value.difficulty == Difficulty(s.prior.value.target)
    ensures Ordered(s)
  {
    hide Decode, NonZero;
    FairIsReadable(s);
    if s.prior.Some? && s.prior.value.difficulty < s.issue.difficulty {
      HarderIsLess(s.prior.value.target, s.issue.target);
    }
  }

  /** A share is credited with the hardest target that it meets among those still taken, and has its
      hash's worth; when it meets the current target, the one before is settled. */
  lemma CreditIs(s: Standing, nonce: Option<nat>, v: Option<nat>)
    requires AllFair(s)
    ensures
      var (verdict, prior) := LocalVerdict(s, nonce, v);
      && prior == (if !verdict.Denied? && Meets(v, s.issue.target) then None else s.prior)
      && (verdict.Absorbed? ==> v.Some? && verdict.actual == if v.value > 0 then U64 / v.value else MAX_SAFE_INTEGER)
      && (!verdict.Denied? ==>
            && (exists i :: StillTaken(s, i) && Decode(i.target).Some? && Meets(v, i.target)
                  && verdict.credit == i.difficulty)
            && (forall i :: StillTaken(s, i) && Decode(i.target).Some? && Meets(v, i.target) ==>
                  i.difficulty <= verdict.credit))
  {
    hide Decode, NonZero, Owned;
    var verdict := LocalVerdict(s, nonce, v).0;
    if !verdict.Denied? {
      FairIsReadable(s);
      assert StillTaken(s, s.issue);
      if Meets(v, s.issue.target) {
        assert verdict.credit == s.issue.difficulty;
      } else {
        assert StillTaken(s, s.prior.value) && verdict.credit == s.prior.value.difficulty;
      }
    }
  }

  /** A target that credits what its hashes are worth: not zero, and of a difficulty that a double counts. */
  predicate Worth(target: string, difficulty: nat)
    requires Decode(target).Some?
  {
    NonZero(target) && difficulty <= Difficulty(target) <= MAX_SAFE_INTEGER
  }

  lemma MeetingIsWorth(target: string, difficulty: nat, v: Option<nat>)
    requires Decode(target).Some? && Worth(target, difficulty) && Meets(v, target) && v.value <= U64
    ensures difficulty <= ValueDifficulty(v)
  {
    hide Decode, NonZero;
    MeetingIsDifficult(target);
  }

  /** A share is never credited with more than its hash is worth. */
  lemma CreditIsFair(s: Standing, nonce: Option<nat>, result: string)
    requires AllFair(s) && Difficulty(s.issue.target) <= MAX_SAFE_INTEGER
    requires s.prior.Some? ==> Difficulty(s.prior.value.target) <= MAX_SAFE_INTEGER
    ensures var verdict := LocalVerdict(s, nonce, HashValue(result)).0;
            !verdict.Denied? ==> verdict.credit <= ValueDifficulty(HashValue(result))
  {
    hide Decode, NonZero, HashValue, ValueDifficulty;
    var v, verdict := HashValue(result), LocalVerdict(s, nonce, HashValue(result)).0;
    if !verdict.Denied? {
      if Meets(v, s.issue.target) {
        MeetingIsWorth(s.issue.target, s.issue.difficulty, v);
      }
      if s.prior.Some? && Meets(v, s.prior.value.target) {
        MeetingIsWorth(s.prior.value.target, s.prior.value.difficulty, v);
      }
    }
  }

  // The worker

  /** What a worker remembers of a session; an empty text stands for nothing. */
  datatype Known = Known(jobId: string, pool: string, target: string, prior: string, diff: nat, older: nat, book: Book)

  const NOTHING_KNOWN := Known("", "", "", "", 0, 0, Book("", [], []))

  /** The texts of a worker are targets that can be read. */
  predicate Readable(k: Known) {
    Decode(k.pool).Some? && Decode(k.target).Some? && Decode(k.prior).Some?
  }

  datatype Reply =
    | Ask
    | Below
    | Took(credit: nat, actual: nat)
    | Sent

  /** What the worker makes of a share, and the prior target it keeps. */
  ghost function WorkerReply(k: Known, jobId: string, nonce: Option<nat>, v: Option<nat>): (Reply, string)
    requires Readable(k)
  {
    if k.target == "" || k.pool == "" || k.jobId != jobId || nonce.None? || !Owned(k.book, nonce.value) then
      (Ask, k.prior)
    else
      var (floor, credit) := if k.prior != "" && k.older < k.diff then (k.prior, k.older) else (k.target, k.diff);
      if !Meets(v, floor) then (Below, k.prior)
      else
        var current := Meets(v, k.target);
        (if Meets(v, k.pool) then Sent
          else Took(if current && k.diff > credit then k.diff else credit, ValueDifficulty(v)),
         if current then "" else k.prior)
  }

  /** Which shares a worker passes on to the pool, which it settles or refuses, and for which it asks. */
  lemma ReplyIs(k: Known, jobId: string, nonce: Option<nat>, v: Option<nat>)
    requires Readable(k)
    ensures
      var reply := WorkerReply(k, jobId, nonce, v).0;
      var owned := k.target != "" && k.pool != "" && k.jobId == jobId && nonce.Some? && Owned(k.book, nonce.value);
      var met := if k.prior != "" && k.older < k.diff then Meets(v, k.prior) else Meets(v, k.target);
      && (reply.Ask? <==> !owned)
      && (reply.Below? <==> owned && !met)
      && (reply.Sent? <==> owned && met && Meets(v, k.pool))
      && (reply.Took? <==> owned && met && !Meets(v, k.pool))
  {
    hide Decode, Owned, Meets;
  }

  /** What it settles is credited with the hardest target met, and has its hash's worth. */
  lemma ReplyCreditIs(k: Known, jobId: string, nonce: Option<nat>, v: Option<nat>)
    requires Readable(k)
    ensures
      var (reply, prior) := WorkerReply(k, jobId, nonce, v);
      && prior == (if (reply.Took? || reply.Sent?) && Meets(v, k.target) then "" else k.prior)
      && (reply.Took? ==>
            && v.Some? && reply.actual == (if v.value > 0 then U64 / v.value else MAX_SAFE_INTEGER)
            && (|| (Meets(v, k.target) && reply.credit == k.diff)
                || (k.prior != "" && k.older < k.diff && Meets(v, k.prior) && reply.credit == k.older))
            && (Meets(v, k.target) ==> k.diff <= reply.credit)
            && (k.prior != "" && k.older < k.diff && Meets(v, k.prior) ==> k.older <= reply.credit))
  {
    hide Decode, Owned;
  }

  /** What a worker remembers credits what hashes are worth; an empty text is no target. */
  predicate KnownWorth(k: Known)
    requires Readable(k)
  {
    (k.target != "" ==> Worth(k.target, k.diff)) && (k.prior != "" ==> Worth(k.prior, k.older))
  }

  /** Whether or not it agrees with the primary, a worker never credits more than a hash is worth. */
  lemma WorkerCreditIsFair(k: Known, jobId: string, nonce: Option<nat>, result: string)
    requires Readable(k) && KnownWorth(k)
    ensures var reply := WorkerReply(k, jobId, nonce, HashValue(result)).0;
            reply.Took? ==> reply.credit <= reply.actual
  {
    hide Decode, Worth, HashValue, ValueDifficulty;
    var v, reply := HashValue(result), WorkerReply(k, jobId, nonce, HashValue(result)).0;
    if reply.Took? {
      if Meets(v, k.target) {
        MeetingIsWorth(k.target, k.diff, v);
      }
      if k.prior != "" && Meets(v, k.prior) {
        MeetingIsWorth(k.prior, k.older, v);
      }
    }
  }

  /** The worker has the current target and the ranges that the primary has. */
  predicate Follows(k: Known, s: Standing) {
    && s.job.Some? && k.jobId == s.job.value.id && k.pool == s.job.value.target
    && k.target == s.issue.target && k.diff == s.issue.difficulty
    && k.book == s.book
  }

  /** It also has the target before that. */
  predicate SamePrior(k: Known, s: Standing) {
    if s.prior.None? then k.prior == "" else k.prior == s.prior.value.target && k.older == s.prior.value.difficulty
  }

  /** It has the target before that as far as that one matters: when it is the easier one. */
  predicate SameFloor(k: Known, s: Standing) {
    if s.prior.Some? && s.prior.value.difficulty < s.issue.difficulty then
      k.prior == s.prior.value.target && k.older == s.prior.value.difficulty
    else k.prior == "" || k.older >= k.diff
  }

  predicate Agrees(k: Known, s: Standing) {
    Follows(k, s) && SameFloor(k, s)
  }

  predicate SameVerdict(reply: Reply, verdict: Verdict) {
    match verdict
    case Denied(reason) => if reason == BelowTarget then reply == Below else reply == Ask
    case Absorbed(credit, actual) => reply == Took(credit, actual)
    case Forwarded(_) => reply == Sent
  }

  lemma EmptyIsZero()
    ensures Decode("").Some? && !NonZero("") && Difficulty("") == MIN_DIFFICULTY
  {
    assert forall k :: 0 <= k < 8 ==> Padded("")[k] == '0';
    AllZero(Padded(""), 0, 4);
  }

  lemma {:induction false} AllZero(text: string, pos: nat, bytes: nat)
    requires pos + 2 * bytes <= |text| && forall k :: pos <= k < pos + 2 * bytes ==> text[k] == '0'
    ensures AllHex(text, pos, 2 * bytes) && ReadLE(text, pos, bytes) == 0
    decreases bytes
  {
    if bytes > 0 {
      AllZero(text, pos + 2, bytes - 1);
    }
  }

  lemma AgreeingIsReadable(k: Known, s: Standing)
    requires AllFair(s) && Agrees(k, s) && Decode(k.prior).Some?
    ensures Readable(k) && k.target != "" && k.pool != "" && (s.prior.Some? ==> s.prior.value.target != "")
  {
    hide Decode, NonZero;
    EmptyIsZero();
  }

  /** The fast path of a worker that agrees with the primary: the same verdict and credit on the
      current job, after which the two still agree. */
  lemma WorkerSimulatesPrimary(k: Known, s: Standing, nonce: Option<nat>, v: Option<nat>)
    requires AllFair(s) && Agrees(k, s) && Decode(k.prior).Some?
    ensures Readable(k)
    ensures var ((reply, left), (verdict, prior)) := (WorkerReply(k, k.jobId, nonce, v), LocalVerdict(s, nonce, v));
            && SameVerdict(reply, verdict) && Agrees(k.(prior := left), s.(prior := prior))
            && (SamePrior(k, s) ==> SamePrior(k.(prior := left), s.(prior := prior)))
  {
    hide Decode, NonZero, Owned, Fair;
    AgreeingIsReadable(k, s);
    FairIsReadable(s);
  }

  lemma FairIsReadable(s: Standing)
    requires AllFair(s)
    ensures Decode(s.issue.target).Some? && (s.prior.Some? ==> Decode(s.prior.value.target).Some?)
  {
  }

  // Learning

  /** What the primary sends a session: a job with its targets, a range, or both. */
  datatype Payload = Payload(job: Option<JobPart>, grant: Option<Nonce.Grant>)

  datatype JobPart = JobPart(id: string, target: Option<string>, pool: Option<string>)

  /** A worker takes over a new target, and keeps the one before it as the prior one. */
  function Learned(k: Known, p: Payload): Known
    requires p.job.Some? && p.job.value.target.Some? ==> Decode(p.job.value.target.value).Some?
  {
    var k1 :=
      if p.job.None? then k
      else
        var part := p.job.value;
        var k0 := k.(jobId := part.id, pool := if part.pool.Some? then part.pool.value else k.pool);
        if part.target.Some? && part.target.value != k.target then
          k0.(prior := k.target, older := k.diff, target := part.target.value, diff := Difficulty(part.target.value))
        else k0;
    if p.grant.Some? && k1.jobId != "" then k1.(book := Recorded(k1.book, k1.jobId, p.grant.value)) else k1
  }

  /** A payload whose target credits what hashes are worth. */
  predicate PayloadWorth(p: Payload)
    requires p.job.Some? && p.job.value.target.Some? ==> Decode(p.job.value.target.value).Some?
  {
    p.job.Some? && p.job.value.target.Some? && p.job.value.target.value != "" ==>
      Worth(p.job.value.target.value, Difficulty(p.job.value.target.value))
  }

  lemma LearningKeepsWorth(k: Known, p: Payload)
    requires Readable(k) && KnownWorth(k)
    requires p.job.Some? && p.job.value.target.Some? ==> Decode(p.job.value.target.value).Some?
    requires p.job.Some? && p.job.value.pool.Some? ==> Decode(p.job.value.pool.value).Some?
    requires PayloadWorth(p)
    ensures Readable(Learned(k, p)) && KnownWorth(Learned(k, p))
  {
    hide Decode, Worth, Recorded;
  }

  /** Tuning the targets to a job's pool target, and recording a range for it, as far as it
      changes what the primary has. */
  function TunedStanding(s: Standing, hashrate: real, job: Job, grant: Nonce.Grant): Standing
    requires Decode(job.target).Some?
  {
    var target := Tuned(s.issue.difficulty, hashrate, job.target);
    var s' := s.(job := Some(job), book := Recorded(s.book, job.id, grant));
    if target == s.issue.target then s'
    else s'.(issue := Issue(target, Difficulty(target)), prior := Some(s.issue))
  }

  /** What is sent after tuning; for a chunk of the same job, only the range when the target is
      as it was. */
  function Announced(s: Standing, s': Standing, grant: Nonce.Grant, chunk: bool): Payload
    requires s'.job.Some?
  {
    if chunk && s'.issue.target == s.issue.target then Payload(None, Some(grant))
    else Payload(Some(JobPart(s'.job.value.id, Some(s'.issue.target), Some(s'.job.value.target))), Some(grant))
  }

  /** Recording the range leaves both with the same ledger. */
  predicate SameRanges(k: Known, s: Standing, job: Job, grant: Nonce.Grant) {
    Recorded(k.book, job.id, grant) == Recorded(s.book, job.id, grant)
  }

  /** When a worker, whatever it knew before, follows after learning what was tuned. A worker that
      has the target already keeps the difficulty it has for it; one that does not decodes the
      target, which is the primary's difficulty unless that is one recorded before any change. What
      comes before the current target agrees exactly when it does in the same way. So a worker that
      agrees with the primary still does. A chunk is asked for by a worker on the job. */
  lemma LearnAfterTune(k: Known, s: Standing, hashrate: real, job: Job, grant: Nonce.Grant, chunk: bool)
    requires Decode(job.target).Some? && Decode(s.issue.target).Some? && job.id != ""
    requires chunk ==> s.job == Some(job) && k.jobId == job.id && k.pool == job.target
    ensures
      var s' := TunedStanding(s, hashrate, job, grant);
      Decode(s'.issue.target).Some? &&
      var k', changed := Learned(k, Announced(s, s', grant, chunk)), s'.issue.target != s.issue.target;
      && (!chunk || changed ==> k'.target == s'.issue.target)
      && (chunk && !changed ==> k'.target == k.target && k'.diff == k.diff)
      && (!chunk || changed ==>
          (Follows(k', s') <==>
            && SameRanges(k, s, job, grant)
            && if s'.issue.target == k.target then k.diff == s'.issue.difficulty
               else changed || s.issue.difficulty == Difficulty(s.issue.target)))
      && (chunk && !changed ==>
          (Follows(k', s') <==>
            SameRanges(k, s, job, grant) && k.target == s.issue.target && k.diff == s.issue.difficulty))
      && (k.target == s.issue.target && changed ==>
          && (Follows(k', s') <==> SameRanges(k, s, job, grant))
          && (SamePrior(k', s') <==> k.diff == s.issue.difficulty))
      && (k.target == s.issue.target && !changed ==> (SamePrior(k', s') <==> SamePrior(k, s)))
      && (Agrees(k, s) ==> Agrees(k', s'))
  {
    hide Decode, Recorded;
  }

  // Logging in

  /** What the primary has on a miner that logs in. */
  function NewStanding(hashrate: real): Standing {
    Standing(FirstIssue(hashrate), None, None, Book("", [], []))
  }

  /** What the primary has and a worker knows after a login that is answered with a job and a range.
      The primary starts anew at each login; the worker goes on from what it knows of the session. */
  function LoggedIn(k: Known, hashrate: real, job: Job, grant: Nonce.Grant): (Standing, Known)
    requires Decode(job.target).Some?
  {
    var s := NewStanding(hashrate);
    var s' := TunedStanding(s, hashrate, job, grant);
    DifficultyTargetReads(Aim(hashrate));
    (s', Learned(k, Announced(s, s', grant, false)))
  }

  /** Which target a miner starts with: the pool's unless that is harder than the miner's own. */
  lemma FirstTarget(hashrate: real, pool: string)
    requires Decode(pool).Some?
    ensures var first := FirstIssue(hashrate).target;
            Decode(first).Some? && NonZero(first) &&
            Tuned(Aim(hashrate), hashrate, pool) ==
              if Difficulty(pool) <= Aim(hashrate) || Difficulty(pool) <= Difficulty(first) then pool else first
  {
    hide Decode, NonZero, DifficultyTarget, Aim;
    var aim, ceiling := Aim(hashrate), Difficulty(pool);
    DifficultyTargetReads(aim);
    DifficultyTargetReads(Wanted(aim, hashrate, ceiling));
    assert ceiling >= aim ==> Wanted(aim, hashrate, ceiling) == aim;
    assert ceiling < aim ==> Wanted(aim, hashrate, ceiling) >= ceiling;
  }

  /** Up to 2^32 - 1 a target is never easier than the difficulty it is made for. */
  lemma AtLeastAsHard(hashrate: real)
    ensures var first := FirstIssue(hashrate);
            && Decode(first.target).Some?
            && (first.difficulty <= U32 ==> first.difficulty <= Difficulty(first.target))
            && (first.difficulty > U32 ==> Difficulty(first.target) == U32)
            && (first.difficulty <= 65535 ==> first.difficulty == Difficulty(first.target))
  {
    hide Decode, DifficultyTarget;
    DifficultyRoundTrip(Aim(hashrate));
    DifficultyTargetReads(Aim(hashrate));
    if Aim(hashrate) > U32 {
      QuotientUnique(U32, Aim(hashrate), 0, U32);
    }
  }

  /** A new ledger and one that is there already hold the same after a range is recorded exactly
      when the latter has nothing that is not dropped then. */
  predicate NothingHeld(book: Book, jobId: string) {
    book.ranges == [] && (book.job == jobId ==> book.prior == [])
  }

  lemma SameAsNew(book: Book, jobId: string, grant: Nonce.Grant)
    requires Solid(book.ranges) && jobId != ""
    ensures Recorded(book, jobId, grant) == Recorded(Book("", [], []), jobId, grant) <==> NothingHeld(book, jobId)
  {
    if book.ranges == [] {
      assert Added(book.ranges, grant) == [grant];
    } else {
      var more := Added(book.ranges, grant);
      assert |more| == 1 ==> more[0].start < book.ranges[0].limit == grant.start;
    }
  }

  /** Whatever a worker knew of the session, when it agrees with the primary after a login: nothing
      is left in its ledger; it has the target with the difficulty that the primary has for it; and
      the target before that is the primary's, or is none that is easier when the primary has none. */
  lemma LoginAgrees(k: Known, hashrate: real, job: Job, grant: Nonce.Grant)
    requires Decode(job.target).Some? && job.id != "" && Solid(k.book.ranges)
    ensures
      var (s, k') := LoggedIn(k, hashrate, job, grant);
      var first, target := FirstIssue(hashrate), s.issue.target;
      var (prior, older) := if k.target == target then (k.prior, k.older) else (k.target, k.diff);
      Decode(first.target).Some? &&
      (Follows(k', s) <==>
        && NothingHeld(k.book, job.id)
        && if k.target == target
           then k.diff == (if target == first.target then first.difficulty else Difficulty(target))
           else target != first.target || first.difficulty == Difficulty(first.target)) &&
      (SamePrior(k', s) <==>
        if target == first.target then prior == "" else prior == first.target && older == first.difficulty) &&
      (Agrees(k', s) <==>
        && Follows(k', s)
        && if target != first.target && first.difficulty < Difficulty(job.target)
           then prior == first.target && older == first.difficulty
           else prior == "" || older >= s.issue.difficulty)
  {
    hide Decode, DifficultyTarget, Recorded, Tuned, Aim, Solid, NothingHeld, NonZero;
    var first := FirstIssue(hashrate);
    FirstTarget(hashrate, job.target);
    SameAsNew(k.book, job.id, grant);
    LearnAfterTune(k, NewStanding(hashrate), hashrate, job, grant, false);
  }

  /** A worker that knows nothing of the session agrees exactly when the difficulty the miner starts
      with is the one its target stands for, or the pool has another target that is no harder. */
  lemma FirstLoginAgrees(hashrate: real, job: Job, grant: Nonce.Grant)
    requires Decode(job.target).Some? && job.id != ""
    ensures
      var (s, k) := LoggedIn(NOTHING_KNOWN, hashrate, job, grant);
      var first := FirstIssue(hashrate);
      Decode(first.target).Some? &&
      (SamePrior(k, s) <==> s.issue.target == first.target) &&
      (Agrees(k, s) <==>
        && job.target != ""
        && (first.difficulty == Difficulty(first.target)
            || (Difficulty(job.target) <= first.difficulty && job.target != first.target)))
  {
    hide Decode, NonZero, DifficultyTarget, Recorded, Tuned, Aim, Follows, Agrees, Learned;
    var first := FirstIssue(hashrate);
    LoginAgrees(NOTHING_KNOWN, hashrate, job, grant);
    FirstTarget(hashrate, job.target);
    EmptyIsZero();
    AtLeastAsHard(hashrate);
  }

  /** Whatever its ledger was, two new jobs later it is the primary's again, and a worker follows
      exactly when it has the difficulty that the primary has for the target. */
  lemma TwoJobsLater(k: Known, s: Standing, rates: (real, real), one: Job, two: Job, grants: (Nonce.Grant, Nonce.Grant))
    requires Decode(one.target).Some? && Decode(two.target).Some? && Decode(s.issue.target).Some?
    requires one.id != "" && two.id != "" && one.id != k.book.job && one.id != s.book.job && two.id != one.id
    ensures
      var s1 := TunedStanding(s, rates.0, one, grants.0);
      var s2 := TunedStanding(s1, rates.1, two, grants.1);
      Decode(s1.issue.target).Some? && Decode(s2.issue.target).Some? &&
      var k1 := Learned(k, Announced(s, s1, grants.0, false));
      var k2 := Learned(k1, Announced(s1, s2, grants.1, false));
      && k2.book == s2.book
      && (Follows(k2, s2) <==>
          if s2.issue.target == k1.target then k1.diff == s2.issue.difficulty
          else s1.issue.difficulty == Difficulty(s1.issue.target) || s2.issue.target != s1.issue.target)
  {
    hide Decode, Tuned;
    LearnAfterTune(k, s, rates.0, one, grants.0, false);
    var s1 := TunedStanding(s, rates.0, one, grants.0);
    LearnAfterTune(Learned(k, Announced(s, s1, grants.0, false)), s1, rates.1, two, grants.1, false);
  }

  /** With 30 threads and a pool that is harder than the miner's own target, a worker credits 450017
      for a share where the primary credits 450000. */
  lemma LoginCreditsDiffer(hashrate: real, job: Job, grant: Nonce.Grant)
    requires hashrate == 30000.0 && job == Job("1", DifficultyTarget(1000000)) && grant == Nonce.Grant(0, 10)
    ensures
      Decode(job.target).Some? &&
      var (s, k) := LoggedIn(NOTHING_KNOWN, hashrate, job, grant);
      var v := Some(U64 / 450017);
      && AllFair(s) && Readable(k)
      && LocalVerdict(s, Some(0), v).0 == Absorbed(450000, 450017)
      && WorkerReply(k, "1", Some(0), v).0 == Took(450017, 450017)
  {
    hide Decode, NonZero, DifficultyTarget, Tuned, Aim, LocalVerdict, WorkerReply, Owned, Recorded;
    NewTargets(hashrate, job.target);
    FirstTarget(hashrate, job.target);
    EmptyIsZero();
    FirstRange(grant);
    var (s, k) := LoggedIn(NOTHING_KNOWN, hashrate, job, grant);
    assert s.issue == Issue(DifficultyTarget(450000), 450000) && k.target == s.issue.target && k.diff == 450017;
    LoginVerdicts(s, k, Some(U64 / 450017));
  }

  /** A second login with one thread, in the same session and for the same job: the worker settles a
      share that the primary refuses, because its nonce is of the first login. */
  lemma SecondLoginDiffers(hashrate: real, job: Job, v: Option<nat>)
    requires hashrate == 1000.0 && job == Job("1", DifficultyTarget(1000000)) && v == Some(U64 / 15000)
    ensures
      Decode(job.target).Some? &&
      var (s1, k1) := LoggedIn(NOTHING_KNOWN, hashrate, job, Nonce.Grant(0, 10));
      var (s, k) := LoggedIn(k1, hashrate, job, Nonce.Grant(10, 20));
      && Agrees(k1, s1) && AllFair(s) && Readable(k)
      && k.target == s.issue.target && k.diff == s.issue.difficulty && SamePrior(k, s)
      && k.book == Book("1", [], [Nonce.Grant(0, 20)]) && s.book == Book("1", [], [Nonce.Grant(10, 20)])
      && LocalVerdict(s, Some(5), v).0 == Denied(OutsideRange)
      && WorkerReply(k, "1", Some(5), v).0 == Took(15000, 15000)
  {
    hide Decode, NonZero, DifficultyTarget, Tuned, Aim, LocalVerdict, WorkerReply, Owned;
    OneThreadTargets(hashrate, job.target);
    FirstTarget(hashrate, job.target);
    EmptyIsZero();
    TwoRanges();
    FirstLoginAgrees(hashrate, job, Nonce.Grant(0, 10));
    var (s1, k1) := LoggedIn(NOTHING_KNOWN, hashrate, job, Nonce.Grant(0, 10));
    assert s1.issue == Issue(DifficultyTarget(15000), 15000) && k1.target == s1.issue.target && k1.diff == 15000;
    var (s, k) := LoggedIn(k1, hashrate, job, Nonce.Grant(10, 20));
    SecondLoginVerdicts(s, k, v);
  }

  lemma OneThreadTargets(hashrate: real, pool: string)
    requires hashrate == 1000.0 && pool == DifficultyTarget(1000000)
    ensures Aim(hashrate) == 15000
    ensures var first := DifficultyTarget(15000);
            Decode(first) == Some(Decoded(U64 / 15000, 15000)) && NonZero(first) && first != ""
    ensures Decode(pool) == Some(Decoded(U64 / 1000225, 1000225)) && NonZero(pool) && pool != ""
  {
    hide Decode, NonZero, DifficultyTarget;
    assert hashrate * SHARE_SECONDS == 15000.0;
    DifficultyTargetReads(15000);
    DifficultyTargetReads(1000000);
  }

  lemma TwoRanges()
    ensures var (one, two) := (Nonce.Grant(0, 10), Nonce.Grant(10, 20));
            && Recorded(Recorded(Book("", [], []), "1", one), "1", two) == Book("1", [], [Nonce.Grant(0, 20)])
            && Recorded(Book("", [], []), "1", two) == Book("1", [], [two])
            && Owned(Book("1", [], [Nonce.Grant(0, 20)]), 5) && !Owned(Book("1", [], [two]), 5)
  {
    assert Nonce.InGrant([Nonce.Grant(0, 20)][0], 5);
  }

  lemma SecondLoginVerdicts(s: Standing, k: Known, v: Option<nat>)
    requires AllFair(s) && Readable(k) && s.job.Some? && !Owned(s.book, 5) && Owned(k.book, 5)
    requires k.prior == "" && k.target != "" && k.pool != "" && Meets(v, k.target) && !Meets(v, k.pool)
    ensures LocalVerdict(s, Some(5), v).0 == Denied(OutsideRange)
    ensures WorkerReply(k, k.jobId, Some(5), v).0 == Took(k.diff, ValueDifficulty(v))
  {
    hide Decode, NonZero, Meets, Owned;
  }

  /** A compact target of the pool never leads to that: the first target is the easiest compact one
      for its difficulty. */
  lemma CompactIsOrdered(hashrate: real, job: Job, grant: Nonce.Grant)
    requires Decode(job.target).Some? && NonZero(job.target) && |job.target| < 16 && Aim(hashrate) <= U32
    ensures var (s, _) := LoggedIn(NOTHING_KNOWN, hashrate, job, grant); AllFair(s) && Ordered(s)
  {
    hide Decode, NonZero, DifficultyTarget, Tuned, Aim, Recorded;
    var first := FirstIssue(hashrate);
    FirstTarget(hashrate, job.target);
    FirstIssueIsFair(hashrate);
    EasiestTarget(Aim(hashrate), job.target);
    var (s, _) := LoggedIn(NOTHING_KNOWN, hashrate, job, grant);
    if s.prior.Some? && s.prior.value.difficulty < s.issue.difficulty {
      ValueOf(first.target);
      ValueOf(job.target);
      Smaller(U64, Difficulty(first.target), Difficulty(job.target));
    }
  }

  /** With 30 threads and a pool of difficulty 450010, the first target counts as 450000 and is worth
      450017: a share that solves for the pool is refused as below the target. */
  lemma SolutionRefused(hashrate: real, limit: nat, job: Job, grant: Nonce.Grant)
    requires hashrate == 30000.0 && limit == U64 / 450010
    requires job == Job("1", WriteLE(limit, 8)) && grant == Nonce.Grant(0, 10)
    ensures
      Decode(job.target).Some? &&
      var (s, k) := LoggedIn(NOTHING_KNOWN, hashrate, job, grant);
      && AllFair(s) && !Ordered(s)
      && Meets(Some(limit), job.target) && s.issue.target == job.target
      && LocalVerdict(s, Some(0), Some(limit)).0 == Denied(BelowTarget)
  {
    hide Decode, NonZero, DifficultyTarget, Tuned, Aim, LocalVerdict, Owned, Recorded, WriteLE;
    RefusingPool(hashrate, limit, job.target);
    FirstTarget(hashrate, job.target);
    EmptyIsZero();
    FirstRange(grant);
    var (s, k) := LoggedIn(NOTHING_KNOWN, hashrate, job, grant);
    assert s.issue == Issue(job.target, 450010) && s.prior == Some(Issue(DifficultyTarget(450000), 450000));
    VerdictIs(s, Some(0), Some(limit));
  }

  lemma RefusingPool(hashrate: real, limit: nat, pool: string)
    requires hashrate == 30000.0 && limit == U64 / 450010 && pool == WriteLE(limit, 8)
    ensures Aim(hashrate) == 450000
    ensures var first := DifficultyTarget(450000);
            Decode(first) == Some(Decoded(U64 / 450017, 450017)) && NonZero(first) && first != "" && first != pool
    ensures Decode(pool) == Some(Decoded(limit, 450010)) && NonZero(pool) && pool != ""
  {
    hide Decode, NonZero, DifficultyTarget, WriteLE;
    assert hashrate * SHARE_SECONDS == 450000.0;
    DifficultyTargetReads(450000);
    WideDecodes(limit);
    assert U64 / limit == 450010;
  }

  lemma NewTargets(hashrate: real, pool: string)
    requires hashrate == 30000.0 && pool == DifficultyTarget(1000000)
    ensures Aim(hashrate) == 450000
    ensures var first := DifficultyTarget(450000);
            Decode(first) == Some(Decoded(U64 / 450017, 450017)) && NonZero(first) && first != ""
    ensures Decode(pool) == Some(Decoded(U64 / 1000225, 1000225)) && NonZero(pool) && pool != ""
  {
    hide Decode, NonZero, DifficultyTarget;
    assert hashrate * SHARE_SECONDS == 450000.0;
    DifficultyTargetReads(450000);
    DifficultyTargetReads(1000000);
  }

  lemma FirstRange(grant: Nonce.Grant)
    requires grant == Nonce.Grant(0, 10)
    ensures Owned(Recorded(Book("", [], []), "1", grant), 0)
  {
    var b := Recorded(Book("", [], []), "1", grant);
    assert b.ranges == [grant] && Nonce.InGrant(b.ranges[0], 0);
  }

  lemma LoginVerdicts(s: Standing, k: Known, v: Option<nat>)
    requires AllFair(s) && Readable(k) && s.prior.None? && s.job.Some? && Owned(s.book, 0) && k.book == s.book
    requires k.prior == "" && k.target == s.issue.target != "" && k.pool == s.job.value.target != ""
    requires Meets(v, s.issue.target) && !Meets(v, k.pool)
    ensures LocalVerdict(s, Some(0), v).0 == Absorbed(s.issue.difficulty, ValueDifficulty(v))
    ensures WorkerReply(k, k.jobId, Some(0), v).0 == Took(k.diff, ValueDifficulty(v))
  {
    hide Decode, NonZero, Meets, Owned;
  }
}

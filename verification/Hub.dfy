/** The two backends of the proxy: the primary, which settles every share, and a worker, which
    settles the shares that need not go to the pool and sends the primary their sums. */
module Hub {
  import opened Arithmetic
  import opened Targets
  import opened VarDiffs
  import opened Ledgers
  import opened Shares
  import Nonce
  import opened Options

  type Session = nat

  datatype Tally = Tally(shares: nat, work: nat, actual: nat)

  function NoShares(): Tally { Tally(0, 0, 0) }

  function Plus(a: Tally, b: Tally): Tally {
    Tally(a.shares + b.shares, a.work + b.work, a.actual + b.actual)
  }

  /** What a worker sends to the primary: a share with or without waiting for the answer, or the
      sums of the shares it has taken. */
  datatype Message =
    | Call(session: Session, jobId: string, nonce: string, result: string)
    | Sub(session: Session, jobId: string, nonce: string, result: string)
    | Acc(sums: map<Session, Tally>)
    | Bye(session: Session)

  function SumOf(sums: map<Session, Tally>, id: Session): Tally {
    if id in sums then sums[id] else NoShares()
  }

  /** All that was sent about the shares taken on a session. */
  function Accounted(sent: seq<Message>, id: Session): Tally {
    if sent == [] then NoShares()
    else
      var n := |sent| - 1;
      Plus(Accounted(sent[..n], id), if sent[n].Acc? then SumOf(sent[n].sums, id) else NoShares())
  }

  lemma SendMore(sent: seq<Message>, m: Message, id: Session)
    ensures Accounted(sent + [m], id) == Plus(Accounted(sent, id), if m.Acc? then SumOf(m.sums, id) else NoShares())
  {
    assert (sent + [m])[..|sent|] == sent;
  }

  /** Sums come from shares: without any there is no work. */
  predicate Earned(sent: seq<Message>, id: Session) {
    forall i :: 0 <= i < |sent| && sent[i].Acc? && SumOf(sent[i].sums, id).shares == 0 ==>
      SumOf(sent[i].sums, id).work == 0
  }

  /** Every share taken is either still in the tallies or has been sent, once. */
  ghost predicate Balanced(taken: map<Session, Tally>, sent: seq<Message>, tallies: map<Session, Tally>) {
    forall id: Session :: InBalance(taken, sent, tallies, id)
  }

  ghost predicate InBalance(taken: map<Session, Tally>, sent: seq<Message>, tallies: map<Session, Tally>, id: Session) {
    && SumOf(taken, id) == Plus(Accounted(sent, id), SumOf(tallies, id))
    && Earned(sent, id) && (SumOf(tallies, id).shares == 0 ==> SumOf(tallies, id).work == 0)
  }

  function AddTo(sums: map<Session, Tally>, id: Session, credit: nat, actual: nat): map<Session, Tally> {
    sums[id := Plus(SumOf(sums, id), Tally(1, credit, actual))]
  }

  lemma EarnMore(sent: seq<Message>, m: Message, id: Session)
    requires Earned(sent, id) && (m.Acc? && SumOf(m.sums, id).shares == 0 ==> SumOf(m.sums, id).work == 0)
    ensures Earned(sent + [m], id)
  {
    assert forall i :: 0 <= i < |sent| ==> (sent + [m])[i] == sent[i];
  }

  lemma PlusNothing(a: Tally)
    ensures Plus(a, NoShares()) == a
  {
  }

  lemma NothingIn(id: Session)
    ensures SumOf(map[], id) == NoShares()
  {
  }

  lemma Regroup(a: Tally, b: Tally, c: Tally)
    ensures Plus(Plus(a, b), c) == Plus(a, Plus(b, c))
  {
  }

  lemma AddedAt(sums: map<Session, Tally>, id: Session, credit: nat, actual: nat, i: Session)
    ensures SumOf(AddTo(sums, id, credit, actual), i) == if i == id
      then Plus(SumOf(sums, i), Tally(1, credit, actual)) else SumOf(sums, i)
    ensures i == id ==> SumOf(AddTo(sums, id, credit, actual), i).shares > 0
  {
  }

  lemma TakingBalances(taken: map<Session, Tally>, sent: seq<Message>,
      tallies: map<Session, Tally>, id: Session, credit: nat, actual: nat)
    requires Balanced(taken, sent, tallies)
    ensures Balanced(AddTo(taken, id, credit, actual), sent, AddTo(tallies, id, credit, actual))
  {
    forall i: Session ensures InBalance(AddTo(taken, id, credit, actual), sent, AddTo(tallies, id, credit, actual), i) {
      hide Accounted, Earned, SumOf, Plus, AddTo;
      assert InBalance(taken, sent, tallies, i);
      AddedAt(taken, id, credit, actual, i);
      AddedAt(tallies, id, credit, actual, i);
      Regroup(Accounted(sent, i), SumOf(tallies, i), Tally(1, credit, actual));
    }
  }

  /** Sending the sums balances only when they are all that is in the tallies. */
  lemma FlushingBalances(taken: map<Session, Tally>, sent: seq<Message>, tallies: map<Session, Tally>)
    requires Balanced(taken, sent, tallies)
    ensures Balanced(taken, sent + [Acc(tallies)], map[])
  {
    forall id: Session ensures InBalance(taken, sent + [Acc(tallies)], map[], id) {
      hide Accounted, SumOf, Plus, Earned;
      assert InBalance(taken, sent, tallies, id);
      SendMore(sent, Acc(tallies), id);
      EarnMore(sent, Acc(tallies), id);
      PlusNothing(Plus(Accounted(sent, id), SumOf(tallies, id)));
      NothingIn(id);
    }
  }

  lemma OthersBalance(taken: map<Session, Tally>, sent: seq<Message>, tallies: map<Session, Tally>, m: Message)
    requires Balanced(taken, sent, tallies) && !m.Acc?
    ensures Balanced(taken, sent + [m], tallies)
  {
    forall id: Session ensures InBalance(taken, sent + [m], tallies, id) {
      hide Accounted, SumOf, Plus, Earned;
      assert InBalance(taken, sent, tallies, id);
      SendMore(sent, m, id);
      EarnMore(sent, m, id);
      PlusNothing(Accounted(sent, id));
    }
  }

  lemma NothingBalances()
    ensures Balanced(map[], [], map[])
  {
    hide Accounted, SumOf, Plus, Earned;
    forall id: Session ensures InBalance(map[], [], map[], id) {
      NothingIn(id);
      PlusNothing(NoShares());
      NothingSent(id);
    }
  }

  lemma NothingSent(id: Session)
    ensures Accounted([], id) == NoShares() && Earned([], id)
  {
  }

  predicate AllReadable(jobs: map<Session, Known>) {
    forall id :: id in jobs ==> Readable(jobs[id])
  }

  lemma KnownIsReadable(jobs: map<Session, Known>, id: Session)
    requires AllReadable(jobs)
    ensures id in jobs ==> Readable(jobs[id])
  {
  }

  lemma SettlingKeepsReadable(jobs: map<Session, Known>, id: Session)
    requires AllReadable(jobs) && id in jobs
    ensures AllReadable(jobs[id := jobs[id].(prior := "")])
  {
    EmptyIsZero();
  }

  /** Nothing known of a session credits more than hashes are worth. */
  predicate AllWorth(jobs: map<Session, Known>) {
    forall id :: id in jobs ==> Readable(jobs[id]) && KnownWorth(jobs[id])
  }

  /** Sums of shares credit no more than the hashes of the shares are worth. */
  predicate Covered(sums: map<Session, Tally>) {
    forall id :: id in sums ==> sums[id].work <= sums[id].actual
  }

  lemma SettlingKeepsWorth(jobs: map<Session, Known>, id: Session)
    requires AllWorth(jobs) && id in jobs
    ensures AllWorth(jobs[id := jobs[id].(prior := "")])
  {
    EmptyIsZero();
  }

  lemma AddingCovers(sums: map<Session, Tally>, id: Session, credit: nat, actual: nat)
    requires Covered(sums) && credit <= actual
    ensures Covered(AddTo(sums, id, credit, actual))
  {
  }

  lemma WorthOf(jobs: map<Session, Known>, id: Session)
    requires AllWorth(jobs)
    ensures id in jobs ==> Readable(jobs[id]) && KnownWorth(jobs[id])
  {
  }

  lemma LearningKeepsAllWorth(jobs: map<Session, Known>, id: Session, known: Known)
    requires AllWorth(jobs) && Readable(known) && KnownWorth(known)
    ensures AllWorth(jobs[id := known])
  {
  }

  function KnownOf(jobs: map<Session, Known>, id: Session): Known {
    if id in jobs then jobs[id] else NOTHING_KNOWN
  }

  lemma KeepsWorth(jobs: map<Session, Known>, id: Session, p: Payload)
    requires AllWorth(jobs)
    requires p.job.Some? && p.job.value.target.Some? ==> Decode(p.job.value.target.value).Some?
    requires p.job.Some? && p.job.value.pool.Some? ==> Decode(p.job.value.pool.value).Some?
    requires PayloadWorth(p)
    ensures AllWorth(jobs[id := Learned(KnownOf(jobs, id), p)])
  {
    hide Decode, KnownWorth, PayloadWorth, Learned;
    EmptyIsZero();
    NothingKnownWorth();
    LearningKeepsWorth(KnownOf(jobs, id), p);
    LearningKeepsAllWorth(jobs, id, Learned(KnownOf(jobs, id), p));
  }

  lemma NothingKnownWorth()
    ensures Readable(NOTHING_KNOWN) && KnownWorth(NOTHING_KNOWN)
  {
    EmptyIsZero();
  }

  class WorkerBackend {
    var jobs: map<Session, Known>
    var tallies: map<Session, Tally>
    var sent: seq<Message>
    /** The sums of all the shares taken so far. */
    ghost var taken: map<Session, Tally>

    ghost predicate Valid()
      reads this
    {
      AllReadable(jobs) && Balanced(taken, sent, tallies)
    }

    /** No session credits more than the hashes of its shares are worth. */
    ghost predicate Fair()
      reads this
    {
      AllWorth(jobs) && Covered(tallies) && Covered(taken)
    }

    constructor ()
      ensures Valid() && Fair() && jobs == map[] && tallies == map[] && sent == [] && taken == map[]
    {
      hide Balanced;
      jobs, tallies, sent, taken := map[], map[], [], map[];
      NothingBalances();
    }

    /** `tally` */
    method Add(id: Session, difficulty: nat, actual: nat)
      requires Valid()
      modifies `tallies, `taken
      ensures Valid() && taken == AddTo(old(taken), id, difficulty, actual)
      ensures tallies == AddTo(old(tallies), id, difficulty, actual)
    {
      hide Balanced, AllReadable;
      TakingBalances(taken, sent, tallies, id, difficulty, actual);
      var sum := if id in tallies then tallies[id] else NoShares();
      tallies := tallies[id := Tally(sum.shares + 1, sum.work + difficulty, sum.actual + actual)];
      taken := AddTo(taken, id, difficulty, actual);
    }

    /** `flush` moves all tallies into one message. */
    method Flush()
      requires Valid()
      modifies `tallies, `sent
      ensures Valid() && tallies == map[] && (old(Fair()) ==> Fair())
      ensures sent == if old(tallies) == map[] then old(sent) else old(sent) + [Acc(old(tallies))]
    {
      hide Balanced, AllReadable, AllWorth;
      if |tallies| == 0 {
        return;
      }
      FlushingBalances(taken, sent, tallies);
      var d := tallies;
      tallies := map[];
      sent := sent + [Acc(d)];
    }

    method Close(id: Session)
      requires Valid()
      modifies `tallies, `sent, `jobs
      ensures Valid() && jobs == old(jobs) - {id} && id !in tallies && (old(Fair()) ==> Fair())
      ensures sent == (if id in old(tallies) then old(sent) + [Acc(old(tallies))] else old(sent)) + [Bye(id)]
    {
      hide Balanced;
      if id in tallies {
        Flush();
      }
      jobs := jobs - {id};
      OthersBalance(taken, sent, tallies, Bye(id));
      sent := sent + [Bye(id)];
    }

    /** `learn` */
    method Learn(id: Session, p: Payload)
      requires Valid() && (p.job.Some? && p.job.value.target.Some? ==> Decode(p.job.value.target.value).Some?)
      requires p.job.Some? && p.job.value.pool.Some? ==> Decode(p.job.value.pool.value).Some?
      modifies `jobs
      ensures Valid() && jobs == old(jobs)[id := Learned(KnownOf(old(jobs), id), p)]
      ensures old(Fair()) && PayloadWorth(p) ==> Fair()
    {
      hide Decode, Balanced, AllWorth, Covered, KnownWorth, PayloadWorth, Recorded;
      if Fair() && PayloadWorth(p) {
        KeepsWorth(jobs, id, p);
      }
      EmptyIsZero();
      var known := if id in jobs then jobs[id] else NOTHING_KNOWN;
      if p.job.Some? {
        var part := p.job.value;
        known := known.(jobId := part.id, pool := if part.pool.Some? then part.pool.value else known.pool);
        if part.target.Some? && part.target.value != known.target {
          known := known.(prior := known.target, older := known.diff);
          known := known.(target := part.target.value, diff := Difficulty(part.target.value));
        }
      }
      if p.grant.Some? && known.jobId != "" {
        known := known.(book := Recorded(known.book, known.jobId, p.grant.value));
      }
      jobs := jobs[id := known];
    }

    method Owns(book: Book, nonce: nat) returns (r: bool)
      ensures r <==> Owned(book, nonce)
    {
      r := FindIn(book.ranges, nonce);
      if !r {
        r := FindIn(book.prior, nonce);
      }
    }

    /** A share that the worker cannot settle goes to the primary, which answers. */
    method AskPrimary(id: Session, jobId: string, nonce: string, result: string)
      requires Valid()
      modifies `sent
      ensures Valid() && sent == old(sent) + [Call(id, jobId, nonce, result)]
    {
      hide Balanced, AllReadable;
      OthersBalance(taken, sent, tallies, Call(id, jobId, nonce, result));
      sent := sent + [Call(id, jobId, nonce, result)];
    }

    method Forward(id: Session, jobId: string, nonce: string, result: string)
      requires Valid()
      modifies `sent
      ensures Valid() && sent == old(sent) + [Sub(id, jobId, nonce, result)]
    {
      hide Balanced, AllReadable;
      OthersBalance(taken, sent, tallies, Sub(id, jobId, nonce, result));
      sent := sent + [Sub(id, jobId, nonce, result)];
    }

    /** The reply to a share, and the prior target settled when it meets the current one. */
    method Judge(id: Session, jobId: string, nonce: string, result: string) returns (reply: Reply)
      requires Valid() && id in jobs
      modifies `jobs
      ensures Valid() && (old(AllWorth(jobs)) ==> AllWorth(jobs))
      ensures var (r, prior) := WorkerReply(old(jobs)[id], jobId, Claimed(nonce), HashValue(result));
              reply == r && jobs == old(jobs)[id := old(jobs)[id].(prior := prior)]
    {
      hide Decode, Owned, Balanced, AllReadable, AllWorth, HashValue, Claimed;
      KnownIsReadable(jobs, id);
      var known, claimed := jobs[id], Claimed(nonce);
      if known.target == "" || known.pool == "" || known.jobId != jobId || claimed.None? {
        return Ask;
      }
      var owns := Owns(known.book, claimed.value);
      if !owns {
        return Ask;
      }
      var (floor, difficulty) :=
        if known.prior != "" && known.older < known.diff then (known.prior, known.older)
          else (known.target, known.diff);
      var v := HashValue(result);
      if !Meets(v, floor) {
        return Below;
      }
      var current := Meets(v, known.target);
      if known.prior != "" && current {
        SettlingKeepsReadable(jobs, id);
        if AllWorth(jobs) {
          SettlingKeepsWorth(jobs, id);
        }
        jobs := jobs[id := known.(prior := "")];
      }
      reply := if Meets(v, known.pool) then Sent
               else Took(if current && known.diff > difficulty then known.diff else difficulty, ValueDifficulty(v));
    }

    /** `submit`: shares that are below the target are refused, those that need not go to the pool
        are taken, and those that do, or cannot be settled here, are sent to the primary. */
    method Submit(id: Session, jobId: string, nonce: string, result: string) returns (reply: Reply)
      requires Valid()
      modifies `jobs, `tallies, `taken, `sent
      ensures Valid() && (old(Fair()) ==> Fair())
      ensures id !in old(jobs) ==> reply == Ask && jobs == old(jobs)
      ensures id in old(jobs) ==>
        var (r, prior) := WorkerReply(old(jobs)[id], jobId, Claimed(nonce), HashValue(result));
        reply == r && jobs == old(jobs)[id := old(jobs)[id].(prior := prior)]
      ensures taken == if reply.Took? then AddTo(old(taken), id, reply.credit, reply.actual) else old(taken)
      ensures tallies == if reply.Took? then AddTo(old(tallies), id, reply.credit, reply.actual) else old(tallies)
      ensures sent == match reply
                      case Ask => old(sent) + [Call(id, jobId, nonce, result)]
                      case Sent => old(sent) + [Sub(id, jobId, nonce, result)]
                      case _ => old(sent)
    {
      hide Decode, Balanced, AllReadable, AllWorth, AddTo, WorkerReply, HashValue, Claimed, KnownWorth, Covered;
      if id !in jobs {
        AskPrimary(id, jobId, nonce, result);
        return Ask;
      }
      KnownIsReadable(jobs, id);
      if Fair() {
        WorthOf(jobs, id);
        WorkerCreditIsFair(jobs[id], jobId, Claimed(nonce), result);
      }
      ghost var fair := Fair();
      reply := Judge(id, jobId, nonce, result);
      match reply
      case Ask => AskPrimary(id, jobId, nonce, result);
      case Below =>
      case Sent => Forward(id, jobId, nonce, result);
      case Took(credit, actual) =>
        if fair {
          AddingCovers(tallies, id, credit, actual);
          AddingCovers(taken, id, credit, actual);
        }
        Add(id, credit, actual);
    }
  }

  // The primary

  /** Math.round(work / shares): the nearest integer, the upper one of two. */
  function PerShare(work: nat, shares: nat): nat
    requires shares > 0
  {
    (2 * work + shares) / (2 * shares)
  }

  /** What is credited for a sum of shares is within half a unit per share of the sum. */
  lemma RoundingIsNear(work: nat, shares: nat)
    requires shares > 0
    ensures -(shares as int) < 2 * (PerShare(work, shares) * shares - work) <= shares
  {
    var d := PerShare(work, shares);
    Euclid(2 * work + shares, 2 * shares);
    assert d * (2 * shares) == 2 * (d * shares);
  }

  /** The work that the primary credits for all the sums sent to it. */
  function CreditedWork(sent: seq<Message>, id: Session): int {
    if sent == [] then 0
    else
      var n := |sent| - 1;
      var sum := if sent[n].Acc? then SumOf(sent[n].sums, id) else NoShares();
      CreditedWork(sent[..n], id) + Credit(sum)
  }

  lemma {:induction false} CreditedIsNear(sent: seq<Message>, id: Session)
    requires Earned(sent, id)
    ensures var sum := Accounted(sent, id);
            -(sum.shares as int) <= 2 * (CreditedWork(sent, id) - sum.work) <= sum.shares
  {
    if sent != [] {
      hide PerShare;
      var n := |sent| - 1;
      assert forall i :: 0 <= i < n ==> sent[..n][i] == sent[i];
      CreditedIsNear(sent[..n], id);
      var sum := if sent[n].Acc? then SumOf(sent[n].sums, id) else NoShares();
      if sum.shares > 0 {
        RoundingIsNear(sum.work, sum.shares);
      }
    }
  }

  /** Once a worker has flushed, the primary's credit for a session is within half a unit per
      share of the work of all the shares that the worker has taken. */
  lemma FlushedIsNear(taken: map<Session, Tally>, sent: seq<Message>, id: Session)
    requires Balanced(taken, sent, map[])
    ensures var sum := SumOf(taken, id);
            -(sum.shares as int) <= 2 * (CreditedWork(sent, id) - sum.work) <= sum.shares
  {
    hide Accounted, SumOf, Plus, Earned, CreditedWork;
    assert InBalance(taken, sent, map[], id);
    NothingIn(id);
    PlusNothing(Accounted(sent, id));
    CreditedIsNear(sent, id);
  }

  datatype ShareReport = ShareReport(accepted: bool, forwarded: bool, difficulty: nat, actual: nat, solved: nat)

  /** What the primary has for one session: besides targets and ranges the hashrate that the
      upstream counts the miner with. */
  class Entry {
    const vardiff: VarDiff
    const ledger: Ledger
    var job: Option<Job>
    var rate: real

    ghost predicate Valid()
      reads this, vardiff, ledger
    {
      vardiff.Valid() && ledger.Valid() && (job.Some? ==> Decode(job.value.target).Some? && NonZero(job.value.target))
    }

    function Value(): Standing
      reads this, vardiff, ledger
    {
      Standing(vardiff.issue, vardiff.prior, job, ledger.Value())
    }

    constructor (vardiff: VarDiff, ledger: Ledger)
      ensures this.vardiff == vardiff && this.ledger == ledger && job == None && rate == vardiff.hashrate
    {
      this.vardiff, this.ledger, job, rate := vardiff, ledger, None, vardiff.hashrate;
    }

    /** `if (!told) upstream.report(client, hashrate)` */
    method Report()
      modifies `rate
      ensures rate == if !vardiff.told && vardiff.hashrate > 0.0 then vardiff.hashrate else old(rate)
    {
      if !vardiff.told && vardiff.hashrate > 0.0 {
        rate := vardiff.hashrate;
      }
    }
  }

  class LocalBackend {
    var entries: map<Session, Entry>
    var reports: seq<ShareReport>

    constructor ()
      ensures entries == map[] && reports == []
    {
      entries, reports := map[], [];
    }

    function EntryOf(id: Session): set<Entry>
      reads this
    {
      if id in entries then {entries[id]} else {}
    }

    function VarDiffOf(id: Session): set<VarDiff>
      reads this, EntryOf(id)
    {
      if id in entries then {entries[id].vardiff} else {}
    }

    function LedgerOf(id: Session): set<Ledger>
      reads this, EntryOf(id)
    {
      if id in entries then {entries[id].ledger} else {}
    }

    /** `submit`, up to where the pool is asked: a share that is taken settles the prior target
        when it meets the current one, and its credit is added to the miner's work. */
    method Settle(e: Entry, nonce: Option<nat>, v: Option<nat>, now: real) returns (verdict: Verdict)
      requires e.Valid()
      modifies e.vardiff
      ensures e.Valid() && (verdict, e.vardiff.prior) == LocalVerdict(old(e.Value()), nonce, v)
      ensures e.vardiff.issue == old(e.vardiff.issue) && e.vardiff.solved == old(e.vardiff.solved)
      ensures e.vardiff.told == old(e.vardiff.told)
      ensures e.vardiff.accepted == old(e.vardiff.accepted) + if verdict.Denied? then 0 else 1
      ensures e.vardiff.work == old(e.vardiff.work) + if verdict.Denied? then 0 else verdict.credit
    {
      hide Decode, NonZero, Owned, Counted;
      if e.job.None? {
        return Denied(NoJob);
      }
      if nonce.None? {
        return Denied(MalformedNonce);
      }
      var owns := e.ledger.Owns(nonce.value);
      if !owns {
        return Denied(OutsideRange);
      }
      var issue := e.vardiff.Floor();
      if !Meets(v, issue.target) {
        return Denied(BelowTarget);
      }
      var current := e.vardiff.issue;
      var settled := issue.target == current.target || Meets(v, current.target);
      if settled {
        e.vardiff.Settle();
      }
      var difficulty := if settled && current.difficulty > issue.difficulty then current.difficulty
        else issue.difficulty;
      e.vardiff.Submitted(difficulty, 1, now);
      verdict := if Meets(v, e.job.value.target) then Forwarded(difficulty)
        else Absorbed(difficulty, ValueDifficulty(v));
    }

    /** `submit`, with the pool's answer to a share that is forwarded: whether it accepts it, or
        nothing when asking fails. */
    method Submit(id: Session, nonce: string, result: string, now: real, answer: Option<bool>)
        returns (verdict: Verdict)
      requires id in entries ==> entries[id].Valid()
      modifies `reports, EntryOf(id)`rate, VarDiffOf(id)
      ensures id !in entries ==> verdict == Denied(NotLoggedIn) && reports == old(reports)
      ensures id in entries ==>
        var e := entries[id];
        && e.Valid() && e.vardiff.issue == old(e.vardiff.issue)
        && (verdict, e.vardiff.prior) == LocalVerdict(old(e.Value()), Claimed(nonce), HashValue(result))
        && e.vardiff.work == old(e.vardiff.work) + (if verdict.Denied? then 0 else verdict.credit)
        && e.vardiff.solved == old(e.vardiff.solved) +
             (if verdict.Forwarded? && answer == Some(true) then Difficulty(e.job.value.target) else 0)
        && e.rate == (if !verdict.Denied? && !e.vardiff.told && e.vardiff.hashrate > 0.0 then e.vardiff.hashrate
          else old(e.rate))
        && reports == old(reports) + ReportsOf(verdict, HashValue(result), answer, e.job)
        && TotalOf(reports).work - old(TotalOf(reports).work) == e.vardiff.work - old(e.vardiff.work)
        && TotalOf(reports).solved - old(TotalOf(reports).solved) == e.vardiff.solved - old(e.vardiff.solved)
        && |reports| - old(|reports|) == e.vardiff.accepted - old(e.vardiff.accepted)
    {
      hide Decode, NonZero, LocalVerdict, HashValue, Claimed, TotalOf;
      if id !in entries {
        return Denied(NotLoggedIn);
      }
      var e, v := entries[id], HashValue(result);
      JobGoesOnly(e.Value(), Claimed(nonce), v);
      verdict := Settle(e, Claimed(nonce), v, now);
      if !verdict.Denied? {
        e.Report();
      }
      if verdict.Forwarded? && answer == Some(true) {
        e.vardiff.Credit(Difficulty(e.job.value.target));
      }
      ReportIs(verdict, v, answer, e.job);
      TotalsAdd(reports, ReportsOf(verdict, v, answer, e.job));
      reports := reports + ReportsOf(verdict, v, answer, e.job);
    }

    /** `account`: the sums of a worker are credited, at the same difficulty for each share. */
    method Account(id: Session, sum: Tally, now: real)
      requires id in entries ==> entries[id].vardiff.Valid()
      modifies `reports, EntryOf(id)`rate, VarDiffOf(id)
      ensures id in entries ==>
        var e := entries[id];
        && e.vardiff.Valid() && e.vardiff.accepted == old(e.vardiff.accepted) + sum.shares
        && e.vardiff.work == old(e.vardiff.work) + Credit(sum)
        && e.rate == (if sum.shares > 0 && !e.vardiff.told && e.vardiff.hashrate > 0.0 then e.vardiff.hashrate
          else old(e.rate))
      ensures reports == old(reports) + if id in entries then ReportsFor(sum) else []
      ensures id in entries ==>
        var v := entries[id].vardiff;
        && TotalOf(reports).work - old(TotalOf(reports).work) == v.work - old(v.work)
        && TotalOf(reports).solved == old(TotalOf(reports).solved)
        && |reports| - old(|reports|) == sum.shares
    {
      hide TotalOf, Counted, Fair;
      if id !in entries || !(sum.shares > 0) {
        return;
      }
      var e := entries[id];
      var difficulty := PerShare(sum.work, sum.shares);
      var report := ShareReport(true, false, difficulty, PerShare(sum.actual, sum.shares), 0);
      e.vardiff.Submitted(difficulty, sum.shares, now);
      for i := 0 to sum.shares
        modifies `reports
        invariant reports == old(reports) + seq(i, _ => report)
      {
        reports := reports + [report];
      }
      e.Report();
      TotalsFor(sum);
      TotalsAdd(old(reports), ReportsFor(sum));
    }

    /** All that a worker has sent about a session, in order. */
    method AccountAll(sent: seq<Message>, id: Session, now: real)
      requires id in entries && entries[id].vardiff.Valid()
      modifies `reports, EntryOf(id)`rate, VarDiffOf(id)
      ensures entries[id].vardiff.Valid()
      ensures entries[id].vardiff.work == old(entries[id].vardiff.work) + CreditedWork(sent, id)
    {
      hide Credit, VarDiff.Valid;
      for i := 0 to |sent|
        invariant entries[id].vardiff.Valid()
        invariant entries[id].vardiff.work == old(entries[id].vardiff.work) + CreditedWork(sent[..i], id)
      {
        assert sent[..i + 1][..i] == sent[..i];
        NothingCredited();
        if sent[i].Acc? && id in sent[i].sums {
          Account(id, sent[i].sums[id], now);
        }
      }
      assert sent[..|sent|] == sent;
    }

    /** Tallying, flushing and accounting move the work of the shares that a worker has taken into
        the miner's work, within half a unit per share. */
    method AccountFlushed(w: WorkerBackend, id: Session, now: real)
      requires id in entries && entries[id].vardiff.Valid() && w.Valid() && w.tallies == map[]
      modifies `reports, EntryOf(id)`rate, VarDiffOf(id)
      ensures entries[id].vardiff.Valid()
      ensures var (moved, sum) := (entries[id].vardiff.work - old(entries[id].vardiff.work), SumOf(w.taken, id));
              -(sum.shares as int) <= 2 * (moved - sum.work) <= sum.shares
    {
      hide Balanced, CreditedWork, AllReadable, VarDiff.Valid, SumOf;
      FlushedIsNear(w.taken, w.sent, id);
      AccountAll(w.sent, id, now);
    }

    /** A job for a session with a range of its nonces, as attaching, a new job and migrating send
        it: the range goes into the ledger, the target is tuned to the pool's. */
    method Push(id: Session, job: Job, grant: Nonce.Grant) returns (p: Payload)
      requires id in entries && entries[id].Valid() && grant.start < grant.limit && Decode(job.target).Some?
      modifies EntryOf(id)`job, VarDiffOf(id), LedgerOf(id)
      ensures var e := entries[id];
              var s := old(e.Value());
              && e.Value() == TunedStanding(s, e.vardiff.hashrate, job, grant)
              && p == Announced(s, e.Value(), grant, false)
              && (NonZero(job.target) ==> e.Valid())
    {
      hide Decode, NonZero, Keeps, Recorded, Tuned, FollowsRate;
      var e := entries[id];
      ghost var s := e.Value();
      e.job := Some(job);
      e.ledger.Record(job.id, grant);
      var target := e.vardiff.Tune(job.target);
      TunedNotZero(s.issue.difficulty, e.vardiff.hashrate, job.target);
      p := Payload(Some(JobPart(job.id, target, Some(job.target))), Some(grant));
    }

    /** `chunk`, with the range that the upstream grants, if any: a stated hashrate is observed, and
        the job is sent again only when tuning changes the target. */
    method Chunk(id: Session, stated: real, grant: Option<Nonce.Grant>) returns (p: Option<Payload>)
      requires id in entries ==> entries[id].Valid()
      requires grant.Some? ==> id in entries && entries[id].job.Some? && grant.value.start < grant.value.limit
      modifies EntryOf(id)`rate, VarDiffOf(id), LedgerOf(id)
      ensures id !in entries ==> p == None
      ensures id in entries ==>
              var e := entries[id];
              var s := old(e.Value());
              && (stated > 0.0 ==> e.vardiff.told && e.vardiff.hashrate == stated == e.rate)
              && (stated <= 0.0 ==> e.vardiff.hashrate == old(e.vardiff.hashrate) && e.rate == old(e.rate))
              && e.Valid()
              && match grant
                 case None => p == None && e.Value() == s
                 case Some(g) =>
                   && e.Value() == TunedStanding(s, e.vardiff.hashrate, s.job.value, g)
                   && p == Some(Announced(s, e.Value(), g, true))
    {
      hide Decode, NonZero, Keeps, Recorded, Tuned, FollowsRate;
      if id !in entries {
        return None;
      }
      var e := entries[id];
      if stated > 0.0 {
        e.vardiff.Observe(stated);
        e.rate := stated;
      }
      if grant.None? {
        return None;
      }
      ghost var s := e.Value();
      var job, before := e.job.value, e.vardiff.issue.target;
      e.ledger.Record(job.id, grant.value);
      var target := e.vardiff.Tune(job.target);
      TunedNotZero(s.issue.difficulty, e.vardiff.hashrate, job.target);
      p := Some(if e.vardiff.issue.target == before then Payload(None, grant)
                else Payload(Some(JobPart(job.id, target, Some(job.target))), grant));
    }
  }

  lemma TunedNotZero(difficulty: nat, hashrate: real, pool: string)
    requires Decode(pool).Some?
    ensures NonZero(pool) ==> NonZero(Tuned(difficulty, hashrate, pool))
  {
    if NonZero(pool) {
      TunedLosesNothing(difficulty, hashrate, pool, None);
    }
  }

  /** The work that a sum of shares is credited with. */
  function Credit(sum: Tally): nat {
    if sum.shares > 0 then PerShare(sum.work, sum.shares) * sum.shares else 0
  }

  lemma NothingCredited()
    ensures Credit(NoShares()) == 0
  {
  }

  /** What is reported about a share. */
  function ReportsOf(verdict: Verdict, v: Option<nat>, answer: Option<bool>, job: Option<Job>): seq<ShareReport>
    requires verdict.Forwarded? ==> job.Some? && Decode(job.value.target).Some?
  {
    match verdict
    case Denied(_) => []
    case Absorbed(credit, actual) => [ShareReport(true, false, credit, actual, 0)]
    case Forwarded(credit) =>
      var accepted := answer == Some(true);
      [ShareReport(accepted, true, credit, ValueDifficulty(v), if accepted then Difficulty(job.value.target) else 0)]
  }

  /** What is reported about the shares of a sum. */
  function ReportsFor(sum: Tally): seq<ShareReport> {
    if sum.shares == 0 then []
    else seq(sum.shares, _ => ShareReport(true, false,
      PerShare(sum.work, sum.shares), PerShare(sum.actual, sum.shares), 0))
  }

  /** The work and the solved difficulty that reports add up to. */
  datatype Totals = Totals(work: nat, solved: nat)

  function TotalOf(reports: seq<ShareReport>): Totals {
    if reports == [] then Totals(0, 0)
    else
      var (n, r) := (|reports| - 1, reports[|reports| - 1]);
      Totals(TotalOf(reports[..n]).work + r.difficulty, TotalOf(reports[..n]).solved + r.solved)
  }

  lemma {:induction false} TotalsAdd(a: seq<ShareReport>, b: seq<ShareReport>)
    ensures TotalOf(a + b) == Totals(TotalOf(a).work + TotalOf(b).work, TotalOf(a).solved + TotalOf(b).solved)
  {
    if b == [] {
      assert a + b == a;
    } else {
      assert (a + b)[..|a + b| - 1] == a + b[..|b| - 1];
      TotalsAdd(a, b[..|b| - 1]);
    }
  }

  /** A share that is taken is reported once: as accepted unless the pool did not accept it, with its
      credit and its hash's worth, and as solving the pool's difficulty when the pool accepted it. */
  lemma ReportIs(verdict: Verdict, v: Option<nat>, answer: Option<bool>, job: Option<Job>)
    requires verdict.Forwarded? ==> job.Some? && Decode(job.value.target).Some?
    ensures
      var rs := ReportsOf(verdict, v, answer, job);
      && |rs| == (if verdict.Denied? then 0 else 1)
      && (!verdict.Denied? ==>
            && rs[0].forwarded == verdict.Forwarded? && rs[0].difficulty == verdict.credit
            && (rs[0].accepted <==> verdict.Absorbed? || answer == Some(true))
            && rs[0].actual == (if verdict.Absorbed? then verdict.actual else ValueDifficulty(v))
            && rs[0].solved == (if verdict.Forwarded? && answer == Some(true) then Difficulty(job.value.target) else 0)
            && TotalOf(rs) == Totals(verdict.credit, rs[0].solved))
      && (verdict.Denied? ==> TotalOf(rs) == Totals(0, 0))
  {
    hide Decode;
    var rs := ReportsOf(verdict, v, answer, job);
    if !verdict.Denied? {
      assert rs[..0] == [];
    }
  }

  /** The reports for a sum of shares are one for each, and together what is credited. */
  lemma TotalsFor(sum: Tally)
    ensures |ReportsFor(sum)| == sum.shares && TotalOf(ReportsFor(sum)) == Totals(Credit(sum), 0)
  {
    if sum.shares > 0 {
      hide PerShare;
      var d := PerShare(sum.work, sum.shares);
      SameReports(ShareReport(true, false, d, PerShare(sum.actual, sum.shares), 0), sum.shares);
      Commutes(sum.shares, d);
    }
  }

  /** Each says that a share was accepted, with its part of the work and the worth, to half a unit. */
  lemma ReportsAreNear(sum: Tally, k: nat)
    requires k < sum.shares
    ensures k < |ReportsFor(sum)|
    ensures
      var r := ReportsFor(sum)[k];
      && r.accepted && !r.forwarded && r.solved == 0
      && -(sum.shares as int) <= 2 * (r.difficulty * sum.shares - sum.work) <= sum.shares
      && -(sum.shares as int) <= 2 * (r.actual * sum.shares - sum.actual) <= sum.shares
  {
    hide PerShare;
    RoundingIsNear(sum.work, sum.shares);
    RoundingIsNear(sum.actual, sum.shares);
  }

  lemma {:induction false} SameReports(r: ShareReport, n: nat)
    ensures TotalOf(seq(n, _ => r)) == Totals(n * r.difficulty, n * r.solved)
  {
    if n > 0 {
      SameReports(r, n - 1);
      assert seq(n, _ => r)[..n - 1] == seq(n - 1, _ => r);
      assert (n - 1) * r.difficulty + r.difficulty == n * r.difficulty;
      assert (n - 1) * r.solved + r.solved == n * r.solved;
    }
  }

  /** Only a share on a job is forwarded. */
  lemma JobGoesOnly(s: Standing, nonce: Option<nat>, v: Option<nat>)
    requires AllFair(s)
    ensures LocalVerdict(s, nonce, v).0.Forwarded? ==> s.job.Some?
  {
  }
}

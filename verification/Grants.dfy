/** Every range that an upstream grants on a job, in the order in which they are granted, and why no
    nonce of a job is granted twice. */
module Grants {
  import opened Arithmetic
  import opened Ledgers
  import opened LinkBooks
  import opened Nonce
  import opened Options
  import NicehashSlots
  import NonceRuns

  /** The time that a link has one job: the jobs it had before count its number. */
  datatype Term<!L> = Term(link: L, number: nat, segments: seq<Segment>)

  datatype Logged<!L> = Logged(client: Client, term: Term<L>, entry: Entry)

  /** Where a link stands: how many jobs it has had, and what is left of the space of the last one. */
  datatype Shelf = Shelf(number: nat, space: Space)

  function Now<L>(stock: map<L, Shelf>, link: L): Term<L>
    requires link in stock
  {
    Term(link, stock[link].number, stock[link].space.segments)
  }

  /** A logged range belongs to a term that has begun, and to the segments of that term; the nonces
      logged in the term that goes on can not be granted again. */
  ghost predicate Placed<L>(g: Logged<L>, stock: map<L, Shelf>) {
    && g.term.link in stock && g.term.number <= stock[g.term.link].number
    && (g.term.number == stock[g.term.link].number ==>
          && g.term == Now(stock, g.term.link)
          && (Separate(g.term.segments) ==> Gone(g.entry.range, stock[g.term.link].space)))
  }

  ghost predicate Gone(range: Grant, s: Space) {
    forall n: nat :: InGrant(range, n) ==> !Free(s, n)
  }

  /** Two ranges of one term have no nonce in common, when the segments of the term are apart. */
  ghost predicate Disjoint<L>(a: Logged<L>, b: Logged<L>) {
    a.term == b.term && Separate(a.term.segments) ==>
      forall n: nat :: InGrant(a.entry.range, n) ==> !InGrant(b.entry.range, n)
  }

  ghost predicate Apart<L>(log: seq<Logged<L>>, stock: map<L, Shelf>) {
    && (forall i :: 0 <= i < |log| ==> Placed(log[i], stock))
    && (forall i, j :: 0 <= i < j < |log| ==> Disjoint(log[i], log[j]))
  }

  lemma OpeningKeepsApart<L>(log: seq<Logged<L>>, stock: map<L, Shelf>, link: L, shelf: Shelf)
    requires Apart(log, stock) && link !in stock
    ensures Apart(log, stock[link := shelf])
  {
    hide Gone, Disjoint;
  }

  /** A job starts a term. */
  lemma AcceptingKeepsApart<L>(log: seq<Logged<L>>, stock: map<L, Shelf>, link: L, s: Space)
    requires Apart(log, stock) && link in stock
    ensures Apart(log, stock[link := Shelf(stock[link].number + 1, s)])
  {
    hide Gone, Disjoint;
  }

  lemma GoneStays(range: Grant, s: Space, s': Space)
    requires Gone(range, s) && Shrinks(s, s')
    ensures Gone(range, s')
  {
  }

  lemma ShrinkingKeepsApart<L>(log: seq<Logged<L>>, stock: map<L, Shelf>, link: L, s: Space)
    requires Apart(log, stock) && link in stock && Shrinks(stock[link].space, s)
    ensures Apart(log, stock[link := stock[link].(space := s)])
  {
    hide Gone, Disjoint, Separate;
    var stock' := stock[link := stock[link].(space := s)];
    forall i | 0 <= i < |log| ensures Placed(log[i], stock') {
      if log[i].term == Now(stock, link) && Separate(log[i].term.segments) {
        GoneStays(log[i].entry.range, stock[link].space, s);
      }
    }
  }

  lemma GrantIsFresh<L>(g: Logged<L>, stock: map<L, Shelf>, s: Space, more: Logged<L>)
    requires Placed(g, stock) && more.term.link in stock && more.term == Now(stock, more.term.link)
    requires TakeEffect(stock[more.term.link].space, s, Some(more.entry.range))
    ensures Disjoint(g, more)
  {
  }

  lemma GrantIsGone(s: Space, s': Space, g: Grant)
    requires TakeEffect(s, s', Some(g))
    ensures Shrinks(s, s') && (Separate(s.segments) ==> Gone(g, s'))
  {
  }

  lemma GrantingKeepsApart<L>(log: seq<Logged<L>>, stock: map<L, Shelf>,
      link: L, s: Space, client: Client, entry: Entry)
    requires Apart(log, stock) && link in stock && TakeEffect(stock[link].space, s, Some(entry.range))
    ensures Apart(log + [Logged(client, Now(stock, link), entry)], stock[link := stock[link].(space := s)])
  {
    hide Gone, Disjoint, Separate, TakeEffect, Shrinks;
    var more, stock' := Logged(client, Now(stock, link), entry), stock[link := stock[link].(space := s)];
    GrantIsGone(stock[link].space, s, entry.range);
    ShrinkingKeepsApart(log, stock, link, s);
    forall i | 0 <= i < |log| ensures Disjoint(log[i], more) {
      GrantIsFresh(log[i], stock, s, more);
    }
    assert Placed(more, stock') by {
      assert s.segments == stock[link].space.segments by { SameSegments(stock[link].space, s); }
    }
  }

  lemma SameSegments(s: Space, s': Space)
    requires Shrinks(s, s')
    ensures s.segments == s'.segments
  {
  }

  // The ledgers

  /** What is logged for one miner. */
  function Of<L>(log: seq<Logged<L>>, client: Client): seq<Entry> {
    if log == [] then []
    else
      var n := |log| - 1;
      Of(log[..n], client) + if log[n].client == client then [log[n].entry] else []
  }

  ghost predicate IsTail(s: seq<Entry>, t: seq<Entry>) {
    |s| <= |t| && s == t[|t| - |s|..]
  }

  /** A ledger holds what has been logged for its miner since it was opened. */
  ghost predicate Tied<L>(histories: map<Client, seq<Entry>>, log: seq<Logged<L>>) {
    forall c :: c in histories ==> IsTail(histories[c], Of(log, c))
  }

  function More(histories: map<Client, seq<Entry>>, client: Client, e: Entry): map<Client, seq<Entry>> {
    histories[client := (if client in histories then histories[client] else []) + [e]]
  }

  lemma MoreOfNew(histories: map<Client, seq<Entry>>, client: Client, e: Entry)
    requires client !in histories
    ensures More(histories[client := []], client, e) == More(histories, client, e)
  {
  }

  lemma OfMore<L>(log: seq<Logged<L>>, g: Logged<L>, client: Client)
    ensures Of(log + [g], client) == Of(log, client) + if g.client == client then [g.entry] else []
  {
    assert (log + [g])[..|log|] == log;
  }

  lemma TailMore(s: seq<Entry>, t: seq<Entry>, e: Entry)
    ensures IsTail(s, t) ==> IsTail(s + [e], t + [e])
    ensures IsTail([], t)
  {
  }

  lemma RecordingKeepsTied<L>(histories: map<Client, seq<Entry>>, log: seq<Logged<L>>, g: Logged<L>)
    requires Tied(histories, log)
    ensures Tied(More(histories, g.client, g.entry), log + [g])
  {
    hide Of, IsTail;
    var more, log' := More(histories, g.client, g.entry), log + [g];
    forall c | c in more ensures IsTail(more[c], Of(log', c)) {
      OfMore(log, g, c);
      if c == g.client {
        TailMore(if c in histories then histories[c] else [], Of(log, c), g.entry);
      } else {
        assert Of(log, c) + [] == Of(log, c);
      }
    }
  }

  /** A grant is recorded, and logged, when the link has a job. */
  function NextLog<L>(log: seq<Logged<L>>, term: Term<L>,
      client: Client, job: Option<string>, g: Option<Grant>): seq<Logged<L>>
  {
    if g.Some? && job.Some? then log + [Logged(client, term, Entry(job.value, g.value))] else log
  }

  function NextHistories(histories: map<Client, seq<Entry>>, client: Client, job: Option<string>, g: Option<Grant>)
    : map<Client, seq<Entry>>
  {
    if g.Some? && job.Some? then More(histories, client, Entry(job.value, g.value)) else histories
  }

  ghost predicate InOrder<L>(log: seq<Logged<L>>, stock: map<L, Shelf>, histories: map<Client, seq<Entry>>) {
    Apart(log, stock) && Tied(histories, log)
  }

  /** A grant, also one that comes to nothing, keeps the order. */
  lemma TakingKeepsOrder<L>(
      log: seq<Logged<L>>, stock: map<L, Shelf>, histories: map<Client, seq<Entry>>,
      link: L, s: Space, client: Client, job: Option<string>, g: Option<Grant>)
    requires InOrder(log, stock, histories) && link in stock && TakeEffect(stock[link].space, s, g)
    ensures InOrder(
              NextLog(log, Now(stock, link), client, job, g), stock[link := stock[link].(space := s)],
              NextHistories(histories, client, job, g))
  {
    hide Apart, Tied, More;
    if g.Some? && job.Some? {
      var entry := Entry(job.value, g.value);
      GrantingKeepsApart(log, stock, link, s, client, entry);
      RecordingKeepsTied(histories, log, Logged(client, Now(stock, link), entry));
    } else {
      ShrinkingKeepsApart(log, stock, link, s);
    }
  }

  lemma AcceptingKeepsOrder<L>(log: seq<Logged<L>>, stock: map<L, Shelf>,
      histories: map<Client, seq<Entry>>, link: L, s: Space)
    requires InOrder(log, stock, histories) && link in stock
    ensures InOrder(log, stock[link := Shelf(stock[link].number + 1, s)], histories)
  {
    AcceptingKeepsApart(log, stock, link, s);
  }

  lemma OpeningKeepsOrder<L>(log: seq<Logged<L>>, stock: map<L, Shelf>,
      histories: map<Client, seq<Entry>>, link: L, shelf: Shelf)
    requires InOrder(log, stock, histories) && link !in stock
    ensures InOrder(log, stock[link := shelf], histories)
  {
    OpeningKeepsApart(log, stock, link, shelf);
  }

  lemma ClosingKeepsOrder<L>(log: seq<Logged<L>>, stock: map<L, Shelf>,
      histories: map<Client, seq<Entry>>, client: Client)
    requires InOrder(log, stock, histories)
    ensures InOrder(log, stock, histories - {client})
  {
    hide Apart, IsTail;
  }

  // The grants themselves

  /** The part of what is left that is a miner's by its rate. */
  function Share(rate: real, load: real, left: nat): real {
    if load > 0.0 then Part(left as real, rate, load) else left as real
  }

  function Part(whole: real, rate: real, load: real): real
    requires load != 0.0
  {
    whole * (rate / load)
  }

  lemma PartsAdd(whole: real, a: real, b: real, load: real)
    requires load > 0.0
    ensures Part(whole, a, load) + Part(whole, b, load) == Part(whole, a + b, load)
    ensures Part(whole, 0.0, load) == 0.0 && Part(whole, load, load) == whole
  {
    assert (a + b) / load == a / load + b / load;
    assert 0.0 / load == 0.0 && load / load == 1.0;
  }

  ghost function TotalShare(hashrate: map<Client, real>, clients: set<Client>, load: real, left: nat): real {
    if clients == {} then 0.0
    else
      var c :| c in clients;
      Share(RateOf(hashrate, c), load, left) + TotalShare(hashrate, clients - {c}, load, left)
  }

  lemma {:induction false} SharesOf(hashrate: map<Client, real>, clients: set<Client>, load: real, left: nat)
    requires load > 0.0
    ensures TotalShare(hashrate, clients, load, left) == Part(left as real, TotalRate(hashrate, clients), load)
    decreases clients
  {
    hide Part;
    PartsAdd(left as real, 0.0, 0.0, load);
    if clients == {} {
      assert TotalRate(hashrate, clients) == 0.0;
    } else {
      var c :|
        && c in clients
        && TotalShare(hashrate, clients, load, left) ==
             Share(RateOf(hashrate, c), load, left) + TotalShare(hashrate, clients - {c}, load, left);
      SharesOf(hashrate, clients - {c}, load, left);
      TakeOut(hashrate, clients, c);
      PartsAdd(left as real, RateOf(hashrate, c), TotalRate(hashrate, clients - {c}), load);
      assert RateOf(hashrate, c) + TotalRate(hashrate, clients - {c}) == TotalRate(hashrate, clients);
      assert Share(RateOf(hashrate, c), load, left) == Part(left as real, RateOf(hashrate, c), load);
    }
  }

  /** The shares of all the miners of a link add up to what is left. */
  lemma SharesAddUp(hashrate: map<Client, real>, clients: set<Client>, load: real, left: nat)
    requires load == TotalRate(hashrate, clients) > 0.0
    ensures TotalShare(hashrate, clients, load, left) == left as real
  {
    hide Part;
    SharesOf(hashrate, clients, load, left);
    PartsAdd(left as real, 0.0, 0.0, load);
  }

  /** The size of the range that a miner is to get of what is left. */
  function Count(rate: real, load: real, left: nat, deadline: real): real {
    NonceRuns.ChunkSize(rate, Share(rate, load, left), deadline)
  }

  /** What a grant leaves of a space, and the range that it is. */
  function GrantOf(s: Space, rate: real, load: real, deadline: real): (r: (Space, Option<Grant>))
    requires Sized(s)
    ensures Sized(r.0)
  {
    var left := NonceRuns.LeftFrom(s, s.index);
    if left > 0 then Taken(s, Count(rate, load, left, deadline)) else (s, None)
  }

  lemma GrantOfDoes(s: Space, rate: real, load: real, deadline: real)
    requires Sized(s)
    ensures var (s', g) := GrantOf(s, rate, load, deadline); TakeEffect(s, s', g)
  {
    hide TakeEffect, Taken;
    var left := NonceRuns.LeftFrom(s, s.index);
    if left > 0 {
      TakeDoes(s, Count(rate, load, left, deadline));
    } else {
      NothingLeft(s);
    }
  }

  /** How large a range is: as large as asked for by rate, share and deadline, or what is left of a
      segment; never above 2^28, and above 2^12 neither more than the share nor than the window. */
  ghost predicate RightSize(s: Space, rate: real, load: real, deadline: real, g: Grant)
    requires Sized(s)
  {
    var (n, share) := (g.limit - g.start, Share(rate, load, NonceRuns.LeftFrom(s, s.index)));
    && AskedFor(s, g, NonceRuns.ChunkSize(rate, share, deadline))
    && 1 <= n <= 0x1000_0000
    && (n > 4096 ==> n as real <= share && WithinWindow(n, rate, deadline))
  }

  predicate WithinWindow(n: int, rate: real, deadline: real) {
    n as real < (if rate > 0.0 then rate else 1000.0) * NonceRuns.Window(deadline) + 1.0
  }

  lemma GrantIsSized(s: Space, rate: real, load: real, deadline: real)
    requires Sized(s)
    ensures var g := GrantOf(s, rate, load, deadline).1; g.Some? ==> RightSize(s, rate, load, deadline, g.value)
  {
    hide AtHand, AskedOf, AskedFor, Taken, Share, RightSize, NonceRuns.ChunkSize;
    var left := NonceRuns.LeftFrom(s, s.index);
    var g := GrantOf(s, rate, load, deadline).1;
    if left > 0 && g.Some? {
      TakesAsked(s, Count(rate, load, left, deadline));
      RightSizeIs(s, rate, load, deadline, g.value);
    }
  }

  lemma RightSizeIs(s: Space, rate: real, load: real, deadline: real, g: Grant)
    requires Sized(s) && AskedFor(s, g, Count(rate, load, NonceRuns.LeftFrom(s, s.index), deadline))
    ensures RightSize(s, rate, load, deadline, g)
  {
    hide AtHand, AskedOf, AskedFor, Share, NonceRuns.ChunkSize, WithinWindow;
    ChunkBounds(s, g, rate, Share(rate, load, NonceRuns.LeftFrom(s, s.index)), deadline);
  }

  lemma ChunkBounds(s: Space, g: Grant, rate: real, share: real, deadline: real)
    requires AskedFor(s, g, NonceRuns.ChunkSize(rate, share, deadline))
    ensures var n := g.limit - g.start;
            && 1 <= n <= 0x1000_0000
            && (n > 4096 ==> n as real <= share && WithinWindow(n, rate, deadline))
  {
    hide NonceRuns.Window, AtHand;
    AskedAtMost(s, g, NonceRuns.ChunkSize(rate, share, deadline));
  }

  lemma AskedAtMost(s: Space, g: Grant, count: real)
    requires AskedFor(s, g, count) && count >= 1.0
    ensures 1 <= g.limit - g.start && (g.limit - g.start) as real <= count
  {
  }

  lemma GrantKeepsSegments(s: Space, rate: real, load: real, deadline: real)
    requires Sized(s)
    ensures GrantOf(s, rate, load, deadline).0.segments == s.segments
  {
    GrantOfDoes(s, rate, load, deadline);
  }

  lemma NothingLeft(s: Space)
    requires Sized(s) && NonceRuns.LeftFrom(s, s.index) == 0
    ensures TakeEffect(s, s, None)
  {
    forall n: nat ensures !Free(s, n) {
      if Free(s, n) {
        var i: nat :| i < |s.segments| && FreeIn(s, i, n);
        SomeLeft(s, s.index, i);
      }
    }
  }

  lemma {:induction false} SomeLeft(s: Space, k: nat, i: nat)
    requires Sized(s) && s.index <= k <= i < |s.segments|
    ensures NonceRuns.LeftFrom(s, k) >= s.segments[i].size - (if i == s.index then s.cursor else 0)
    decreases i - k
  {
    if k < i {
      SomeLeft(s, k + 1, i);
    }
  }

  lemma EffectShrinks(s: Space, s': Space, g: Option<Grant>)
    requires TakeEffect(s, s', g)
    ensures s'.segments == s.segments && Sized(s') && (g.Some? ==> g.value.start < g.value.limit)
  {
  }

  /** No nonce of the space can be granted. */
  ghost predicate NothingFor(s: Space) {
    forall n: nat :: n < LAST_NONCE ==> !Free(s, n)
  }

  lemma NothingGranted(s: Space, s': Space)
    requires TakeEffect(s, s', None)
    ensures NothingFor(s)
  {
  }

  /** The space of a new job: that of the link's nonce byte and of its extra bytes, or all nonces. */
  function FreshSpace(slot: nat, extra: seq<nat>): (s: Space)
    ensures Sized(s)
  {
    if slot > 0 then NicehashSlots.NicehashSpace(slot, extra) else FULL_SPACE
  }

  lemma NewSpaceIs(slot: nat, extra: seq<nat>)
    ensures slot > 0 ==> FreshSpace(slot, extra) == CreateSpace(NicehashSlots.NicehashSegments([slot] + extra))
    ensures slot == 0 ==> FreshSpace(slot, extra) == CreateSpace([Segment(0, NONCE_SPACE)])
  {
  }

  /** A new job's space has separate segments exactly when the nonce byte that the job brings is not
      one that the link had been given as an extra one, for the byte of its earlier job. */
  lemma FreshSpaceIsProper(slot: nat, extra: seq<nat>)
    requires slot < NICEHASH_SLOTS && NicehashSlots.InByte(extra) && Distinct(extra)
    ensures Proper(FreshSpace(slot, extra)) <==> slot == 0 || slot !in extra
  {
    hide Proper, NicehashSlots.NicehashSpace;
    NonceRuns.FullSpaceIs();
    NicehashSlots.AcceptedIsProper(slot, extra);
  }

  /** The ranges that the miners of a link get of a new job, one after the other. */
  function Shared(s: Space, hashrate: map<Client, real>, load: real, deadline: real, clients: seq<Client>)
    : (r: (Space, seq<Option<Grant>>))
    requires Sized(s)
    ensures Sized(r.0) && |r.1| == |clients|
  {
    if clients == [] then (s, [])
    else
      var n := |clients| - 1;
      var (s', sent) := Shared(s, hashrate, load, deadline, clients[..n]);
      var (s'', g) := GrantOf(s', RateOf(hashrate, clients[n]), load, deadline);
      (s'', sent + [g])
  }

  function LogAll<L>(log: seq<Logged<L>>, term: Term<L>,
      clients: seq<Client>, job: string, sent: seq<Option<Grant>>): seq<Logged<L>>
    requires |sent| == |clients|
  {
    if clients == [] then log
    else
      var n := |clients| - 1;
      NextLog(LogAll(log, term, clients[..n], job, sent[..n]), term, clients[n], Some(job), sent[n])
  }

  function HistoriesAll(histories: map<Client, seq<Entry>>, clients: seq<Client>, job: string, sent: seq<Option<Grant>>)
    : map<Client, seq<Entry>>
    requires |sent| == |clients|
  {
    if clients == [] then histories
    else
      var n := |clients| - 1;
      NextHistories(HistoriesAll(histories, clients[..n], job, sent[..n]), clients[n], Some(job), sent[n])
  }

  lemma NobodyYet(s: Space, hashrate: map<Client, real>, load: real, deadline: real)
    requires Sized(s)
    ensures Shared(s, hashrate, load, deadline, []) == (s, [])
  {
  }

  lemma NothingEntered<L>(log: seq<Logged<L>>, histories: map<Client, seq<Entry>>, term: Term<L>, job: string)
    ensures LogAll(log, term, [], job, []) == log && HistoriesAll(histories, [], job, []) == histories
  {
  }

  lemma SharedMore(s: Space, hashrate: map<Client, real>,
      load: real, deadline: real, clients: seq<Client>, client: Client)
    requires Sized(s)
    ensures
      var (s', sent) := Shared(s, hashrate, load, deadline, clients);
      var (s'', g) := GrantOf(s', RateOf(hashrate, client), load, deadline);
      Shared(s, hashrate, load, deadline, clients + [client]) == (s'', sent + [g])
  {
    assert (clients + [client])[..|clients|] == clients;
  }

  lemma EnteredMore<L>(
      log: seq<Logged<L>>, histories: map<Client, seq<Entry>>, term: Term<L>,
      clients: seq<Client>, job: string, sent: seq<Option<Grant>>, client: Client, g: Option<Grant>)
    requires |sent| == |clients|
    ensures LogAll(log, term, clients + [client], job, sent + [g]) ==
            NextLog(LogAll(log, term, clients, job, sent), term, client, Some(job), g)
    ensures HistoriesAll(histories, clients + [client], job, sent + [g]) ==
            NextHistories(HistoriesAll(histories, clients, job, sent), client, Some(job), g)
  {
    assert (clients + [client])[..|clients|] == clients && (sent + [g])[..|sent|] == sent;
  }

  /** A miner of the link goes without only when nothing is left. */
  lemma {:induction false} GoingWithout(s: Space, hashrate: map<Client, real>,
      load: real, deadline: real, clients: seq<Client>)
    requires Sized(s)
    ensures var (s', sent) := Shared(s, hashrate, load, deadline, clients);
            Shrinks(s, s') && forall i :: 0 <= i < |sent| && sent[i].None? ==> NothingFor(s')
  {
    if clients != [] {
      hide GrantOf, Free;
      var n := |clients| - 1;
      GoingWithout(s, hashrate, load, deadline, clients[..n]);
      GrantOfDoes(Shared(s, hashrate, load, deadline, clients[..n]).0, RateOf(hashrate, clients[n]), load, deadline);
    }
  }

  /** Where an entry of a ledger was logged. */
  lemma {:induction false} LoggedAt<L>(log: seq<Logged<L>>, client: Client, k: nat) returns (i: nat)
    requires k < |Of(log, client)|
    ensures i < |log| && log[i].client == client && log[i].entry == Of(log, client)[k]
    ensures |Of(log[..i], client)| == k
  {
    var n := |log| - 1;
    if k < |Of(log[..n], client)| {
      i := LoggedAt(log[..n], client, k);
      assert log[..n][..i] == log[..i];
    } else {
      i := n;
    }
  }

  /** Two entries of ledgers that have a nonce in common are from different terms, or from a term in
      which a nonce byte was in the space twice. */
  lemma NoNonceTwice<L>(
      log: seq<Logged<L>>, stock: map<L, Shelf>, histories: map<Client, seq<Entry>>,
      c: Client, k: nat, d: Client, m: nat, n: nat)
    requires Apart(log, stock) && Tied(histories, log)
    requires c in histories && k < |histories[c]| && d in histories && m < |histories[d]| && (c != d || k != m)
    requires InGrant(histories[c][k].range, n) && InGrant(histories[d][m].range, n)
    ensures exists i, j ::
              && 0 <= i < |log| && 0 <= j < |log|
              && log[i] == Logged(c, log[i].term, histories[c][k]) && log[j] == Logged(d, log[j].term, histories[d][m])
              && (log[i].term == log[j].term ==> !Separate(log[i].term.segments))
  {
    hide Of, Placed;
    var i := LoggedAt(log, c, |Of(log, c)| - |histories[c]| + k);
    var j := LoggedAt(log, d, |Of(log, d)| - |histories[d]| + m);
    assert i != j;
    if i < j {
      assert Disjoint(log[i], log[j]);
    } else {
      assert Disjoint(log[j], log[i]);
    }
  }
}

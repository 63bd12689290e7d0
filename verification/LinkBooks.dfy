/** The books of an upstream: which link each miner is housed on, and what load the links carry. */
module LinkBooks {

  /** A miner; the hashrate it reports is kept in a map. */
  type Client = nat

  /** rateOf: a miner without a report counts for 1000. */
  function RateOf(hashrate: map<Client, real>, client: Client): (r: real)
    ensures r > 0.0
  {
    if client in hashrate && hashrate[client] > 0.0 then hashrate[client] else 1000.0
  }

  ghost function TotalRate(hashrate: map<Client, real>, clients: set<Client>): (r: real)
    ensures r >= 0.0
  {
    if clients == {} then 0.0
    else var c :| c in clients; RateOf(hashrate, c) + TotalRate(hashrate, clients - {c})
  }

  lemma {:induction false} TakeOut(hashrate: map<Client, real>, clients: set<Client>, client: Client)
    requires client in clients
    ensures TotalRate(hashrate, clients) == RateOf(hashrate, client) + TotalRate(hashrate, clients - {client})
    decreases clients
  {
    var c :| c in clients && TotalRate(hashrate, clients) == RateOf(hashrate, c) + TotalRate(hashrate, clients - {c});
    if c != client {
      TakeOut(hashrate, clients - {c}, client);
      TakeOut(hashrate, clients - {client}, c);
      assert clients - {c} - {client} == clients - {client} - {c};
    }
  }

  lemma PutIn(hashrate: map<Client, real>, clients: set<Client>, client: Client)
    requires client !in clients
    ensures TotalRate(hashrate, clients + {client}) == TotalRate(hashrate, clients) + RateOf(hashrate, client)
  {
    TakeOut(hashrate, clients + {client}, client);
    assert clients + {client} - {client} == clients;
  }

  /** Only the rates of the clients themselves count. */
  lemma {:induction false} SameRates(hashrate: map<Client, real>, changed: map<Client, real>, clients: set<Client>)
    requires forall c :: c in clients ==> RateOf(hashrate, c) == RateOf(changed, c)
    ensures TotalRate(hashrate, clients) == TotalRate(changed, clients)
    decreases clients
  {
    if clients != {} {
      var c :| c in clients;
      TakeOut(hashrate, clients, c);
      TakeOut(changed, clients, c);
      SameRates(hashrate, changed, clients - {c});
    }
  }

  /** What is known of one link, whether it is up or down. */
  datatype Serving = Serving(clients: set<Client>, load: real)

  datatype Books<!L> = Books(links: map<L, Serving>, homes: map<Client, L>, hashrate: map<Client, real>)

  /** The homes and the client sets are inverses of each other. */
  predicate Inverse<L>(b: Books<L>) {
    && (forall c :: c in b.homes ==> b.homes[c] in b.links && c in b.links[b.homes[c]].clients)
    && (forall l, c :: l in b.links && c in b.links[l].clients ==> c in b.homes && b.homes[c] == l)
  }

  /** Every link carries the rates of its clients. */
  ghost predicate Balanced<L>(b: Books<L>) {
    forall l :: l in b.links ==> b.links[l].load == TotalRate(b.hashrate, b.links[l].clients)
  }

  ghost predicate Sound<L>(b: Books<L>) {
    Inverse(b) && Balanced(b)
  }

  // What the steps do to the books

  function Opened<L>(b: Books<L>, link: L): Books<L>
    requires link !in b.links
  {
    b.(links := b.links[link := Serving({}, 0.0)])
  }

  function Housed<L>(b: Books<L>, link: L, client: Client): Books<L>
    requires link in b.links
  {
    var e := b.links[link];
    b.(links := b.links[link := Serving(e.clients + {client}, e.load + RateOf(b.hashrate, client))],
      homes := b.homes[client := link])
  }

  /** The load is kept from going below zero. */
  function Evicted<L>(b: Books<L>, client: Client): (r: Books<L>)
    ensures b.links.Keys == r.links.Keys
  {
    if client !in b.homes || b.homes[client] !in b.links then b
    else
      var link := b.homes[client];
      var load := b.links[link].load - RateOf(b.hashrate, client);
      b.(links := b.links[link := Serving(b.links[link].clients - {client}, if load < 0.0 then 0.0 else load)],
        homes := b.homes - {client})
  }

  function Reported<L>(b: Books<L>, client: Client, rate: real): Books<L>
  {
    if !(rate > 0.0) then b
    else
      var hashrate := b.hashrate[client := rate];
      if client !in b.homes || b.homes[client] !in b.links then b.(hashrate := hashrate)
      else
        var link := b.homes[client];
        var e := b.links[link];
        b.(links := b.links[link := e.(load := e.load + (rate - RateOf(b.hashrate, client)))], hashrate := hashrate)
  }

  function Severed<L>(b: Books<L>, link: L): Books<L>
    requires link in b.links
  {
    b.(links := b.links[link := Serving({}, 0.0)], homes := b.homes - b.links[link].clients)
  }

  /** The synchronous end of a migration: the miner moves, and moves back when the new link has
      nothing to grant and the old one is still up. */
  function Migrated<L>(b: Books<L>, from: L, link: L, client: Client, granted: bool, fromUp: bool): Books<L>
    requires link in b.links && from in b.links
  {
    var moved := Housed(Evicted(b, client), link, client);
    if granted || !fromUp then moved else Housed(Evicted(moved, client), from, client)
  }

  // Each of them keeps the books sound

  lemma OpenKeeps<L>(b: Books<L>, link: L)
    requires Sound(b) && link !in b.links
    ensures Sound(Opened(b, link))
  {
  }

  /** Housing keeps the books sound exactly when the miner has no house yet. */
  lemma HouseKeeps<L>(b: Books<L>, link: L, client: Client)
    requires Sound(b) && link in b.links
    ensures Sound(Housed(b, link, client)) <==> client !in b.homes
  {
    if client in b.homes {
      HouseBreaks(b, link, client);
    } else {
      PutIn(b.hashrate, b.links[link].clients, client);
      HouseInverts(b, link, client);
      hide Inverse;
      assert Balanced(Housed(b, link, client));
    }
  }

  lemma HouseInverts<L>(b: Books<L>, link: L, client: Client)
    requires Inverse(b) && link in b.links && client !in b.homes
    ensures Inverse(Housed(b, link, client))
  {
  }

  /** A miner that is housed twice is either counted twice, or counted on two links. */
  lemma HouseBreaks<L>(b: Books<L>, link: L, client: Client)
    requires Sound(b) && link in b.links && client in b.homes
    ensures if b.homes[client] == link then !Balanced(Housed(b, link, client)) else !Inverse(Housed(b, link, client))
  {
    var home, b' := b.homes[client], Housed(b, link, client);
    if home == link {
      assert b'.links[link].clients == b.links[link].clients;
      assert b'.links[link].load != TotalRate(b.hashrate, b'.links[link].clients);
    } else {
      assert client in b'.links[home].clients && b'.homes[client] != home;
    }
  }

  /** Evicting keeps the books sound, and the load never has to be kept from going below zero. */
  lemma EvictKeeps<L>(b: Books<L>, client: Client)
    requires Sound(b)
    ensures Sound(Evicted(b, client)) && client !in Evicted(b, client).homes
    ensures client in b.homes ==> b.links[b.homes[client]].load >= RateOf(b.hashrate, client)
  {
    if client in b.homes {
      TakeOut(b.hashrate, b.links[b.homes[client]].clients, client);
    }
  }

  lemma ReportKeeps<L>(b: Books<L>, client: Client, rate: real)
    requires Sound(b)
    ensures Sound(Reported(b, client, rate))
  {
    var b' := Reported(b, client, rate);
    if rate > 0.0 {
      forall l | l in b.links ensures b'.links[l].load == TotalRate(b'.hashrate, b'.links[l].clients) {
        NewRate(b.hashrate, b.links[l].clients, client, rate);
      }
    }
  }

  lemma NewRate(hashrate: map<Client, real>, clients: set<Client>, client: Client, rate: real)
    requires rate > 0.0
    ensures TotalRate(hashrate[client := rate], clients) ==
            TotalRate(hashrate, clients) + if client in clients then rate - RateOf(hashrate, client) else 0.0
  {
    var changed := hashrate[client := rate];
    if client in clients {
      TakeOut(hashrate, clients, client);
      TakeOut(changed, clients, client);
      SameRates(hashrate, changed, clients - {client});
    } else {
      SameRates(hashrate, changed, clients);
    }
  }

  lemma SeverKeeps<L>(b: Books<L>, link: L)
    requires Sound(b) && link in b.links
    ensures Sound(Severed(b, link))
  {
  }

  lemma MigrateKeeps<L>(b: Books<L>, from: L, link: L, client: Client, granted: bool, fromUp: bool)
    requires Sound(b) && link in b.links && from in b.links
    ensures Sound(Migrated(b, from, link, client, granted, fromUp))
  {
    hide Balanced, Inverse;
    EvictKeeps(b, client);
    HouseKeeps(Evicted(b, client), link, client);
    var moved := Housed(Evicted(b, client), link, client);
    EvictKeeps(moved, client);
    HouseKeeps(Evicted(moved, client), from, client);
  }

  lemma ServesThese<L>(b: Books<L>, l: L)
    requires Inverse(b) && l in b.links
    ensures b.links[l].clients == set m | m in b.homes && b.homes[m] == l
  {
  }

  /** The homes say everything there is to know about the links. */
  lemma HomesDetermine<L>(b: Books<L>, c: Books<L>)
    requires Sound(b) && Sound(c)
    requires b.links.Keys == c.links.Keys && b.homes == c.homes && b.hashrate == c.hashrate
    ensures b == c
  {
    forall l | l in b.links ensures b.links[l] == c.links[l] {
      assert l in c.links;
      assert b.links[l].clients == c.links[l].clients by {
        ServesThese(b, l);
        ServesThese(c, l);
      }
    }
  }

  /** A migration that is rolled back leaves the books as they were. */
  lemma RollbackRestores<L>(b: Books<L>, from: L, link: L, client: Client)
    requires Sound(b) && link in b.links && client in b.homes && b.homes[client] == from && from in b.links
    ensures Migrated(b, from, link, client, false, true) == b
  {
    hide Balanced, Inverse;
    MigrateKeeps(b, from, link, client, false, true);
    MigratedHomes(b, from, link, client, false, true);
    HomesDetermine(Migrated(b, from, link, client, false, true), b);
  }

  lemma MovedHomes<L>(b: Books<L>, link: L, client: Client)
    requires link in b.links
    ensures var b' := Housed(Evicted(b, client), link, client);
            b'.links.Keys == b.links.Keys && b'.hashrate == b.hashrate && b'.homes == b.homes[client := link]
  {
    assert (b.homes - {client})[client := link] == b.homes[client := link];
  }

  /** Where a miner lives after a migration: on the new link when that has granted it a range, or
      when the old one is down; and nobody else moves. */
  lemma MigratedHomes<L>(b: Books<L>, from: L, link: L, client: Client, granted: bool, fromUp: bool)
    requires link in b.links && from in b.links
    ensures var b' := Migrated(b, from, link, client, granted, fromUp);
            && b'.links.Keys == b.links.Keys && b'.hashrate == b.hashrate
            && b'.homes == b.homes[client := if granted || !fromUp then link else from]
    ensures client in b.homes && b.homes[client] == from ==> b.homes[client := from] == b.homes
  {
    hide Housed, Evicted;
    var moved := Housed(Evicted(b, client), link, client);
    MovedHomes(b, link, client);
    MovedHomes(moved, from, client);
    assert b.homes[client := link][client := from] == b.homes[client := from];
  }

  /** Housing a miner and evicting it again changes nothing. */
  lemma HouseThenEvict<L>(b: Books<L>, link: L, client: Client)
    requires Sound(b) && link in b.links && client !in b.homes
    ensures Sound(Housed(b, link, client)) && Evicted(Housed(b, link, client), client) == b
  {
    hide Sound, Inverse, Balanced;
    HouseKeeps(b, link, client);
    EvictKeeps(Housed(b, link, client), client);
    HomesDetermine(Evicted(Housed(b, link, client), client), b);
  }

  /** The end of attaching: a miner that gets nothing is evicted again. */
  function Attached<L>(b: Books<L>, link: L, client: Client, granted: bool): Books<L>
    requires link in b.links
  {
    var housed := Housed(b, link, client);
    if granted then housed else Evicted(housed, client)
  }

  /** Attaching keeps the books sound exactly when the miner has no house yet, and then changes
      nothing for a miner that gets nothing. */
  lemma AttachKeeps<L>(b: Books<L>, link: L, client: Client, granted: bool)
    requires Sound(b) && link in b.links
    ensures Sound(Attached(b, link, client, granted)) <==> client !in b.homes
    ensures client !in b.homes && !granted ==> Attached(b, link, client, granted) == b
  {
    hide Sound, Inverse, Balanced, Housed, Evicted;
    HouseKeeps(b, link, client);
    if !granted {
      if client in b.homes {
        EvictingDoesNotHelp(b, link, client);
      } else {
        HouseThenEvict(b, link, client);
      }
    }
  }

  lemma EvictingDoesNotHelp<L>(b: Books<L>, link: L, client: Client)
    requires Sound(b) && link in b.links && client in b.homes
    ensures !Sound(Evicted(Housed(b, link, client), client))
  {
    var home, b' := b.homes[client], Evicted(Housed(b, link, client), client);
    if home == link {
      assert b'.links[link].clients == b.links[link].clients - {client};
      TakeOut(b.hashrate, b.links[link].clients, client);
      assert b'.links[link].load == b.links[link].load;
    } else {
      assert client in b'.links[home].clients && client !in b'.homes;
    }
  }

  // Whole runs

  datatype Event<L> =
    | Open(link: L)
    | House(link: L, client: Client)
    | Evict(client: Client)
    | Report(client: Client, rate: real)
    | Sever(link: L)
    | Migrate(from: L, link: L, client: Client, granted: bool, fromUp: bool)

  /** Links are opened once; an attaching miner has no house. */
  predicate Possible<L>(b: Books<L>, e: Event<L>) {
    match e
    case Open(link) => link !in b.links
    case House(link, client) => link in b.links && client !in b.homes
    case Evict(_) => true
    case Report(_, _) => true
    case Sever(link) => link in b.links
    case Migrate(from, link, _, _, _) => from in b.links && link in b.links
  }

  function Next<L>(b: Books<L>, e: Event<L>): Books<L>
    requires Possible(b, e)
  {
    match e
    case Open(link) => Opened(b, link)
    case House(link, client) => Housed(b, link, client)
    case Evict(client) => Evicted(b, client)
    case Report(client, rate) => Reported(b, client, rate)
    case Sever(link) => Severed(b, link)
    case Migrate(from, link, client, granted, fromUp) => Migrated(b, from, link, client, granted, fromUp)
  }

  /** The books at every point of a run from empty ones. */
  predicate IsRun<L>(run: seq<Books<L>>, events: seq<Event<L>>) {
    && |run| == |events| + 1
    && run[0] == Books(map[], map[], map[])
    && forall i :: 0 <= i < |events| ==> Possible(run[i], events[i]) && Next(run[i], events[i]) == run[i + 1]
  }

  lemma NextKeeps<L>(b: Books<L>, e: Event<L>)
    requires Sound(b) && Possible(b, e)
    ensures Sound(Next(b, e))
  {
    hide Balanced, Inverse;
    match e
    case Open(link) => OpenKeeps(b, link);
    case House(link, client) => HouseKeeps(b, link, client);
    case Evict(client) => EvictKeeps(b, client);
    case Report(client, rate) => ReportKeeps(b, client, rate);
    case Sever(link) => SeverKeeps(b, link);
    case Migrate(from, link, client, granted, fromUp) => MigrateKeeps(b, from, link, client, granted, fromUp);
  }

  /** At every point of every run the books are sound. */
  lemma {:induction false} RunsAreSound<L>(run: seq<Books<L>>, events: seq<Event<L>>, k: nat)
    requires IsRun(run, events) && k < |run|
    ensures Sound(run[k])
  {
    if k > 0 {
      RunsAreSound(run, events, k - 1);
      NextKeeps(run[k - 1], events[k - 1]);
      assert Next(run[k - 1], events[k - 1]) == run[k];
    }
  }
}

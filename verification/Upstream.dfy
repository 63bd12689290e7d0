/** An upstream: its links, the miners housed on them, and the ranges it grants to them. */
module Upstreams {
  import opened Arithmetic
  import opened Grants
  import opened Ledgers
  import opened LinkBooks
  import opened Nonce
  import opened Options
  import NicehashSlots
  import NonceRuns

  const SAFETY := 0.8

  class Link {
    var connected: bool
    var connecting: bool
    var job: Option<string>
    var space: NonceSpace
    var slot: nat
    var extra: seq<nat>
    /** The longest time between two jobs that is to be reckoned with. */
    var interval: real
    var load: real
    var clients: set<Client>
    var idleAt: int
    /** How many jobs there have been. */
    ghost var number: nat

    constructor (interval: real)
      ensures clients == {} && load == 0.0 && !connected && job.None? && slot == 0 && extra == []
      ensures this.interval == interval && number == 0 && fresh(space) && space.Value() == CreateSpace([])
    {
      connected, connecting, job, load, clients, idleAt := false, false, None, 0.0, {}, 0;
      slot, extra, this.interval, number := 0, [], interval, 0;
      space := new NonceSpace([]);
    }

    function Headroom(): real
      reads `space, `interval, `load, space`segments
    {
      NonceRuns.Capacity(space.segments, interval) * SAFETY - load
    }

    /** The room on the link, if picking a link considers it. */
    function Room(exclude: Option<Link>): Option<real>
      reads this, space
    {
      if Some(this) != exclude && job.Some? && space.Valid() && NonceRuns.LeftFrom(space.Value(), space.index) > 0
      then Some(Headroom())
      else None
    }

    /** A miner of this rate fits into 80 percent of what the link's nonces last for. */
    predicate Carries(rate: real)
      reads `space, `interval, `load, `job, space`segments
    {
      var seconds := if interval / 1000.0 < 0.5 then 0.5 else interval / 1000.0;
      job.Some? && load + rate <= 0.8 * (NonceRuns.Total(space.segments) as real / seconds)
    }

    lemma RoomCarries(exclude: Option<Link>, rate: real)
      ensures Room(exclude).Some? ==>
        Some(this) != exclude && NonceRuns.LeftFrom(space.Value(), space.index) > 0 && job.Some?
      ensures Room(exclude).Some? ==> (Room(exclude).value >= rate <==> Carries(rate))
    {
    }

    method Measure(exclude: Option<Link>) returns (room: Option<real>)
      requires Sized(space.Value())
      ensures room == old(Room(exclude))
    {
      if Some(this) == exclude || job.None? {
        return None;
      }
      var left := NonceRuns.SpaceLeft(space.Value());
      room := if left <= 0 then None else Some(Headroom());
    }
  }

  /** What picking a link for a miner comes to. */
  datatype Choice =
    | Found(index: nat)
    | Pending
    | Opening(fallback: Option<nat>)
    | Full

  /** The room on this link is the least that is enough, if any is enough. */
  predicate Tightest(rooms: seq<Option<real>>, rate: real, best: Option<nat>) {
    match best
    case None => forall i :: 0 <= i < |rooms| && rooms[i].Some? ==> rooms[i].value < rate
    case Some(b) =>
      && b < |rooms| && rooms[b].Some? && rooms[b].value >= rate
      && forall i :: 0 <= i < |rooms| && rooms[i].Some? && rooms[i].value >= rate ==> rooms[b].value <= rooms[i].value
  }

  /** The room on this link is the most that there is. */
  predicate Roomiest(rooms: seq<Option<real>>, most: Option<nat>) {
    match most
    case None => forall i :: 0 <= i < |rooms| ==> rooms[i].None?
    case Some(m) =>
      m < |rooms| && rooms[m].Some? && forall i :: 0 <= i < |rooms| && rooms[i].Some? ==>
        rooms[i].value <= rooms[m].value
  }

  lemma NothingSurveyed(rate: real)
    ensures Tightest([], rate, None) && Roomiest([], None)
  {
  }

  lemma OneMoreSurveyed(rooms: seq<Option<real>>, rate: real, best: Option<nat>, most: Option<nat>, room: Option<real>)
    requires Tightest(rooms, rate, best) && Roomiest(rooms, most)
    ensures best.Some? ==> best.value < |rooms| && rooms[best.value].Some?
    ensures most.Some? ==> most.value < |rooms| && rooms[most.value].Some?
    ensures
      var better := room.Some? && room.value >= rate && (best.None? || room.value < rooms[best.value].value);
      Tightest(rooms + [room], rate, if better then Some(|rooms|) else best)
    ensures
      var roomier := room.Some? && (most.None? || room.value > rooms[most.value].value);
      Roomiest(rooms + [room], if roomier then Some(|rooms|) else most)
  {
  }

  lemma RoomiestIsThere(rooms: seq<Option<real>>, most: Option<nat>)
    requires Roomiest(rooms, most)
    ensures most.Some? ==> most.value < |rooms|
  {
  }

  /** What is picked: the tightest link that fits, or else what the links and their limit leave. */
  predicate Picked(rooms: seq<Option<real>>, rate: real, max: nat, connecting: bool, choice: Choice) {
    var fits := !Tightest(rooms, rate, None);
    match choice
    case Found(index) =>
      if fits then Tightest(rooms, rate, Some(index))
      else !connecting && |rooms| >= max && Roomiest(rooms, Some(index))
    case Pending => !fits && connecting
    case Opening(fallback) => !fits && !connecting && |rooms| < max && Roomiest(rooms, fallback)
    case Full => !fits && !connecting && |rooms| >= max && Roomiest(rooms, None)
  }

  lemma SomethingFits(rooms: seq<Option<real>>, rate: real, best: nat)
    requires Tightest(rooms, rate, Some(best))
    ensures !Tightest(rooms, rate, None) && best < |rooms| && rooms[best].Some? && rooms[best].value >= rate
  {
  }

  /** What the orphans of a link pick: as the links are, until a link is opened for one of them, which
      the others then find connecting. */
  ghost predicate Began(done: set<Client>, choices: map<Client, Choice>, added: Option<Link>,
                        rooms: seq<Option<real>>, connecting: bool, hashrate: map<Client, real>, max: nat)
  {
    && choices.Keys == done
    && (added.Some? <==> exists c :: c in done && choices[c].Opening?)
    && forall c :: c in done ==>
         || Picked(rooms, RateOf(hashrate, c), max, connecting, choices[c])
         || (added.Some? && Picked(rooms + [None], RateOf(hashrate, c), max, true, choices[c]))
  }

  lemma NobodyBegan(rooms: seq<Option<real>>, connecting: bool, hashrate: map<Client, real>, max: nat)
    ensures Began({}, map[], None, rooms, connecting, hashrate, max)
  {
  }

  lemma OneMoreBegan(done: set<Client>, choices: map<Client, Choice>, added: Option<Link>,
                     rooms: seq<Option<real>>, connecting: bool, hashrate: map<Client, real>, max: nat,
                     client: Client, choice: Choice, link: Option<Link>)
    requires Began(done, choices, added, rooms, connecting, hashrate, max) && client !in done
    requires Picked(rooms + (if added.Some? then [None] else []),
                    RateOf(hashrate, client), max, connecting || added.Some?, choice)
    requires link.Some? <==> choice.Opening?
    ensures added.Some? ==> link.None?
    ensures Began(done + {client}, choices[client := choice], if link.Some? then link else added,
                  rooms, connecting, hashrate, max)
  {
    hide Tightest, Roomiest;
    assert rooms + [] == rooms;
    forall c | c in done ensures choices[client := choice][c] == choices[c] {
    }
    if added.Some? {
      var c :| c in done && choices[c].Opening?;
      assert choices[client := choice][c].Opening?;
    } else if link.Some? {
      assert choices[client := choice][client].Opening?;
    }
  }

  function SpacesOf(links: seq<Link>): set<NonceSpace>
    reads links`space
  {
    set l | l in links :: l.space
  }

  /** The room on each of the links, for those that picking considers. */
  function RoomsOf(links: seq<Link>, exclude: Option<Link>): (r: seq<Option<real>>)
    reads links, SpacesOf(links)
    ensures |r| == |links| && forall i :: 0 <= i < |links| ==> r[i] == links[i].Room(exclude)
  {
    if links == [] then [] else RoomsOf(links[..|links| - 1], exclude) + [links[|links| - 1].Room(exclude)]
  }

  predicate AnyConnecting(links: seq<Link>)
    reads links`connecting
  {
    exists i :: 0 <= i < |links| && links[i].connecting
  }

  /** Picking finds no room on a link without a job, and a link that is connecting. */
  lemma WithOneMore(links: seq<Link>, added: Option<Link>)
    requires added.Some? ==> added.value.connecting && added.value.job.None?
    ensures RoomsOf(links + OpenedLinks(added), None) == RoomsOf(links, None) + if added.Some? then [None] else []
    ensures AnyConnecting(links + OpenedLinks(added)) <==> AnyConnecting(links) || added.Some?
  {
    var more := links + OpenedLinks(added);
    if added.Some? {
      assert more[|links|] == added.value && more[|links|].Room(None) == None;
    }
    forall i | 0 <= i < |links| ensures more[i] == links[i] {
    }
  }

  lemma NothingOpened(b: Books<Link>)
    ensures WithOpened(b, None) == b
  {
  }

  function OpenedLinks(added: Option<Link>): seq<Link> {
    if added.Some? then [added.value] else []
  }

  function WithOpened(b: Books<Link>, added: Option<Link>): Books<Link> {
    if added.Some? && added.value !in b.links then Opened(b, added.value) else b
  }

  /** What reslicing reads. */
  function SlotsOf(links: seq<Link>): (r: seq<nat>)
    reads links`slot
    ensures |r| == |links| && forall i :: 0 <= i < |links| ==> r[i] == links[i].slot
  {
    if links == [] then [] else SlotsOf(links[..|links| - 1]) + [links[|links| - 1].slot]
  }

  /** The answer to a miner that asks for a range, or the link that it is to move from. */
  datatype Reply =
    | Retry(after: nat)
    | Expired
    | Granted(range: Grant)
    | Moving(from: Link)

  class Upstream {
    var links: seq<Link>
    var live: set<Client>
    var homes: map<Client, Link>
    var hashrate: map<Client, real>
    var ledgers: map<Client, Ledger>
    var expand: bool
    /** Every link there has been, also those that are down. */
    ghost var all: set<Link>
    /** Every range granted on a job, in order. */
    ghost var log: seq<Logged<Link>>
    ghost var stock: map<Link, Shelf>
    ghost var holders: map<NonceSpace, Link>
    ghost var owners: map<Ledger, Client>
    /** The ranges granted to each miner. */
    ghost var histories: map<Client, seq<Entry>>

    ghost function Value(): Books<Link>
      reads `homes, `hashrate, `all, all`clients, all`load
    {
      Books(map l | l in all :: Serving(l.clients, l.load), homes, hashrate)
    }

    /** The books are sound. */
    ghost predicate Valid()
      reads `homes, `hashrate, `all, all`clients, all`load
    {
      Sound(Value())
    }

    ghost predicate Listed()
      reads `links, `all, `homes
    {
      && (forall i :: 0 <= i < |links| ==> links[i] in all)
      && Distinct(links)
      && (forall c :: c in homes ==> homes[c] in all)
    }

    /** Every link has a space of its own, and stands where the stock says. */
    ghost predicate Stocked()
      reads `all, `stock, `holders, all`space, all`number
      reads holders.Keys`index, holders.Keys`cursor, holders.Keys`segments
    {
      && stock.Keys == all
      && (forall l :: l in all ==> l.space in holders && holders[l.space] == l)
      && (forall l :: l in all ==> Sized(l.space.Value()) && stock[l] == Shelf(l.number, l.space.Value()))
    }

    /** Every miner has a ledger of its own, in which its history is kept. */
    ghost predicate LedgersKept()
      reads `ledgers, `histories, `owners
      reads owners.Keys`job, owners.Keys`prior, owners.Keys`ranges, owners.Keys`history
    {
      && histories.Keys == ledgers.Keys
      && (forall c :: c in ledgers ==> ledgers[c] in owners && owners[ledgers[c]] == c)
      && (forall c :: c in ledgers ==> ledgers[c].Valid() && ledgers[c].history == histories[c])
    }

    /** No nonce of a job is granted twice, and the ledgers hold what is granted. */
    ghost predicate Orderly()
      reads `log, `stock, `histories
    {
      InOrder(log, stock, histories)
    }

    constructor (expand: bool)
      ensures Value() == Books(map[], map[], map[]) && Valid()
      ensures links == [] && live == {} && ledgers == map[] && this.expand == expand
      ensures Listed() && Stocked() && LedgersKept() && Orderly()
    {
      links, live, homes, hashrate, ledgers, all := [], {}, map[], map[], map[], {};
      this.expand, log, stock, histories, holders, owners := expand, [], map[], map[], map[], map[];
    }

    method House(link: Link, client: Client)
      requires link in all
      modifies link`clients, link`load, link`idleAt, `homes
      ensures Value() == Housed(old(Value()), link, client) && homes == old(homes)[client := link] && link.idleAt == 0
      ensures old(Listed()) ==> Listed()
    {
      link.clients := link.clients + {client};
      link.load := link.load + RateOf(hashrate, client);
      link.idleAt := 0;
      homes := homes[client := link];
    }

    /** The link's side of evicting a miner. */
    method Unload(link: Link, client: Client, now: int)
      modifies link`clients, link`load, link`idleAt
      ensures link.clients == old(link.clients) - {client}
      ensures var load := old(link.load) - RateOf(hashrate, client); link.load == if load < 0.0 then 0.0 else load
      ensures link.idleAt == if link.clients == {} then now else old(link.idleAt)
    {
      link.clients := link.clients - {client};
      link.load := if link.load - RateOf(hashrate, client) < 0.0 then 0.0 else link.load - RateOf(hashrate, client);
      if |link.clients| == 0 {
        link.idleAt := now;
      }
    }

    method Evict(client: Client, now: int)
      requires client in homes ==> homes[client] in all
      modifies `homes, HomeSet(client)`clients, HomeSet(client)`load, HomeSet(client)`idleAt
      ensures Value() == Evicted(old(Value()), client) && homes == old(homes) - {client}
      ensures client in old(homes) ==>
        var link := old(homes[client]); link.idleAt == if link.clients == {} then now else old(link.idleAt)
    {
      if client !in homes {
        return;
      }
      var link := homes[client];
      Unload(link, client, now);
      homes := homes - {client};
    }

    method Report(client: Client, rate: real)
      requires client in homes ==> homes[client] in all
      modifies `hashrate, HomeSet(client)`load
      ensures Value() == Reported(old(Value()), client, rate)
      ensures hashrate == if rate > 0.0 then old(hashrate)[client := rate] else old(hashrate)
    {
      if !(rate > 0.0) {
        return;
      }
      if client in homes {
        var link := homes[client];
        link.load := link.load + (rate - RateOf(hashrate, client));
      }
      hashrate := hashrate[client := rate];
    }

    method Forget(orphans: set<Client>)
      modifies `homes
      ensures homes == old(homes) - orphans
    {
      var rest := orphans;
      while rest != {}
        invariant rest <= orphans && homes == old(homes) - (orphans - rest)
      {
        var client :| client in rest;
        homes := homes - {client};
        rest := rest - {client};
      }
    }

    method Unlist(link: Link)
      modifies `links
      ensures Without(old(links), link, links)
      ensures old(Listed()) ==> Listed() && forall l :: l in links ==> l in old(links)
    {
      var index: nat := 0;
      while index < |links| && links[index] != link
        invariant index <= |links| && link !in links[..index]
      {
        index := index + 1;
      }
      if index != |links| {
        links := links[..index] + links[index + 1..];
      }
    }

    ghost method Shelve(link: Link)
      requires Stocked() && link !in all && link.space !in holders
      requires link.number == 0 && link.space.Value() == CreateSpace([])
      modifies `all, `stock, `holders
      ensures Stocked() && (old(Orderly()) ==> Orderly())
      ensures stock == old(stock)[link := Shelf(0, CreateSpace([]))] && all == old(all) + {link}
    {
      hide InOrder, CreateSpace, Sized, NonceSpace.Value;
      if Orderly() {
        OpeningKeepsOrder(log, stock, histories, link, Shelf(0, CreateSpace([])));
      }
      all, stock, holders := all + {link}, stock[link := Shelf(0, CreateSpace([]))], holders[link.space := link];
    }

    /** A link is listed before it is opened. */
    method AddLink(interval: real) returns (link: Link)
      requires Listed() && Stocked()
      modifies `links, `all, `stock, `holders
      ensures fresh(link) && fresh(link.space) && links == old(links) + [link] && all == old(all) + {link}
      ensures link.job.None?
      ensures Listed() && Stocked() && (old(Orderly()) ==> Orderly())
      ensures Value() == Opened(old(Value()), link) && stock == old(stock)[link := Shelf(0, CreateSpace([]))]
    {
      hide InOrder, Stocked, CreateSpace;
      link := new Link(interval);
      assert link !in all && link.space !in holders;
      Shelve(link);
      links := links + [link];
    }

    /** The loop that shares out the free nonce bytes; links without a byte keep what they have. */
    method Reslice()
      requires Listed()
      modifies links`extra
      ensures forall i :: 0 <= i < |links| ==>
        links[i].extra == if links[i].slot > 0 then NicehashSlots.Resliced(SlotsOf(links), i, expand)
          else old(links[i].extra)
    {
      hide SlotsOf, NicehashSlots.Resliced, NicehashSlots.Nice,
        NicehashSlots.Rank, NicehashSlots.FreeSlots, NicehashSlots.Share;
      var slots := SlotsOf(links);
      var nice := NicehashSlots.CollectNice(slots);
      if |nice| == 0 {
        NicehashSlots.NoneNice(slots);
        return;
      }
      var free := NicehashSlots.CollectFree(NicehashSlots.OwnedSlots(nice));
      var rank: nat := 0;
      NicehashSlots.NiceOfNone();
      assert slots[..0] == [];
      for i := 0 to |links|
        invariant rank == |NicehashSlots.Nice(slots[..i])|
        invariant forall k :: i <= k < |links| ==> links[k].extra == old(links[k].extra)
        invariant forall k :: 0 <= k < i ==>
          links[k].extra == if slots[k] > 0 then NicehashSlots.Resliced(slots, k, expand) else old(links[k].extra)
      {
        NicehashSlots.NextRank(slots, i);
        if slots[i] > 0 {
          NicehashSlots.RankOfOwner(slots, i);
          NicehashSlots.ReslicedIs(slots, i, expand);
          if expand {
            links[i].extra := NicehashSlots.Filter(free, |nice|, rank);
          } else {
            links[i].extra := [];
          }
          rank := rank + 1;
        }
      }
    }

    /** The miners of a link lose their house. */
    method Vacate(link: Link) returns (orphans: set<Client>)
      requires link in all
      modifies link`load, link`clients, `homes
      ensures Value() == Severed(old(Value()), link) && orphans == old(link.clients) && homes == old(homes) - orphans
      ensures link.clients == {} && link.load == 0.0
      ensures old(Listed()) ==> Listed()
    {
      orphans := link.clients;
      link.load, link.clients := 0.0, {};
      Forget(orphans);
    }

    /** The link goes down, and its miners have no house. */
    method Disconnect(link: Link) returns (orphans: set<Client>)
      requires link in all && Listed()
      modifies link`job, link`connected, link`load, link`clients, `links, `homes, links`extra
      ensures Value() == Severed(old(Value()), link) && orphans == old(link.clients)
      ensures link.clients == {} && link.load == 0.0 && homes == old(homes) - orphans
      ensures Without(old(links), link, links) && !link.connected && link.job.None? && Listed()
      ensures forall i :: 0 <= i < |links| && links[i].slot > 0 ==>
        links[i].extra == NicehashSlots.Resliced(SlotsOf(links), i, expand)
    {
      hide Without, Value, Severed, Listed, SlotsOf, NicehashSlots.Resliced;
      Unlist(link);
      link.job, link.connected := None, false;
      orphans := Vacate(link);
      Reslice();
    }

    method OpenLink(interval: real) returns (link: Link)
      requires Listed() && Stocked()
      modifies `links, `all, `stock, `holders
      ensures fresh(link) && link.connecting && link.job.None? && links == old(links) + [link]
      ensures Listed() && Stocked() && (old(Orderly()) ==> Orderly())
      ensures link !in old(all) && Value() == WithOpened(old(Value()), Some(link))
      ensures RoomsOf(old(links), None) == old(RoomsOf(links, None))
      ensures AnyConnecting(old(links)) == old(AnyConnecting(links))
    {
      hide InOrder, Stocked, CreateSpace;
      link := AddLink(interval);
      link.connecting := true;
    }

    /** What attaching a miner does before it has to wait: a link is picked, or a new one begins to
        be opened. */
    method BeginAttach(client: Client, max: nat, interval: real) returns (choice: Choice, added: Option<Link>)
      requires Listed() && Stocked()
      modifies `live, `links, `all, `stock, `holders
      ensures Listed() && Stocked() && (old(Orderly()) ==> Orderly()) && live == old(live) + {client}
      ensures Picked(old(RoomsOf(links, None)), RateOf(hashrate, client), max, old(AnyConnecting(links)), choice)
      ensures RoomsOf(old(links), None) == old(RoomsOf(links, None))
      ensures AnyConnecting(old(links)) == old(AnyConnecting(links))
      ensures (added.Some? <==> choice.Opening?) && links == old(links) + OpenedLinks(added)
      ensures added.Some? ==>
        fresh(added.value) && added.value.connecting && added.value.job.None? && added.value !in old(all)
      ensures Value() == WithOpened(old(Value()), added)
    {
      hide Value, Stocked, RoomsOf, WithOpened, InOrder, Picked, AnyConnecting, Listed;
      ghost var rooms, connecting := RoomsOf(links, None), AnyConnecting(links);
      live := live + {client};
      assert RoomsOf(links, None) == rooms && AnyConnecting(links) == connecting;
      choice := Pick(RateOf(hashrate, client), max, None);
      added := None;
      NothingOpened(Value());
      if choice.Opening? {
        var link := OpenLink(interval);
        added := Some(link);
      }
    }

    /** The loop over the orphans: only the first that wants a new link opens one, since the others
        wait for it. */
    method Rehome(orphans: set<Client>, max: nat, interval: real)
        returns (choices: map<Client, Choice>, added: Option<Link>)
      requires Listed() && Stocked()
      modifies `live, `links, `all, `stock, `holders
      ensures Listed() && Stocked() && (old(Orderly()) ==> Orderly()) && live == old(live) + orphans
      ensures Began(orphans, choices, added, old(RoomsOf(links, None)), old(AnyConnecting(links)), hashrate, max)
      ensures RoomsOf(old(links), None) == old(RoomsOf(links, None))
      ensures AnyConnecting(old(links)) == old(AnyConnecting(links))
      ensures links == old(links) + OpenedLinks(added)
      ensures added.Some? ==> fresh(added.value) && added.value.connecting && added.value !in old(all)
      ensures Value() == WithOpened(old(Value()), added)
    {
      hide Value, Stocked, RoomsOf, WithOpened, InOrder, Picked, AnyConnecting, Listed, Began;
      ghost var kept := links;
      var rest := orphans;
      choices, added := map[], None;
      ghost var rooms, connecting := RoomsOf(kept, None), AnyConnecting(kept);
      NobodyBegan(rooms, connecting, hashrate, max);
      NothingOpened(Value());
      assert orphans - rest == {};
      while rest != {}
        invariant Listed() && Stocked() && (old(Orderly()) ==> Orderly()) && rest <= orphans
        invariant live == old(live) + (orphans - rest) && links == kept + OpenedLinks(added)
        invariant Began(orphans - rest, choices, added, rooms, connecting, hashrate, max)
        invariant RoomsOf(kept, None) == rooms && AnyConnecting(kept) == connecting
        invariant added.Some? ==> fresh(added.value) && added.value.connecting
        invariant added.Some? ==> added.value.job.None? && added.value !in old(all)
        invariant Value() == WithOpened(old(Value()), added)
      {
        var client :| client in rest;
        WithOneMore(kept, added);
        ghost var b := Value();
        var choice, link := BeginAttach(client, max, interval);
        OneMoreBegan(orphans - rest, choices, added, rooms, connecting, hashrate, max, client, choice, link);
        assert orphans - (rest - {client}) == orphans - rest + {client};
        choices, rest := choices[client := choice], rest - {client};
        NothingOpened(b);
        if link.Some? {
          added := link;
        }
      }
      assert orphans - rest == orphans;
    }

    /** The link goes down; its miners have no house until they attach again, which they begin to do,
        and for which one new link may be opened. An upstream without links and miners retires. */
    method Sever(link: Link, max: nat, interval: real)
        returns (orphans: set<Client>, retired: bool, choices: map<Client, Choice>,
                 ghost kept: seq<Link>, added: Option<Link>)
      requires link in all && Listed() && Stocked()
      modifies link`job, link`connected, link`load, link`clients, `links, `homes, `live, links`extra
      modifies `all, `stock, `holders
      ensures Listed() && Stocked() && (old(Orderly()) ==> Orderly())
      ensures Without(old(links), link, kept) && links == kept + OpenedLinks(added)
      ensures orphans == old(link.clients) && !link.connected && link.job.None?
      ensures link.clients == {} && link.load == 0.0 && homes == old(homes) - orphans
      ensures Began(orphans, choices, added, RoomsOf(kept, None), AnyConnecting(kept), hashrate, max)
      ensures Value() == WithOpened(Severed(old(Value()), link), added)
      ensures added.Some? ==> fresh(added.value) && added.value.connecting && added.value !in old(all)
      ensures forall i :: 0 <= i < |kept| && kept[i].slot > 0 ==>
        kept[i].extra == NicehashSlots.Resliced(SlotsOf(kept), i, expand)
      ensures live == old(live) + orphans && (retired <==> links == [] && live == {})
    {
      hide Without, Value, Severed, WithOpened, Listed, Stocked, InOrder, NicehashSlots.Resliced,
        RoomsOf, AnyConnecting, Began, SlotsOf;
      orphans := Disconnect(link);
      kept := links;
      choices, added := Rehome(orphans, max, interval);
      retired := |links| == 0 && |live| == 0;
    }

    /** The pool turns out to check the nonce byte. */
    method Narrow()
      requires Listed()
      modifies `expand, links`extra
      ensures !expand && forall i :: 0 <= i < |links| ==>
        links[i].extra == if old(expand) then [] else old(links[i].extra)
    {
      if !expand {
        return;
      }
      expand := false;
      for i := 0 to |links|
        invariant forall k :: 0 <= k < i ==> links[k].extra == []
        invariant !expand
      {
        links[i].extra := [];
      }
    }

    /** The loop of `pick`: the tightest link that is roomy enough, and the roomiest one. */
    method Survey(rate: real, exclude: Option<Link>) returns (best: Option<nat>, roomiest: Option<nat>)
      requires Listed() && Stocked()
      ensures Tightest(old(RoomsOf(links, exclude)), rate, best) && Roomiest(old(RoomsOf(links, exclude)), roomiest)
    {
      hide Tightest, Roomiest, RoomsOf, Link.Room;
      ghost var rooms := RoomsOf(links, exclude);
      best, roomiest := None, None;
      var least, most := 0.0, 0.0;
      NothingSurveyed(rate);
      for i := 0 to |links|
        invariant Tightest(rooms[..i], rate, best) && Roomiest(rooms[..i], roomiest)
        invariant best.Some? ==> best.value < i && rooms[best.value] == Some(least)
        invariant roomiest.Some? ==> roomiest.value < i && rooms[roomiest.value] == Some(most)
      {
        var room := links[i].Measure(exclude);
        assert room == rooms[i] && rooms[..i] + [room] == rooms[..i + 1];
        OneMoreSurveyed(rooms[..i], rate, best, roomiest, room);
        if room.Some? {
          if roomiest.None? || room.value > most {
            roomiest, most := Some(i), room.value;
          }
          if room.value >= rate && (best.None? || room.value < least) {
            best, least := Some(i), room.value;
          }
        }
      }
      assert rooms[..|links|] == rooms;
    }

    method FindConnecting() returns (found: bool)
      ensures found <==> AnyConnecting(links)
    {
      for i := 0 to |links|
        invariant forall k :: 0 <= k < i ==> !links[k].connecting
      {
        if links[i].connecting {
          return true;
        }
      }
      found := false;
    }

    /** What `pick` does in one round: it takes the tightest link that the miner fits on, waits for a
        link that is connecting, opens a new one, or makes do with the roomiest one at the limit. */
    method Pick(rate: real, max: nat, exclude: Option<Link>) returns (choice: Choice)
      requires Listed() && Stocked()
      ensures Picked(old(RoomsOf(links, exclude)), rate, max, AnyConnecting(links), choice)
      ensures choice.Found? ==> choice.index < |links|
      ensures choice.Found? && !Tightest(old(RoomsOf(links, exclude)), rate, None) ==>
        links[choice.index].Carries(rate) && Some(links[choice.index]) != exclude
    {
      hide Tightest, Roomiest, RoomsOf, AnyConnecting, Stocked, Listed, Link.Room, Link.Carries;
      ghost var rooms := RoomsOf(links, exclude);
      var best, roomiest := Survey(rate, exclude);
      if best.Some? {
        SomethingFits(rooms, rate, best.value);
        links[best.value].RoomCarries(exclude, rate);
        return Found(best.value);
      }
      var pending := FindConnecting();
      if pending {
        return Pending;
      }
      if |links| >= max {
        RoomiestIsThere(rooms, roomiest);
        return if roomiest.Some? then Found(roomiest.value) else Full;
      }
      choice := Opening(roomiest);
    }

    method OpenLedger(client: Client)
      requires LedgersKept() && client !in ledgers
      modifies `ledgers, `histories, `owners
      ensures LedgersKept() && client in ledgers && fresh(ledgers[client]) && client !in old(histories)
      ensures ledgers == old(ledgers)[client := ledgers[client]]
      ensures histories == old(histories)[client := []]
    {
      hide Keeps, Ledger.Valid;
      var ledger := new Ledger();
      ledgers, histories, owners := ledgers[client := ledger], histories[client := []], owners[ledger := client];
    }

    function LedgerSet(client: Client): set<Ledger>
      reads `ledgers
    {
      if client in ledgers then {ledgers[client]} else {}
    }

    /** `record`, which opens a ledger for a miner that has none. */
    method Record(client: Client, job: string, range: Grant)
      requires range.start < range.limit && LedgersKept()
      modifies `ledgers, `histories, `owners
      modifies LedgerSet(client)`job, LedgerSet(client)`prior, LedgerSet(client)`ranges, LedgerSet(client)`history
      ensures LedgersKept() && histories == More(old(histories), client, Entry(job, range))
      ensures forall c :: c in ledgers ==> (c in old(ledgers) && ledgers[c] == old(ledgers)[c]) || fresh(ledgers[c])
    {
      hide Keeps, LedgersKept, More;
      if client !in ledgers {
        OpenLedger(client);
        MoreOfNew(old(histories), client, Entry(job, range));
      }
      RecordIn(client, job, range);
    }

    method RecordIn(client: Client, job: string, range: Grant)
      requires range.start < range.limit && LedgersKept() && client in ledgers
      modifies `histories
      modifies LedgerSet(client)`job, LedgerSet(client)`prior, LedgerSet(client)`ranges, LedgerSet(client)`history
      ensures LedgersKept() && histories == More(old(histories), client, Entry(job, range))
    {
      hide Keeps;
      ledgers[client].Record(job, range);
      histories := More(histories, client, Entry(job, range));
    }

    method GrantRange(link: Link, client: Client, deadline: real) returns (g: Option<Grant>)
      requires link.space.Valid()
      modifies link.space`index, link.space`cursor
      ensures link.space.Valid() && link.space.segments == old(link.space.segments)
      ensures (link.space.Value(), g) == GrantOf(old(link.space.Value()), RateOf(hashrate, client), link.load, deadline)
    {
      hide TakeEffect, Separate, Taken;
      var left := NonceRuns.SpaceLeft(link.space.Value());
      if left <= 0 {
        return None;
      }
      g := link.space.Take(Count(RateOf(hashrate, client), link.load, left, deadline));
    }

    /** What a range granted on one link does to the stock. */
    method Draw(link: Link, client: Client, deadline: real) returns (g: Option<Grant>)
      requires link in all && Stocked()
      modifies link.space`index, link.space`cursor, `stock
      ensures Stocked()
      ensures (link.space.Value(), g) == GrantOf(old(link.space.Value()), RateOf(hashrate, client), link.load, deadline)
      ensures stock == old(stock)[link := Shelf(link.number, link.space.Value())]
    {
      hide GrantOf, Sized, NonceSpace.Value;
      SpaceIsSized(link);
      g := GrantRange(link, client, deadline);
      stock := stock[link := Shelf(link.number, link.space.Value())];
    }

    lemma SpaceIsSized(link: Link)
      requires link in all && Stocked()
      ensures link.space.Valid()
    {
    }

    lemma StockAt(link: Link)
      requires link in all && Stocked()
      ensures Sized(link.space.Value()) && link in stock && stock[link] == Shelf(link.number, link.space.Value())
    {
    }

    /** What is granted on a job goes into the miner's ledger. */
    method Enter(link: Link, client: Client, g: Option<Grant>)
      requires LedgersKept() && (g.Some? ==> g.value.start < g.value.limit)
      modifies `ledgers, `histories, `owners, `log
      modifies LedgerSet(client)`job, LedgerSet(client)`prior, LedgerSet(client)`ranges, LedgerSet(client)`history
      ensures LedgersKept()
      ensures forall c :: c in ledgers ==> (c in old(ledgers) && ledgers[c] == old(ledgers)[c]) || fresh(ledgers[c])
      ensures histories == NextHistories(old(histories), client, link.job, g)
      ensures log == NextLog(old(log), Term(link, link.number, link.space.segments), client, link.job, g)
    {
      hide LedgersKept, More;
      if g.Some? && link.job.Some? {
        Record(client, link.job.value, g.value);
      }
      log := NextLog(log, Term(link, link.number, link.space.segments), client, link.job, g);
    }

    method GrantTo(link: Link, client: Client, deadline: real) returns (g: Option<Grant>)
      requires link in all && Stocked() && LedgersKept()
      modifies link.space`index, link.space`cursor, `stock, `ledgers, `histories, `owners, `log
      modifies LedgerSet(client)`job, LedgerSet(client)`prior, LedgerSet(client)`ranges, LedgerSet(client)`history
      ensures Stocked() && LedgersKept() && (old(Orderly()) ==> Orderly())
      ensures forall c :: c in ledgers ==> (c in old(ledgers) && ledgers[c] == old(ledgers)[c]) || fresh(ledgers[c])
      ensures (link.space.Value(), g) == GrantOf(old(link.space.Value()), RateOf(hashrate, client), link.load, deadline)
      ensures g.Some? ==> RightSize(old(link.space.Value()), RateOf(hashrate, client), link.load, deadline, g.value)
      ensures stock == old(stock)[link := Shelf(link.number, link.space.Value())]
      ensures histories == NextHistories(old(histories), client, link.job, g)
      ensures log == NextLog(old(log), Term(link, link.number, link.space.segments), client, link.job, g)
    {
      hide GrantOf, RightSize, Stocked, LedgersKept, InOrder, TakeEffect, NextLog, NextHistories;
      ghost var s := link.space.Value();
      StockAt(link);
      g := Draw(link, client, deadline);
      GrantIsSized(s, RateOf(hashrate, client), link.load, deadline);
      GrantOfDoes(s, RateOf(hashrate, client), link.load, deadline);
      EffectShrinks(s, link.space.Value(), g);
      Enter(link, client, g);
      if old(Orderly()) {
        TakingKeepsOrder(old(log), old(stock), old(histories), link, link.space.Value(), client, link.job, g);
      }
    }

    method Install(link: Link, space: NonceSpace)
      requires link in all && Stocked() && space !in holders && space.Valid()
      modifies link`space, link`number, `stock, `holders
      ensures Stocked() && link.space == space && link.number == old(link.number) + 1
      ensures stock == old(stock)[link := Shelf(link.number, space.Value())]
    {
      hide Sized, NonceSpace.Value;
      link.space, link.number := space, link.number + 1;
      stock, holders := stock[link := Shelf(link.number, space.Value())], holders[space := link];
    }

    /** A space for a job. */
    method Renew(link: Link)
      requires link in all && Stocked()
      modifies link`space, link`number, `stock, `holders
      ensures Stocked() && (old(Orderly()) ==> Orderly())
      ensures fresh(link.space) && link.space.Value() == NewSpace(link) && link.number == old(link.number) + 1
    {
      hide CreateSpace, InOrder, FreshSpace, Stocked;
      var extra := if expand then link.extra else [];
      var space: NonceSpace;
      if link.slot > 0 {
        space := new NonceSpace(NicehashSlots.NicehashSegments([link.slot] + extra));
      } else {
        space := new NonceSpace([Segment(0, NONCE_SPACE)]);
      }
      NewSpaceIs(link.slot, extra);
      StockAt(link);
      if Orderly() {
        AcceptingKeepsOrder(log, stock, histories, link, space.Value());
      }
      Install(link, space);
    }

    /** A link has got a job: it has a new space, of which each of its miners gets a range at once. */
    method Accept(link: Link, job: string, slot: nat, deadline: real)
        returns (order: seq<Client>, sent: seq<Option<Grant>>)
      requires link in all && Stocked() && LedgersKept() && slot < NICEHASH_SLOTS
      modifies link`job, link`slot, link`space, link`number, `stock, `holders, `ledgers, `histories, `owners, `log
      modifies ledgers.Values`job, ledgers.Values`prior, ledgers.Values`ranges, ledgers.Values`history
      ensures Stocked() && LedgersKept() && (old(Orderly()) ==> Orderly())
      ensures link.job == Some(job) && link.slot == slot && link.number == old(link.number) + 1 && fresh(link.space)
      ensures forall c :: c in order <==> c in link.clients
      ensures Distinct(order)
      ensures (link.space.Value(), sent) == Shared(NewSpace(link), hashrate, link.load, deadline, order)
      ensures forall i :: 0 <= i < |sent| && sent[i].None? ==> NothingFor(link.space.Value())
      ensures log == LogAll(old(log), Term(link, link.number, NewSpace(link).segments), order, job, sent)
      ensures histories == HistoriesAll(old(histories), order, job, sent)
    {
      hide Stocked, LedgersKept, Shared, InOrder, LogAll, HistoriesAll, NothingFor, Shrinks;
      link.job, link.slot := Some(job), slot;
      Renew(link);
      ghost var s := NewSpace(link);
      order, sent := ShareOut(link, job, deadline);
      GoingWithout(s, hashrate, link.load, deadline, order);
    }

    /** The next of the miners of a link gets its range of a new job. */
    method GrantNext(link: Link, client: Client, job: string, deadline: real, ghost s: Space,
                     ghost before: seq<Logged<Link>>, ghost known: map<Client, seq<Entry>>,
                     ghost order: seq<Client>, ghost sent: seq<Option<Grant>>) returns (g: Option<Grant>)
      requires link in all && Stocked() && LedgersKept() && link.job == Some(job) && Sized(s) && |sent| == |order|
      requires (link.space.Value(), sent) == Shared(s, hashrate, link.load, deadline, order)
      requires log == LogAll(before, Term(link, link.number, link.space.segments), order, job, sent)
      requires histories == HistoriesAll(known, order, job, sent)
      modifies link.space`index, link.space`cursor, `stock, `ledgers, `histories, `owners, `log
      modifies LedgerSet(client)`job, LedgerSet(client)`prior, LedgerSet(client)`ranges, LedgerSet(client)`history
      ensures Stocked() && LedgersKept() && (old(Orderly()) ==> Orderly())
      ensures forall c :: c in ledgers ==> (c in old(ledgers) && ledgers[c] == old(ledgers)[c]) || fresh(ledgers[c])
      ensures link.space.segments == old(link.space.segments)
      ensures (link.space.Value(), sent + [g]) == Shared(s, hashrate, link.load, deadline, order + [client])
      ensures log == LogAll(before, Term(link, link.number, link.space.segments), order + [client], job, sent + [g])
      ensures histories == HistoriesAll(known, order + [client], job, sent + [g])
    {
      hide Stocked, LedgersKept, GrantOf, InOrder, NextLog, NextHistories, Shared, LogAll, HistoriesAll;
      SharedMore(s, hashrate, link.load, deadline, order, client);
      GrantKeepsSegments(link.space.Value(), RateOf(hashrate, client), link.load, deadline);
      StockAt(link);
      g := GrantTo(link, client, deadline);
      EnteredMore(before, known, Term(link, link.number, link.space.segments), order, job, sent, client, g);
    }

    /** The loop of `accept` over the miners of the link. */
    method ShareOut(link: Link, job: string, deadline: real) returns (order: seq<Client>, sent: seq<Option<Grant>>)
      requires link in all && Stocked() && LedgersKept() && link.job == Some(job)
      modifies link.space`index, link.space`cursor, `stock, `ledgers, `histories, `owners, `log
      modifies ledgers.Values`job, ledgers.Values`prior, ledgers.Values`ranges, ledgers.Values`history
      ensures Stocked() && LedgersKept() && (old(Orderly()) ==> Orderly())
      ensures forall c :: c in order <==> c in link.clients
      ensures Distinct(order)
      ensures (link.space.Value(), sent) == Shared(old(link.space.Value()), hashrate, link.load, deadline, order)
      ensures log == LogAll(old(log), Term(link, link.number, link.space.segments), order, job, sent)
      ensures histories == HistoriesAll(old(histories), order, job, sent)
    {
      hide Stocked, LedgersKept, GrantOf, InOrder, NextLog, NextHistories, Shared, LogAll, HistoriesAll;
      NothingEntered(log, histories, Term(link, link.number, link.space.segments), job);
      StockAt(link);
      NobodyYet(link.space.Value(), hashrate, link.load, deadline);
      var rest := link.clients;
      order, sent := [], [];
      while rest != {}
        modifies link.space`index, link.space`cursor, `stock, `ledgers, `histories, `owners, `log
        modifies ledgers.Values`job, ledgers.Values`prior, ledgers.Values`ranges, ledgers.Values`history
        invariant Stocked() && LedgersKept() && (old(Orderly()) ==> Orderly())
        invariant forall c :: c in ledgers ==> (c in old(ledgers) && ledgers[c] == old(ledgers)[c]) || fresh(ledgers[c])
        invariant rest <= link.clients && forall c :: c in order <==> c in link.clients - rest
        invariant Distinct(order)
        invariant (link.space.Value(), sent) == Shared(old(link.space.Value()), hashrate, link.load, deadline, order)
        invariant link.space.segments == old(link.space.segments)
        invariant log == LogAll(old(log), Term(link, link.number, link.space.segments), order, job, sent)
        invariant histories == HistoriesAll(old(histories), order, job, sent)
      {
        var client :| client in rest;
        assert client !in order;
        var g := GrantNext(link, client, job, deadline, old(link.space.Value()), old(log), old(histories), order, sent);
        order, sent, rest := order + [client], sent + [g], rest - {client};
      }
    }

    /** The space that a link has with its job, before anything is taken. */
    function NewSpace(link: Link): (s: Space)
      reads `expand, link`slot, link`extra
      ensures Sized(s)
    {
      FreshSpace(link.slot, if expand then link.extra else [])
    }

    /** A miner moves to a link, from wherever it is. */
    method Move(link: Link, client: Client, now: int)
      requires link in all && Listed()
      modifies `homes, link`clients, link`load, link`idleAt
      modifies HomeSet(client)`clients, HomeSet(client)`load, HomeSet(client)`idleAt
      ensures Listed() && Value() == Housed(Evicted(old(Value()), client), link, client)
      ensures homes == old(homes)[client := link] && (old(Valid()) ==> Valid() && LivesOn(client, link))
    {
      hide Sound, Housed, Evicted, Value, Listed, LivesOn;
      ghost var b := Value();
      assert link in b.links by { ValueHolds(); }
      EvictAndHouse(link, client, now);
      if Sound(b) {
        EvictKeeps(b, client);
        HouseKeeps(Evicted(b, client), link, client);
        HousedLives(link, client);
      }
    }

    method EvictAndHouse(link: Link, client: Client, now: int)
      requires link in all && Listed()
      modifies `homes, link`clients, link`load, link`idleAt
      modifies HomeSet(client)`clients, HomeSet(client)`load, HomeSet(client)`idleAt
      ensures Listed() && Value() == Housed(Evicted(old(Value()), client), link, client)
      ensures homes == old(homes)[client := link]
    {
      Evict(client, now);
      House(link, client);
    }

    /** The miner is on this link, and on no other. */
    ghost predicate LivesOn(client: Client, link: Link)
      reads `all, all`clients
    {
      link in all && forall l :: l in all ==> (client in l.clients <==> l == link)
    }

    lemma HousedLives(link: Link, client: Client)
      requires Valid() && link in all && client in homes && homes[client] == link
      ensures LivesOn(client, link)
    {
      hide Balanced;
      var b := Value();
      forall l | l in all ensures client in l.clients <==> l == link {
        assert l in b.links && b.links[l].clients == l.clients;
      }
    }

    function HomeSet(client: Client): set<Link>
      reads `homes
    {
      if client in homes then {homes[client]} else {}
    }

    method TryMove(link: Link, client: Client, now: int, deadline: real) returns (g: Option<Grant>)
      requires link in all && Listed() && Stocked() && LedgersKept()
      modifies `homes, `stock, `ledgers, `histories, `owners, `log,
        link`clients, link`load, link`idleAt, link.space`index, link.space`cursor
      modifies HomeSet(client)`clients, HomeSet(client)`load, HomeSet(client)`idleAt
      modifies LedgerSet(client)`job, LedgerSet(client)`prior, LedgerSet(client)`ranges, LedgerSet(client)`history
      ensures Listed() && Stocked() && LedgersKept() && (old(Orderly()) ==> Orderly()) && (old(Valid()) ==> Valid())
      ensures Value() == Housed(Evicted(old(Value()), client), link, client) && homes == old(homes)[client := link]
      ensures old(Valid()) ==> LivesOn(client, link)
      ensures histories == NextHistories(old(histories), client, link.job, g)
      ensures log == NextLog(old(log), Term(link, link.number, link.space.segments), client, link.job, g)
      ensures g.None? ==> NothingFor(old(link.space.Value()))
    {
      hide Sound, Evicted, Housed, NothingFor, GrantOf, InOrder,
        Value, LedgersKept, Stocked, Listed, NextHistories, NextLog, LivesOn, RightSize;
      ghost var s := link.space.Value();
      Move(link, client, now);
      StockAt(link);
      GrantOfDoes(s, RateOf(hashrate, client), link.load, deadline);
      g := GrantTo(link, client, deadline);
      if g.None? {
        NothingGranted(s, link.space.Value());
      }
    }

    /** The miner moves, and moves back when the link has nothing for it and the old one is still up. */
    method MoveOrReturn(from: Link, link: Link, client: Client, now: int, deadline: real)
        returns (g: Option<Grant>, home: Link)
      requires link in all && from in all && Listed() && Stocked() && LedgersKept()
      modifies `homes, `stock, `ledgers, `histories, `owners, `log, link.space`index, link.space`cursor
      modifies link`clients, link`load, link`idleAt, from`clients, from`load, from`idleAt
      modifies HomeSet(client)`clients, HomeSet(client)`load, HomeSet(client)`idleAt
      modifies LedgerSet(client)`job, LedgerSet(client)`prior, LedgerSet(client)`ranges, LedgerSet(client)`history
      ensures Listed() && Stocked() && LedgersKept() && (old(Orderly()) ==> Orderly()) && (old(Valid()) ==> Valid())
      ensures Value() == Migrated(old(Value()), from, link, client, g.Some?, from.connected)
      ensures home == (if g.Some? || !from.connected then link else from) && homes == old(homes)[client := home]
      ensures old(Valid()) ==> LivesOn(client, home)
      ensures histories == NextHistories(old(histories), client, link.job, g)
      ensures log == NextLog(old(log), Term(link, link.number, link.space.segments), client, link.job, g)
      ensures g.None? ==> NothingFor(old(link.space.Value()))
    {
      hide Sound, Evicted, Housed, NothingFor, InOrder, Value, LedgersKept, Stocked, Listed,
        LivesOn, NextHistories, NextLog;
      g := TryMove(link, client, now, deadline);
      home := link;
      if g.None? && from.connected {
        Move(from, client, now);
        home := from;
      }
    }

    /** The end of a migration, once a link has been picked. A miner that has gone does not move. */
    method Migrate(from: Link, link: Link, client: Client, now: int, deadline: real)
        returns (moved: bool, sent: Option<Grant>)
      requires link in all && from in all && Listed() && Stocked() && LedgersKept()
      modifies `homes, `stock, `ledgers, `histories, `owners, `log, link.space`index, link.space`cursor
      modifies link`clients, link`load, link`idleAt, from`clients, from`load, from`idleAt
      modifies HomeSet(client)`clients, HomeSet(client)`load, HomeSet(client)`idleAt
      modifies LedgerSet(client)`job, LedgerSet(client)`prior, LedgerSet(client)`ranges, LedgerSet(client)`history
      ensures Listed() && Stocked() && LedgersKept() && (old(Orderly()) ==> Orderly()) && (old(Valid()) ==> Valid())
      ensures Value() == if client in live then Migrated(old(Value()), from, link, client, moved, from.connected)
        else old(Value())
      ensures homes == if client !in live then old(homes)
        else old(homes)[client := if moved || !from.connected then link else from]
      ensures old(Valid()) && client in live ==> LivesOn(client, if moved || !from.connected then link else from)
      ensures moved == sent.Some? && histories == NextHistories(old(histories), client, link.job, sent)
      ensures log == NextLog(old(log), Term(link, link.number, link.space.segments), client, link.job, sent)
      ensures client !in live ==> !moved
      ensures client in live && !moved ==> NothingFor(old(link.space.Value()))
    {
      hide Sound, Migrated, NothingFor, InOrder, Value, LedgersKept, Stocked, Listed, LivesOn, More;
      if client !in live {
        return false, None;
      }
      var home;
      sent, home := MoveOrReturn(from, link, client, now, deadline);
      moved := sent.Some?;
    }

    method CloseLedger(client: Client)
      requires LedgersKept()
      modifies `ledgers, `histories
      ensures LedgersKept() && ledgers == old(ledgers) - {client} && (old(Orderly()) ==> Orderly())
    {
      hide Keeps, InOrder;
      if Orderly() {
        ClosingKeepsOrder(log, stock, histories, client);
      }
      ledgers, histories := ledgers - {client}, histories - {client};
    }

    method Detach(client: Client, now: int)
      requires Listed() && LedgersKept()
      modifies `live, `homes, `ledgers, `histories,
        HomeSet(client)`clients, HomeSet(client)`load, HomeSet(client)`idleAt
      ensures Listed() && LedgersKept() && (old(Orderly()) ==> Orderly()) && (old(Valid()) ==> Valid())
      ensures Value() == Evicted(old(Value()), client)
      ensures live == old(live) - {client} && ledgers == old(ledgers) - {client} && homes == old(homes) - {client}
    {
      hide Sound, Evicted, LedgersKept, Value, InOrder;
      ghost var b := Value();
      if Sound(b) {
        EvictKeeps(b, client);
      }
      live := live - {client};
      Evict(client, now);
      CloseLedger(client);
    }

    method AttachHoused(link: Link, client: Client, now: int, deadline: real) returns (g: Option<Grant>)
      requires link in all && Listed() && Stocked() && LedgersKept() && client in homes && homes[client] == link
      modifies `live, `homes, `stock, `ledgers, `histories, `owners, `log, link`clients, link`load, link`idleAt
      modifies link.space`index, link.space`cursor
      modifies LedgerSet(client)`job, LedgerSet(client)`prior, LedgerSet(client)`ranges, LedgerSet(client)`history
      ensures Listed() && Stocked() && LedgersKept() && (old(Orderly()) ==> Orderly())
      ensures Value() == if g.Some? then old(Value()) else Evicted(old(Value()), client)
      ensures homes == if g.Some? then old(homes) else old(homes) - {client}
      ensures log == NextLog(old(log), Term(link, link.number, link.space.segments), client, link.job, g)
      ensures g.Some? ==> live == old(live) && histories == NextHistories(old(histories), client, link.job, g)
      ensures g.None? ==> live == old(live) - {client} && client !in ledgers && NothingFor(old(link.space.Value()))
    {
      hide Sound, Evicted, NothingFor, GrantOf, InOrder, Value, LedgersKept, Stocked, Listed, NextLog;
      ghost var s := link.space.Value();
      StockAt(link);
      GrantOfDoes(s, RateOf(hashrate, client), link.load, deadline);
      g := GrantTo(link, client, deadline);
      if g.None? {
        NothingGranted(s, link.space.Value());
        Detach(client, now);
      }
    }

    method AttachLive(link: Link, client: Client, now: int, deadline: real) returns (g: Option<Grant>)
      requires link in all && Listed() && Stocked() && LedgersKept()
      modifies `live, `homes, `stock, `ledgers, `histories, `owners, `log,
        link`clients, link`load, link`idleAt, link.space`index, link.space`cursor
      modifies LedgerSet(client)`job, LedgerSet(client)`prior, LedgerSet(client)`ranges, LedgerSet(client)`history
      ensures Listed() && Stocked() && LedgersKept() && (old(Orderly()) ==> Orderly())
      ensures Value() == Attached(old(Value()), link, client, g.Some?)
      ensures homes == if g.Some? then old(homes)[client := link] else old(homes) - {client}
      ensures log == NextLog(old(log), Term(link, link.number, link.space.segments), client, link.job, g)
      ensures g.Some? ==> live == old(live) && histories == NextHistories(old(histories), client, link.job, g)
      ensures g.None? ==> live == old(live) - {client} && client !in ledgers && NothingFor(old(link.space.Value()))
    {
      hide Sound, Evicted, Housed, NothingFor, GrantOf, InOrder, Value, LedgersKept, Stocked, Listed,
        NextLog, NextHistories;
      assert link in Value().links by { ValueHolds(); }
      House(link, client);
      g := AttachHoused(link, client, now, deadline);
    }

    /** The end of attaching a miner, once a link has been picked: a miner that gets nothing, or
        that has gone meanwhile, is not housed. A miner that has meanwhile been housed by a migration
        is housed twice, which breaks the books. */
    method Attach(link: Link, client: Client, now: int, deadline: real) returns (g: Option<Grant>)
      requires link in all && Listed() && Stocked() && LedgersKept()
      modifies `live, `homes, `stock, `ledgers, `histories, `owners, `log,
        link`clients, link`load, link`idleAt, link.space`index, link.space`cursor
      modifies HomeSet(client)`clients, HomeSet(client)`load, HomeSet(client)`idleAt
      modifies LedgerSet(client)`job, LedgerSet(client)`prior, LedgerSet(client)`ranges, LedgerSet(client)`history
      ensures Listed() && Stocked() && LedgersKept() && (old(Orderly()) ==> Orderly())
      ensures Value() == if client in old(live) then Attached(old(Value()), link, client, g.Some?)
        else Evicted(old(Value()), client)
      ensures homes == if g.Some? then old(homes)[client := link] else old(homes) - {client}
      ensures old(Valid()) ==> (Valid() <==> client !in old(live) || client !in old(homes))
      ensures log == NextLog(old(log), Term(link, link.number, link.space.segments), client, link.job, g)
      ensures g.Some? ==> live == old(live) && histories == NextHistories(old(histories), client, link.job, g)
      ensures g.None? ==> live == old(live) - {client} && client !in ledgers
      ensures g.None? && client in old(live) ==> NothingFor(old(link.space.Value()))
    {
      hide Sound, Evicted, Attached, NothingFor, GrantOf, InOrder, Value, LedgersKept, Stocked, Listed;
      ghost var b := Value();
      assert b.homes == homes && link in b.links by { ValueHolds(); }
      if client !in live {
        Detach(client, now);
        return None;
      }
      g := AttachLive(link, client, now, deadline);
      if Sound(b) {
        AttachKeeps(b, link, client, g.Some?);
      }
    }

    lemma ValueHolds()
      ensures Value().homes == homes && Value().links.Keys == all
    {
    }

    function HomeSpaces(client: Client): set<NonceSpace>
      reads `homes, HomeSet(client)`space
    {
      if client in homes then {homes[client].space} else {}
    }

    /** A miner asks for a range of the job it works on. */
    method Chunk(client: Client, id: string, deadline: real) returns (r: Reply)
      requires Listed() && Stocked() && LedgersKept()
      modifies `stock, `ledgers, `histories, `owners, `log, HomeSpaces(client)`index, HomeSpaces(client)`cursor
      modifies LedgerSet(client)`job, LedgerSet(client)`prior, LedgerSet(client)`ranges, LedgerSet(client)`history
      ensures Stocked() && LedgersKept() && (old(Orderly()) ==> Orderly())
      ensures r == Retry(2000) <==> client !in homes || homes[client].job.None?
      ensures r.Expired? <==> client in homes && homes[client].job.Some? && homes[client].job != Some(id)
      ensures histories == if r.Granted? then More(old(histories), client, Entry(id, r.range)) else old(histories)
      ensures client in homes ==>
        var link := homes[client];
        log == NextLog(old(log), Term(link, link.number, link.space.segments), client, link.job,
          if r.Granted? then Some(r.range) else None)
      ensures client !in homes ==> log == old(log)
      ensures r.Retry? ==> r.after == 2000
      ensures r.Moving? ==> client in homes && r.from == homes[client] && NothingFor(old(homes[client].space.Value()))
    {
      hide NothingFor, GrantOf, InOrder, LedgersKept, Stocked, More;
      if client !in homes || homes[client].job.None? {
        return Retry(2000);
      }
      var link := homes[client];
      if link.job != Some(id) {
        return Expired;
      }
      ghost var s := link.space.Value();
      StockAt(link);
      GrantOfDoes(s, RateOf(hashrate, client), link.load, deadline);
      var g := GrantTo(link, client, deadline);
      match g
      case Some(range) => r := Granted(range);
      case None =>
        NothingGranted(s, link.space.Value());
        r := Moving(link);
    }

    /** Whether a nonce is in a range that was granted to the miner in its last two runs of jobs. */
    method Owns(client: Client, nonce: nat) returns (r: bool)
      requires LedgersKept()
      ensures r <==>
        && client in ledgers
        && var history := histories[client];
           RecordedIn(history, PreviousStart(history), |history|, nonce)
    {
      hide Keeps, RecordedIn;
      if client in ledgers {
        r := ledgers[client].Owns(nonce);
      } else {
        r := false;
      }
    }
  }

  /** A list of links without the first occurrence of one of them. */
  predicate Without(before: seq<Link>, link: Link, after: seq<Link>) {
    || (link !in before && after == before)
    || exists i: nat ::
      && i < |before| && before[i] == link
      && link !in before[..i] && after == before[..i] + before[i + 1..]
  }
}

/** Two linked ends over a network that loses, duplicates and reorders packets but forges none. */
module DatagramProtocol {
  import opened Datagrams
  import opened Options

  /** One end: its link, its process, and the history of what it did. The wire has every packet
      it ever wrote; the network may deliver any of them, any number of times, or never. Its owner
      has stopped it, or still owns it; late says that something was sent on it after that, and lost
      that it then died, when nobody stops it any more. */
  datatype Side = Side(link: Link, process: Process<nat>, wire: set<Packet>,
                       sent: seq<string>, delivered: seq<(nat, string)>, transmitted: multiset<nat>,
                       stopped: bool, late: bool, lost: bool)

  /** Of the links of its process, this side's is number 0. */
  const SELF: nat := 0

  predicate Initial(s: Side) {
    s == Side(Link(0, 0, {}, seq(SEEN_WINDOW, _ => -1), map[]),
      Process({}, false), {}, [], [], multiset{}, false, false, false)
  }

  datatype Event =
    | Send(payload: string, now: int)
    | Tick(now: int, leaving: set<nat>)
    | Receive(packet: Packet)
    | Stop
    | OtherJoins(other: nat)
    | OtherLeaves(other: nat)

  /** What this side can receive is what its peer wrote. */
  predicate Enabled(s: Side, e: Event, peerWire: set<Packet>) {
    match e
    case Receive(p) => p in peerWire && Shaped(s.link)
    case OtherJoins(o) => o != SELF
    case OtherLeaves(o) => o != SELF
    case _ => true
  }

  /** Numbers written again go onto the wire with their payloads. */
  function Written(l: Link, numbers: seq<nat>): set<Packet> {
    set k | k in numbers && k in l.outbox :: Data(k, l.outbox[k].payload)
  }

  /** A run of the timer: this link resends if it waits, others may stop waiting, and the timer
      stops once nobody waits. A link that dies is stopped by its owner. */
  function Ticked(s: Side, now: int, leaving: set<nat>): Side {
    var (l, owned, numbers, died) :=
      if SELF in s.process.waiting then Passed(s.link, !s.stopped, now) else (s.link, !s.stopped, [], false);
    var stays := SELF in s.process.waiting && !died && l.outbox != map[];
    var waiting := (s.process.waiting - leaving - {SELF}) + if stays then {SELF} else {};
    s.(link := l, wire := s.wire + Written(s.link, numbers), transmitted := s.transmitted + multiset(numbers),
       process := Process(waiting, s.process.sweeper && waiting != {}),
       stopped := !owned, lost := s.lost || (s.stopped && died))
  }

  function Next(s: Side, e: Event, peerWire: set<Packet>): Side
    requires Enabled(s, e, peerWire)
  {
    match e
    case Send(payload, now) =>
      var l := Sent(s.link, payload, now);
      s.(link := l, wire := s.wire + {Data(l.count, payload)}, sent := s.sent + [payload],
         transmitted := s.transmitted + multiset{l.count}, process := Join(s.process, SELF),
       late := s.late || s.stopped)
    case Tick(now, leaving) => Ticked(s, now, leaving)
    case Receive(p) =>
      var (l, d) := Received(s.link, p);
      s.(link := l,
         wire := s.wire + (if p.Data? then {Ack(p.number)} else {}),
         delivered := s.delivered + (if d.Some? then [(p.number, d.value)] else []),
         process := if p.Ack? && p.number in s.link.outbox && l.outbox == map[] then Leave(s.process, SELF)
           else s.process)
    case Stop => s.(link := Stopped(s.link), process := Leave(s.process, SELF), stopped := true)
    case OtherJoins(o) => s.(process := Join(s.process, o))
    case OtherLeaves(o) => s.(process := Leave(s.process, o))
  }

  // The window of recent deliveries

  /** Whether a number is among the last 256 deliveries. */
  ghost predicate InWindow(delivered: seq<(nat, string)>, q: int) {
    exists i :: 0 <= i < |delivered| && |delivered| - SEEN_WINDOW <= i && delivered[i].0 == q
  }

  /** The ring and the set hold the last 256 deliveries, and repeats are further apart than that. */
  ghost predicate WindowKept(l: Link, delivered: seq<(nat, string)>) {
    var n := |delivered|;
    && Shaped(l) && l.at == n % SEEN_WINDOW
    && (forall i :: 0 <= i < n && n - SEEN_WINDOW <= i ==> l.ring[i % SEEN_WINDOW] == delivered[i].0)
    && (forall k :: n <= k < SEEN_WINDOW ==> l.ring[k] == -1)
    && (forall q :: q in l.seen <==> InWindow(delivered, q))
    && SpacedOut(delivered)
  }

  /** Between two deliveries of the same number there are at least 256 others. */
  ghost predicate SpacedOut(delivered: seq<(nat, string)>) {
    forall i, j :: 0 <= i < j < |delivered| && delivered[i].0 == delivered[j].0 ==> j - i - 1 >= SEEN_WINDOW
  }

  lemma DeliveryKeepsWindow(l: Link, delivered: seq<(nat, string)>, number: nat, payload: string)
    requires WindowKept(l, delivered) && number !in l.seen
    ensures WindowKept(Noted(l, number), delivered + [(number, payload)])
  {
    RingAfter(l, delivered, number, payload);
    SeenAfter(l, delivered, number, payload);
    SpacedAfter(l, delivered, number, payload);
  }

  lemma RingAfter(l: Link, delivered: seq<(nat, string)>, number: nat, payload: string)
    requires WindowKept(l, delivered)
    ensures var l', d', n := Noted(l, number), delivered + [(number, payload)], |delivered| + 1;
            && l'.at == n % SEEN_WINDOW
            && (forall i :: 0 <= i < n && n - SEEN_WINDOW <= i ==> l'.ring[i % SEEN_WINDOW] == d'[i].0)
            && (forall k :: n <= k < SEEN_WINDOW ==> l'.ring[k] == -1)
  {
    var n, d' := |delivered|, delivered + [(number, payload)];
    NextSlot(n);
    var ring := l.ring[l.at := number];
    assert Noted(l, number).ring == ring;
    forall i | 0 <= i < n + 1 && n + 1 - SEEN_WINDOW <= i ensures ring[i % SEEN_WINDOW] == d'[i].0 {
      if i < n {
        OtherSlot(i, n);
        assert d'[i] == delivered[i];
      }
    }
  }

  lemma NextSlot(n: nat)
    ensures (n % SEEN_WINDOW + 1) % SEEN_WINDOW == (n + 1) % SEEN_WINDOW
    ensures n < SEEN_WINDOW ==> n % SEEN_WINDOW == n
  {
  }

  lemma OtherSlot(i: nat, n: nat)
    requires n + 1 - SEEN_WINDOW <= i < n
    ensures i % SEEN_WINDOW != n % SEEN_WINDOW
  {
  }

  lemma SpacedAfter(l: Link, delivered: seq<(nat, string)>, number: nat, payload: string)
    requires WindowKept(l, delivered) && number !in l.seen
    ensures SpacedOut(delivered + [(number, payload)])
  {
    var n, d' := |delivered|, delivered + [(number, payload)];
    forall i | 0 <= i < n && d'[i].0 == number ensures n - i - 1 >= SEEN_WINDOW {
      assert d'[i] == delivered[i];
    }
  }

  /** Which number leaves the window. */
  lemma EvictedIs(l: Link, delivered: seq<(nat, string)>)
    requires WindowKept(l, delivered)
    ensures var n := |delivered|; l.ring[l.at] == if n >= SEEN_WINDOW then delivered[n - SEEN_WINDOW].0 else -1
  {
    var n := |delivered|;
    if n >= SEEN_WINDOW {
      assert (n - SEEN_WINDOW) % SEEN_WINDOW == n % SEEN_WINDOW;
    } else {
      assert n % SEEN_WINDOW == n;
    }
  }

  lemma StaysInWindow(delivered: seq<(nat, string)>, number: nat, payload: string, i: nat)
    requires SpacedOut(delivered) && |delivered| + 1 - SEEN_WINDOW <= i < |delivered|
    ensures InWindow(delivered, delivered[i].0) && InWindow(delivered + [(number, payload)], delivered[i].0)
    ensures |delivered| >= SEEN_WINDOW ==> delivered[|delivered| - SEEN_WINDOW].0 != delivered[i].0
  {
    assert (delivered + [(number, payload)])[i] == delivered[i];
  }

  lemma SeenAfter(l: Link, delivered: seq<(nat, string)>, number: nat, payload: string)
    requires WindowKept(l, delivered) && number !in l.seen
    ensures forall q :: q in Noted(l, number).seen <==> InWindow(delivered + [(number, payload)], q)
  {
    var n, l', d' := |delivered|, Noted(l, number), delivered + [(number, payload)];
    EvictedIs(l, delivered);
    forall q | InWindow(d', q) ensures q in l'.seen {
      var i :| 0 <= i < n + 1 && n + 1 - SEEN_WINDOW <= i && d'[i].0 == q;
      if i < n {
        StaysInWindow(delivered, number, payload, i);
        assert delivered[i].0 in l.seen;
      }
    }
    forall q | q in l'.seen ensures InWindow(d', q) {
      if q == number {
        assert d'[n].0 == q;
      } else {
        var i :| 0 <= i < n && n - SEEN_WINDOW <= i && delivered[i].0 == q;
        assert d'[i].0 == q && i != n - SEEN_WINDOW;
      }
    }
  }

  // What every step keeps

  /** The outbox has numbers that were sent and written, with their payloads, and no number is
      transmitted more often than it may be tried. */
  ghost predicate OutboxKept(s: Side) {
    && |s.sent| == s.link.count
    && (forall q :: q in s.link.outbox ==> 1 <= q <= s.link.count)
    && (forall q :: q in s.link.outbox ==>
      s.link.outbox[q].payload == s.sent[q - 1] && 1 <= s.link.outbox[q].tries <= RETRIES)
    && (forall q :: q in s.link.outbox ==> s.transmitted[q] == s.link.outbox[q].tries)
    && (forall q :: q in s.link.outbox ==> Data(q, s.link.outbox[q].payload) in s.wire)
    && (forall q: nat :: s.transmitted[q] <= RETRIES)
    && (forall q: nat :: q > s.link.count ==> s.transmitted[q] == 0)
  }

  /** Whatever is in the outbox has a timer. */
  ghost predicate Timed(s: Side) {
    s.link.outbox != map[] ==> SELF in s.process.waiting && s.process.sweeper
  }

  /** That is so unless the link died after its owner had let go of it, for which something must
      have been sent on it after that. */
  ghost predicate TimerKept(s: Side) {
    && (!s.lost ==> Timed(s)) && (s.lost ==> s.late) && (s.late ==> s.stopped)
    && (s.process.waiting != {} ==> s.process.sweeper)
    && (s.stopped && !s.late ==> s.link.outbox == map[])
  }

  predicate WasDelivered(s: Side, q: nat) {
    exists i :: 0 <= i < |s.delivered| && s.delivered[i].0 == q
  }

  /** What ties the end that sends to the end that receives. */
  ghost predicate Agree(sender: Side, receiver: Side) {
    && (forall q: nat, t :: Data(q, t) in sender.wire ==> 1 <= q <= |sender.sent| && t == sender.sent[q - 1])
    && (forall q: nat :: Ack(q) in receiver.wire ==> WasDelivered(receiver, q))
    && (forall i :: 0 <= i < |receiver.delivered| ==>
          1 <= receiver.delivered[i].0 <= |sender.sent|
            && receiver.delivered[i].1 == sender.sent[receiver.delivered[i].0 - 1])
    && (forall q: nat :: 1 <= q <= |sender.sent| && !sender.stopped ==>
      q in sender.link.outbox || WasDelivered(receiver, q))
  }

  ghost predicate Local(s: Side) {
    OutboxKept(s) && TimerKept(s) && WindowKept(s.link, s.delivered)
  }

  ghost predicate Invariant(a: Side, b: Side) {
    Local(a) && Local(b) && Agree(a, b) && Agree(b, a)
  }

  lemma CountFirst(k: nat, w: seq<nat>, q: nat)
    ensures multiset([k] + w)[q] == multiset(w)[q] + if q == k then 1 else 0
  {
    assert multiset([k] + w) == multiset{k} + multiset(w);
  }

  /** What a pass over the outbox from number k on does to number q: it is written at most once, only
      when it is due, and always then unless the link dies; then it is due again later. */
  ghost predicate Effect(l: Link, l': Link, w: seq<nat>, died: bool, k: nat, now: int, q: nat) {
    && (multiset(w)[q] > 0 ==>
          && multiset(w)[q] == 1 && q in l.outbox && l.outbox[q].due <= now
          && q in l'.outbox && l'.outbox[q].due == now + RETRY_MS)
    && (multiset(w)[q] == 0 && q in l'.outbox ==> q in l.outbox && l'.outbox[q] == l.outbox[q])
    && (!died && k <= q <= l.count && q in l.outbox && l.outbox[q].due <= now ==> multiset(w)[q] == 1)
    && (q in l'.outbox ==> q in l.outbox && l'.outbox[q].payload == l.outbox[q].payload
                           && l'.outbox[q].tries == l.outbox[q].tries + multiset(w)[q] <= RETRIES)
    && (multiset(w)[q] > 0 ==> q in l'.outbox && k <= q)
    && (!died && q in l.outbox ==> q in l'.outbox)
    && (q < k ==> (q in l'.outbox <==> q in l.outbox))
  }

  /** An entry that is written once more. */
  function Retried(l: Link, k: nat, now: int): Link
    requires k in l.outbox
  {
    l.(outbox := l.outbox[k := Entry(l.outbox[k].payload, l.outbox[k].tries + 1, now + RETRY_MS)])
  }

  lemma RetriedEffect(l: Link, l': Link, w: seq<nat>, died: bool, k: nat, now: int, q: nat)
    requires k in l.outbox && l.outbox[k].due <= now && Effect(Retried(l, k, now), l', w, died, k + 1, now, q)
    ensures Effect(l, l', [k] + w, died, k, now, q)
  {
    CountFirst(k, w, q);
  }

  lemma {:induction false} PassEffect(l: Link, k: nat, now: int, q: nat)
    requires q in l.outbox ==> l.outbox[q].tries <= RETRIES
    ensures var (l', w, died) := Resent(l, k, now); Effect(l, l', w, died, k, now, q)
    decreases if k <= l.count then l.count + 1 - k else 0
  {
    if k <= l.count {
      if k !in l.outbox || l.outbox[k].due > now {
        PassEffect(l, k + 1, now, q);
      } else if l.outbox[k].tries + 1 <= RETRIES {
        hide Effect;
        var l1 := Retried(l, k, now);
        var (l', w, died) := Resent(l1, k + 1, now);
        PassEffect(l1, k + 1, now, q);
        RetriedEffect(l, l', w, died, k, now, q);
      }
    }
  }

  /** A number that was just sent is not written again before its time, and then it is. */
  lemma RetriedInTime(l: Link, payload: string, now: int, later: int)
    ensures var (_, w, died) := Resent(Sent(l, payload, now), 1, later);
            && (later < now + RETRY_MS ==> l.count + 1 !in w)
            && (later >= now + RETRY_MS && !died ==> l.count + 1 in w)
  {
    hide Resent;
    var (l', w, died) := Resent(Sent(l, payload, now), 1, later);
    PassEffect(Sent(l, payload, now), 1, later, l.count + 1);
    assert l.count + 1 in w <==> multiset(w)[l.count + 1] > 0;
  }

  /** A due number that has had all its tries. */
  predicate Exhausted(l: Link, q: nat, now: int) {
    q in l.outbox && l.outbox[q].due <= now && l.outbox[q].tries >= RETRIES
  }

  /** A link dies exactly when some due number has had all its tries. */
  lemma {:induction false} DiesExactly(l: Link, k: nat, now: int)
    ensures Resent(l, k, now).2 <==> exists q :: k <= q <= l.count && Exhausted(l, q, now)
    decreases if k <= l.count then l.count + 1 - k else 0
  {
    if k <= l.count && !Exhausted(l, k, now) {
      if k !in l.outbox || l.outbox[k].due > now {
        DiesExactly(l, k + 1, now);
      } else {
        DiesExactly(Retried(l, k, now), k + 1, now);
        assert forall q :: k + 1 <= q <= l.count ==> (Exhausted(Retried(l, k, now), q, now) <==> Exhausted(l, q, now));
      }
    }
  }

  /** A pass changes nothing but the outbox. */
  lemma {:induction false} PassKeepsRest(l: Link, k: nat, now: int)
    ensures var l' := Resent(l, k, now).0; l' == l.(outbox := l'.outbox)
    decreases if k <= l.count then l.count + 1 - k else 0
  {
    if k <= l.count {
      if k !in l.outbox || l.outbox[k].due > now {
        PassKeepsRest(l, k + 1, now);
      } else if l.outbox[k].tries + 1 <= RETRIES {
        PassKeepsRest(l.(outbox := l.outbox[k := Entry(l.outbox[k].payload, l.outbox[k].tries + 1, now + RETRY_MS)]),
          k + 1, now);
      }
    }
  }

  // One step of one end

  lemma OutboxStep(s: Side, e: Event, peerWire: set<Packet>)
    requires Local(s) && Enabled(s, e, peerWire)
    ensures OutboxKept(Next(s, e, peerWire))
  {
    hide WindowKept, TimerKept, Resent;
    if e.Tick? {
      TickOutbox(s, e.now, e.leaving);
    }
  }

  /** What a pass, and stopping after it, may do to the outbox. */
  ghost predicate Wrote(l: Link, l': Link, w: seq<nat>, q: nat) {
    && (q in l'.outbox ==> q in l.outbox && l'.outbox[q].payload == l.outbox[q].payload
                           && l'.outbox[q].tries == l.outbox[q].tries + multiset(w)[q])
    && (multiset(w)[q] > 0 ==> q in l.outbox && l.outbox[q].tries + multiset(w)[q] <= RETRIES)
    && (q in l'.outbox ==> l'.outbox[q].tries <= RETRIES)
  }

  lemma TickOutbox(s: Side, now: int, leaving: set<nat>)
    requires OutboxKept(s)
    ensures OutboxKept(Ticked(s, now, leaving))
  {
    hide Resent;
    var s' := Ticked(s, now, leaving);
    var w := if SELF in s.process.waiting then Resent(s.link, 1, now).1 else [];
    PassKeepsRest(s.link, 1, now);
    forall q: nat ensures Wrote(s.link, s'.link, w, q) {
      PassEffect(s.link, 1, now, q);
    }
    WroteKeeps(s, s', w);
  }

  lemma WroteKeeps(s: Side, s': Side, w: seq<nat>)
    requires OutboxKept(s) && s'.sent == s.sent && s'.link.count == s.link.count && s.wire <= s'.wire
    requires s'.transmitted == s.transmitted + multiset(w) && forall q: nat :: Wrote(s.link, s'.link, w, q)
    ensures OutboxKept(s')
  {
    forall q: nat
      ensures q in s'.link.outbox ==> q in s.link.outbox && s'.link.outbox[q].payload == s.link.outbox[q].payload
      ensures q in s'.link.outbox ==>
        s'.transmitted[q] == s'.link.outbox[q].tries && 1 <= s'.link.outbox[q].tries <= RETRIES
      ensures s'.transmitted[q] <= RETRIES && (q > s.link.count ==> s'.transmitted[q] == 0)
    {
      assert Wrote(s.link, s'.link, w, q);
    }
  }

  lemma TimerStep(s: Side, e: Event, peerWire: set<Packet>)
    requires Local(s) && Enabled(s, e, peerWire)
    ensures TimerKept(Next(s, e, peerWire))
  {
    hide Resent, WindowKept, OutboxKept;
    if e.Tick? && s.link.outbox == map[] {
      EmptyPass(s.link, 1, e.now);
    }
  }

  lemma {:induction false} EmptyPass(l: Link, k: nat, now: int)
    requires l.outbox == map[]
    ensures Resent(l, k, now) == (l, [], false)
    decreases if k <= l.count then l.count + 1 - k else 0
  {
    if k <= l.count {
      EmptyPass(l, k + 1, now);
    }
  }

  /** A run of the timer leaves an outbox without a timer exactly when a link dies that its owner has
      stopped before, with more than one number in its outbox. */
  lemma TimerIsLost(s: Side, now: int, leaving: set<nat>)
    requires Local(s) && Timed(s)
    ensures var (l, _, died) := Resent(s.link, 1, now);
            !Timed(Ticked(s, now, leaving)) <==> s.stopped && died && l.outbox != map[]
  {
    hide Resent, WindowKept, OutboxKept;
    if s.link.outbox == map[] {
      EmptyPass(s.link, 1, now);
    }
  }

  /** A link that is stopped and then sends two payloads, which nobody acknowledges. */
  function LateStates(passes: nat, payload: string): Side {
    if passes == 0 then LateStart(payload)
    else Ticked(LateStates(passes - 1, payload), passes * RETRY_MS, {})
  }

  function LateStart(payload: string): Side {
    var start := Side(Link(0, 0, {}, seq(SEEN_WINDOW, _ => -1), map[]),
      Process({}, false), {}, [], [], multiset{}, false, false, false);
    Next(Next(Next(start, Event.Stop, {}), Event.Send(payload, 0), {}), Event.Send(payload, 0), {})
  }

  predicate TwoWaiting(s: Side, e: Datagrams.Entry) {
    s.link.count == 2 && s.link.outbox == map[1 := e, 2 := e] && s.process.waiting == {SELF} && s.stopped && s.late
  }

  lemma LateStarts(payload: string)
    ensures TwoWaiting(LateStart(payload), Datagrams.Entry(payload, 1, RETRY_MS))
  {
  }

  lemma LatePass(s: Side, e: Datagrams.Entry, now: int)
    requires TwoWaiting(s, e) && e.due <= now && e.tries < RETRIES
    ensures TwoWaiting(Ticked(s, now, {}), Datagrams.Entry(e.payload, e.tries + 1, now + RETRY_MS))
  {
    hide Resent;
    TwoRetried(s.link, e, now);
    var later := Datagrams.Entry(e.payload, e.tries + 1, now + RETRY_MS);
    var s' := Ticked(s, now, {});
    assert s.link.outbox[1 := later][2 := later] == map[1 := later, 2 := later];
    assert 1 in Retried(Retried(s.link, 1, now), 2, now).outbox;
    assert s'.link == Retried(Retried(s.link, 1, now), 2, now) && s'.process.waiting == {SELF};
  }

  lemma TwoRetried(l: Link, e: Datagrams.Entry, now: int)
    requires l.count == 2 && l.outbox == map[1 := e, 2 := e] && e.due <= now
    ensures e.tries < RETRIES ==>
      Resent(l, 1, now) == (Retried(Retried(l, 1, now), 2, now), [1, 2], false)
    ensures e.tries == RETRIES ==> Resent(l, 1, now) == (l.(outbox := l.outbox - {1}), [], true)
  {
    if e.tries < RETRIES {
      var l1 := Retried(l, 1, now);
      var l2 := Retried(l1, 2, now);
      assert Resent(l2, 3, now) == (l2, [], false);
      assert Resent(l1, 2, now) == (l2, [2] + [], false);
      assert Resent(l, 1, now) == (l2, [1] + ([2] + []), false);
      assert [1] + ([2] + []) == [1, 2];
    }
  }

  lemma {:induction false} LateEntries(passes: nat, payload: string)
    requires passes < RETRIES
    ensures TwoWaiting(LateStates(passes, payload), Datagrams.Entry(payload, passes + 1, (passes + 1) * RETRY_MS))
  {
    hide Resent, Ticked, LateStart, TwoWaiting;
    if passes == 0 {
      LateStarts(payload);
    } else {
      LateEntries(passes - 1, payload);
      LatePass(LateStates(passes - 1, payload), Datagrams.Entry(payload, passes, passes * RETRY_MS), passes * RETRY_MS);
    }
  }

  /** The fifth pass ends it, and its second payload stays in the outbox without a timer. */
  lemma LateSendsAreLost(payload: string)
    ensures var s := LateStates(RETRIES, payload);
            && s.link.outbox.Keys == {2} && s.process == Process({}, false)
            && s.stopped && s.late && s.lost && !Timed(s)
  {
    hide Resent;
    LateEntries(RETRIES - 1, payload);
    var s, e := LateStates(RETRIES - 1, payload), Datagrams.Entry(payload, RETRIES, RETRIES * RETRY_MS);
    TwoRetried(s.link, e, RETRIES * RETRY_MS);
  }

  /** What receiving does: a data packet is acknowledged, and delivered exactly when its number is not
      among the last 256 delivered; an acknowledgement clears its number and no other. */
  lemma ReceivingDoes(s: Side, p: Packet, peerWire: set<Packet>)
    requires Local(s) && p in peerWire
    ensures
      var s' := Next(s, Receive(p), peerWire);
      match p
      case Data(q, payload) =>
        && s'.delivered == s.delivered + (if InWindow(s.delivered, q) then [] else [(q, payload)])
        && s'.wire == s.wire + {Ack(q)} && s'.link.outbox == s.link.outbox
      case Ack(q) =>
        s'.delivered == s.delivered && s'.wire == s.wire && s'.link.outbox == s.link.outbox - {q}
  {
  }

  /** A number goes to the other end and its acknowledgement comes back: it was delivered, and is not
      sent again. */
  lemma OneExchange(a: Side, b: Side, q: nat)
    requires Invariant(a, b) && q in a.link.outbox
    ensures
      var b' := Next(b, Receive(Data(q, a.link.outbox[q].payload)), a.wire);
      && Ack(q) in b'.wire && WasDelivered(b', q)
      && q !in Next(a, Receive(Ack(q)), b'.wire).link.outbox
  {
    hide Agree, Noted;
    var t := a.link.outbox[q].payload;
    var b' := Next(b, Receive(Data(q, t)), a.wire);
    ReceivingDoes(b, Data(q, t), a.wire);
    ReceivingDoes(a, Ack(q), b'.wire);
    if InWindow(b.delivered, q) {
      var i :| 0 <= i < |b.delivered| && b.delivered[i].0 == q;
      assert b'.delivered[i].0 == q;
    } else {
      assert b'.delivered[|b.delivered|].0 == q;
    }
  }

  lemma WindowStep(s: Side, e: Event, peerWire: set<Packet>)
    requires Local(s) && Enabled(s, e, peerWire)
    ensures var s' := Next(s, e, peerWire); WindowKept(s'.link, s'.delivered)
  {
    hide WindowKept;
    var s' := Next(s, e, peerWire);
    match e
    case Receive(Data(q, t)) =>
      if q in s.link.seen {
        assert s.delivered + [] == s.delivered;
      } else {
        DeliveryKeepsWindow(s.link, s.delivered, q, t);
      }
    case Tick(now, _) =>
      PassKeepsRest(s.link, 1, now);
      WindowIgnoresOutbox(s.link, s'.link, s.delivered);
    case Receive(Ack(_)) =>
      assert s.delivered + [] == s.delivered;
      WindowIgnoresOutbox(s.link, s'.link, s.delivered);
    case _ =>
      WindowIgnoresOutbox(s.link, s'.link, s.delivered);
  }

  lemma WindowIgnoresOutbox(l: Link, l': Link, delivered: seq<(nat, string)>)
    requires WindowKept(l, delivered) && l' == l.(outbox := l'.outbox, count := l'.count)
    ensures WindowKept(l', delivered)
  {
  }

  /** What a step may change at the end that sends. */
  ghost predicate Sends(a: Side, a': Side) {
    && a.sent <= a'.sent
    && (forall q: nat, t :: Data(q, t) in a'.wire ==>
      Data(q, t) in a.wire || (1 <= q <= |a'.sent| && t == a'.sent[q - 1]))
    && (a.stopped ==> a'.stopped)
  }

  lemma SendsStep(a: Side, e: Event, peerWire: set<Packet>)
    requires Local(a) && Enabled(a, e, peerWire)
    ensures Sends(a, Next(a, e, peerWire))
  {
    hide Resent, WindowKept, TimerKept, Received;
  }

  /** A number leaves the outbox only when it is acknowledged or the link ends. */
  lemma OutboxShrinks(a: Side, e: Event, peerWire: set<Packet>, q: nat)
    requires Local(a) && Enabled(a, e, peerWire) && q in a.link.outbox
    ensures var a' := Next(a, e, peerWire); q in a'.link.outbox || a'.stopped || Ack(q) in peerWire
  {
    hide WindowKept, TimerKept;
    if e.Tick? {
      PassEffect(a.link, 1, e.now, q);
    }
  }

  lemma NewNumbersWait(a: Side, e: Event, peerWire: set<Packet>, q: nat)
    requires Local(a) && Enabled(a, e, peerWire) && |a.sent| < q <= |Next(a, e, peerWire).sent|
    ensures q in Next(a, e, peerWire).link.outbox
  {
    hide Resent, WindowKept, TimerKept, Received;
  }

  /** A step of the sender keeps it in agreement with the receiver. */
  lemma SenderStep(a: Side, b: Side, e: Event)
    requires Local(a) && Agree(a, b) && Agree(b, a) && Enabled(a, e, b.wire)
    ensures Agree(Next(a, e, b.wire), b)
  {
    hide Next, Local, Enabled, WasDelivered;
    var a' := Next(a, e, b.wire);
    SendsStep(a, e, b.wire);
    forall q: nat | 1 <= q <= |a'.sent| && !a'.stopped ensures q in a'.link.outbox || WasDelivered(b, q) {
      if q > |a.sent| {
        NewNumbersWait(a, e, b.wire, q);
      } else if q in a.link.outbox {
        OutboxShrinks(a, e, b.wire, q);
      }
    }
  }

  /** What a step may change at the end that receives. */
  ghost predicate Receives(b: Side, b': Side, peerWire: set<Packet>) {
    && b.delivered <= b'.delivered
    && (forall i :: |b.delivered| <= i < |b'.delivered| ==> Data(b'.delivered[i].0, b'.delivered[i].1) in peerWire)
    && (forall q: nat :: Ack(q) in b'.wire ==> Ack(q) in b.wire || WasDelivered(b', q))
  }

  lemma ReceivesStep(b: Side, e: Event, peerWire: set<Packet>)
    requires Local(b) && Enabled(b, e, peerWire)
    ensures Receives(b, Next(b, e, peerWire), peerWire)
  {
    hide Resent, TimerKept, OutboxKept;
    var b' := Next(b, e, peerWire);
    if e.Receive? && e.packet.Data? {
      var q := e.packet.number;
      if q in b.link.seen {
        var i :| 0 <= i < |b.delivered| && b.delivered[i].0 == q;
        assert b'.delivered[i].0 == q;
      } else {
        assert b'.delivered[|b.delivered|].0 == q;
      }
    }
  }

  /** A step of the receiver keeps the agreement, too. */
  lemma ReceiverStep(a: Side, b: Side, e: Event)
    requires Local(b) && Agree(a, b) && Enabled(b, e, a.wire)
    ensures Agree(a, Next(b, e, a.wire))
  {
    hide Next, Local, Enabled;
    var b' := Next(b, e, a.wire);
    ReceivesStep(b, e, a.wire);
    forall q: nat | WasDelivered(b, q) ensures WasDelivered(b', q) {
      var i :| 0 <= i < |b.delivered| && b.delivered[i].0 == q;
      assert b'.delivered[i].0 == q;
    }
    forall i | 0 <= i < |b'.delivered|
      ensures 1 <= b'.delivered[i].0 <= |a.sent| && b'.delivered[i].1 == a.sent[b'.delivered[i].0 - 1]
    {
      if i < |b.delivered| {
        assert b'.delivered[i] == b.delivered[i];
      }
    }
  }

  // Runs

  /** A step of one of the two ends. */
  ghost predicate Step(a: Side, b: Side, a': Side, b': Side) {
    || (b' == b && exists e :: Enabled(a, e, b.wire) && a' == Next(a, e, b.wire))
    || (a' == a && exists e :: Enabled(b, e, a.wire) && b' == Next(b, e, a.wire))
  }

  ghost predicate Run(states: seq<(Side, Side)>) {
    && states != [] && Initial(states[0].0) && Initial(states[0].1)
    && forall i :: 0 <= i < |states| - 1 ==> Step(states[i].0, states[i].1, states[i + 1].0, states[i + 1].1)
  }

  lemma StepKeeps(a: Side, b: Side, e: Event)
    requires Invariant(a, b) && Enabled(a, e, b.wire)
    ensures Invariant(Next(a, e, b.wire), b)
  {
    hide Next, OutboxKept, TimerKept, WindowKept, Agree, Enabled;
    OutboxStep(a, e, b.wire);
    TimerStep(a, e, b.wire);
    WindowStep(a, e, b.wire);
    SenderStep(a, b, e);
    ReceiverStep(b, a, e);
  }

  lemma InitialKeeps(a: Side, b: Side)
    requires Initial(a) && Initial(b)
    ensures Invariant(a, b)
  {
  }

  /** Every state of every run keeps the invariant. */
  lemma {:induction false} InvariantHolds(states: seq<(Side, Side)>)
    requires Run(states)
    ensures Invariant(states[|states| - 1].0, states[|states| - 1].1)
  {
    hide Invariant, Next, Initial, Enabled;
    var n := |states| - 1;
    if n == 0 {
      InitialKeeps(states[0].0, states[0].1);
    } else {
      InvariantHolds(states[..n]);
      var (a, b) := states[n - 1];
      var (a', b') := states[n];
      assert Step(states[n - 1].0, states[n - 1].1, states[n].0, states[n].1);
      if e :| b' == b && Enabled(a, e, b.wire) && a' == Next(a, e, b.wire) {
        StepKeeps(a, b, e);
      } else {
        var e :| Enabled(b, e, a.wire) && b' == Next(b, e, a.wire);
        Symmetric(a, b);
        StepKeeps(b, a, e);
        Symmetric(b', a);
      }
    }
  }

  lemma Symmetric(a: Side, b: Side)
    requires Invariant(a, b)
    ensures Invariant(b, a)
  {
  }

  /** What the protocol promises in every state of every run, here of the first end as the sender:
      what is delivered was sent under that number; a sent number that is out of the outbox of a
      link that has not been stopped was delivered; no number is transmitted more than five times;
      repeated deliveries have at least 256 others between them; and an outbox that is not empty has
      a running timer, unless something was sent on a stopped link and that link then died. */
  lemma Promises(states: seq<(Side, Side)>)
    requires Run(states)
    ensures var (a, b) := states[|states| - 1];
      && (forall i :: 0 <= i < |b.delivered| ==>
        1 <= b.delivered[i].0 <= |a.sent| && b.delivered[i].1 == a.sent[b.delivered[i].0 - 1])
      && (forall q: nat :: 1 <= q <= |a.sent| && q !in a.link.outbox && !a.stopped ==> WasDelivered(b, q))
      && (forall q: nat :: a.transmitted[q] <= RETRIES)
      && SpacedOut(b.delivered)
      && (Timed(a) || (a.late && a.lost))
  {
    InvariantHolds(states);
  }
}

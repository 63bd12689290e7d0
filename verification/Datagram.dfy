/** One end of a datagram link: numbered sends that are retransmitted until acknowledged, and
    receipts that are acknowledged and delivered unless seen before. */
module Datagrams {
  import opened Options

  const RETRIES := 5
  const RETRY_MS := 700
  const SEEN_WINDOW := 256

  datatype Packet = Data(number: nat, payload: string) | Ack(number: nat)

  datatype Entry = Entry(payload: string, tries: nat, due: int)

  /** The state of a link. The ring holds the numbers delivered last, -1 where there are fewer. */
  datatype Link = Link(count: nat, at: nat, seen: set<int>, ring: seq<int>, outbox: map<nat, Entry>)

  predicate Shaped(l: Link) {
    |l.ring| == SEEN_WINDOW && l.at < SEEN_WINDOW
  }

  function Sent(l: Link, payload: string, now: int): Link {
    l.(count := l.count + 1, outbox := l.outbox[l.count + 1 := Entry(payload, 1, now + RETRY_MS)])
  }

  /** A pass over the outbox from number k on: the link, the numbers written again, and whether a
      number ran out of tries, which ends the pass. */
  function Resent(l: Link, k: nat, now: int): (r: (Link, seq<nat>, bool))
    decreases if k <= l.count then l.count + 1 - k else 0
  {
    if k > l.count then (l, [], false)
    else if k !in l.outbox || l.outbox[k].due > now then Resent(l, k + 1, now)
    else
      var e := l.outbox[k];
      if e.tries + 1 > RETRIES then (l.(outbox := l.outbox - {k}), [], true)
      else
        var l' := l.(outbox := l.outbox[k := Entry(e.payload, e.tries + 1, now + RETRY_MS)]);
        var (l'', written, died) := Resent(l', k + 1, now);
        (l'', [k] + written, died)
  }

  /** A number enters the ring in place of the oldest one. */
  function Noted(l: Link, number: nat): (r: Link)
    requires Shaped(l)
    ensures Shaped(r)
  {
    var evicted := l.ring[l.at];
    l.(seen := (if evicted >= 0 then l.seen - {evicted} else l.seen) + {number as int},
       ring := l.ring[l.at := number],
       at := (l.at + 1) % SEEN_WINDOW)
  }

  /** A packet that arrives: the link, and what is delivered. A data packet is always acknowledged. */
  function Received(l: Link, p: Packet): (r: (Link, Option<string>))
    requires Shaped(l)
  {
    match p
    case Ack(number) => (l.(outbox := l.outbox - {number}), None)
    case Data(number, payload) => if number in l.seen then (l, None) else (Noted(l, number), Some(payload))
  }

  function Stopped(l: Link): Link {
    l.(outbox := map[])
  }

  /** A pass, and what follows it when the link dies: its owner drops it, which stops it, unless the
      owner has let go of it before. */
  function Passed(l: Link, owned: bool, now: int): (r: (Link, bool, seq<nat>, bool)) {
    var (l', written, died) := Resent(l, 1, now);
    (if died && owned then Stopped(l') else l', owned && !died, written, died)
  }

  /** The timer of a process: the links that wait for acknowledgements, and whether the timer runs. */
  datatype Process<L> = Process(waiting: set<L>, sweeper: bool)

  function Join<L>(p: Process<L>, link: L): Process<L> {
    Process(p.waiting + {link}, true)
  }

  function Leave<L>(p: Process<L>, link: L): Process<L> {
    p.(waiting := p.waiting - {link})
  }

  /** The timer that the links of a process share. */
  class Timer {
    var waiting: set<Datagram>
    var sweeper: bool

    function Value(): Process<Datagram>
      reads this
    {
      Process(waiting, sweeper)
    }

    constructor ()
      ensures Value() == Process({}, false)
    {
      waiting, sweeper := {}, false;
    }

    /** A run of the timer: all links that wait resend; those that died or have nothing left to be
        acknowledged do not wait any longer, and the timer stops once nobody waits. */
    method Retransmit(now: int) returns (written: map<Datagram, seq<nat>>, died: set<Datagram>)
      requires forall l :: l in waiting ==> l.Valid() && l.timer == this
      modifies this, waiting`outbox, waiting`owned
      ensures written.Keys == old(waiting)
      ensures forall l :: l in old(waiting) ==>
        l.Valid() && (l.Value(), l.owned, written[l], l in died) == Passed(old(l.Value()), old(l.owned), now)
      ensures forall l :: l in waiting <==> l in old(waiting) && l !in died && l.outbox != map[]
      ensures sweeper == (old(sweeper) && waiting != {})
    {
      hide Passed, Datagram.Value, Datagram.Valid;
      written, died := map[], {};
      var rest := waiting;
      ghost var outcome := map l | l in waiting :: Passed(l.Value(), l.owned, now);
      while rest != {}
        invariant rest <= old(waiting) && waiting <= old(waiting) && written.Keys == old(waiting) - rest
        invariant sweeper == old(sweeper) && died <= written.Keys
        invariant forall l :: l in old(waiting) ==>
          && l.Valid() && l.timer == this
          && if l in rest then l in waiting && Passed(l.Value(), l.owned, now) == outcome[l]
             else
               && (l in waiting <==> l !in died && l.outbox != map[])
               && (l.Value(), l.owned, written[l], l in died) == outcome[l]
      {
        var link :| link in rest;
        var numbers, over := link.Resend(now);
        written, died, rest := written[link := numbers], if over then died + {link} else died, rest - {link};
      }
      if |waiting| == 0 {
        sweeper := false;
      }
    }
  }

  class Datagram {
    const timer: Timer
    var count: nat
    var at: nat
    var seen: set<int>
    var ring: array<int>
    var outbox: map<nat, Entry>
    /** Whether it is still the link that its owner drops when it dies. */
    var owned: bool

    ghost predicate Valid()
      reads `ring, `at
    {
      ring.Length == SEEN_WINDOW && at < SEEN_WINDOW
    }

    ghost function Value(): Link
      reads `count, `at, `seen, `ring, `outbox, ring
    {
      Link(count, at, seen, ring[..], outbox)
    }

    constructor (timer: Timer)
      ensures Valid() && fresh(ring) && this.timer == timer && owned
      ensures Value() == Link(0, 0, {}, seq(SEEN_WINDOW, _ => -1), map[])
    {
      this.timer := timer;
      count, at, seen, outbox, owned := 0, 0, {}, map[], true;
      ring := new int[SEEN_WINDOW](_ => -1);
    }

    method Send(payload: string, now: int) returns (written: Packet)
      requires Valid()
      modifies `count, `outbox, timer
      ensures Valid() && Value() == Sent(old(Value()), payload, now)
      ensures timer.Value() == Join(old(timer.Value()), this)
      ensures written == Data(count, payload)
    {
      count := count + 1;
      outbox := outbox[count := Entry(payload, 1, now + RETRY_MS)];
      written := Data(count, payload);
      timer.waiting := timer.waiting + {this};
      if !timer.sweeper {
        timer.sweeper := true;
      }
    }

    /** The pass visits the outbox in the order of insertion, which is that of the numbers; whether
        a number ran out of tries is for the caller to act on. */
    method Pass(now: int) returns (written: seq<nat>, died: bool)
      requires Valid()
      modifies `outbox, timer`waiting
      ensures Valid() && (Value(), written, died) == Resent(old(Value()), 1, now)
      ensures timer.waiting == if died || outbox == map[] then old(timer.waiting) - {this} else old(timer.waiting)
    {
      written, died := [], false;
      ghost var start := Value();
      var k: nat := 1;
      assert [] + Resent(start, 1, now).1 == Resent(start, 1, now).1;
      while k <= count
        invariant 1 <= k
        invariant var (l, w, d) := Resent(Value(), k, now); Resent(start, 1, now) == (l, written + w, d)
        invariant timer.waiting == old(timer.waiting)
        decreases count + 1 - k
      {
        if k in outbox && outbox[k].due <= now {
          var e := outbox[k];
          if e.tries + 1 > RETRIES {
            outbox := outbox - {k};
            timer.waiting := timer.waiting - {this};
            assert written + [] == written;
            return written, true;
          }
          outbox := outbox[k := Entry(e.payload, e.tries + 1, now + RETRY_MS)];
          ghost var later := Resent(Value(), k + 1, now);
          assert (written + [k]) + later.1 == written + ([k] + later.1);
          written := written + [k];
        }
        k := k + 1;
      }
      assert written + [] == written;
      if outbox == map[] {
        timer.waiting := timer.waiting - {this};
      }
    }

    method Resend(now: int) returns (written: seq<nat>, died: bool)
      requires Valid()
      modifies `outbox, `owned, timer`waiting
      ensures Valid() && (Value(), owned, written, died) == Passed(old(Value()), old(owned), now)
      ensures timer.waiting == if died || outbox == map[] then old(timer.waiting) - {this} else old(timer.waiting)
    {
      hide Resent;
      written, died := Pass(now);
      if died {
        Dead();
      }
    }

    /** What the owners do when a link dies: they let go of it and stop it, if they have not before. */
    method Dead()
      requires Valid()
      modifies `outbox, `owned, timer`waiting
      ensures Valid() && !owned && Value() == if old(owned) then Stopped(old(Value())) else old(Value())
      ensures timer.waiting == if old(owned) then old(timer.waiting) - {this} else old(timer.waiting)
    {
      if owned {
        Drop();
      }
    }

    method Drop()
      requires Valid()
      modifies `outbox, `owned, timer`waiting
      ensures Valid() && !owned && Value() == Stopped(old(Value())) && timer.Value() == Leave(old(timer.Value()), this)
    {
      owned := false;
      Stop();
    }


    method Receive(p: Packet) returns (ack: Option<Packet>, delivered: Option<string>)
      requires Valid()
      modifies this, ring, timer`waiting
      ensures Valid() && ring == old(ring)
      ensures timer.Value() ==
        if p.Ack? && p.number in old(outbox) && outbox == map[]
          then Leave(old(timer.Value()), this) else old(timer.Value())
      ensures (Value(), delivered) == Received(old(Value()), p)
      ensures ack == if p.Data? then Some(Ack(p.number)) else None
    {
      ack, delivered := None, None;
      if p.Ack? {
        if p.number in outbox {
          outbox := outbox - {p.number};
          if outbox == map[] {
            timer.waiting := timer.waiting - {this};
          }
        } else {
          assert outbox - {p.number} == outbox;
        }
        return;
      }
      ack := Some(Ack(p.number));
      if p.number in seen {
        return;
      }
      var evicted := ring[at];
      if evicted >= 0 {
        seen := seen - {evicted};
      }
      ring[at] := p.number;
      at := (at + 1) % SEEN_WINDOW;
      seen := seen + {p.number as int};
      delivered := Some(p.payload);
    }

    method Stop()
      requires Valid()
      modifies `outbox, timer`waiting
      ensures Valid() && Value() == Stopped(old(Value())) && timer.Value() == Leave(old(timer.Value()), this)
    {
      timer.waiting := timer.waiting - {this};
      outbox := map[];
    }
  }
}

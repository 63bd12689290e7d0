/** The kinds are the atoms of the registered cpusets, after any run of registrations. */
module CpuKindsAtoms {
  import opened Arithmetic
  import opened CpuKinds
  import opened Infos
  import opened Permutations

  /** How many kinds hold a PU. */
  function Count(ks: seq<Kind>, p: nat): nat {
    if ks == [] then 0 else (if ks[0].cpuset.Holds(p) then 1 else 0) + Count(ks[1..], p)
  }

  lemma {:induction false} CountConcat(a: seq<Kind>, b: seq<Kind>, p: nat)
    ensures Count(a + b, p) == Count(a, p) + Count(b, p)
  {
    if a == [] {
      assert a + b == b;
    } else {
      assert (a + b)[1..] == a[1..] + b;
      CountConcat(a[1..], b, p);
    }
  }

  lemma {:induction false} CountHolder(ks: seq<Kind>, i: nat, p: nat)
    requires i < |ks| && ks[i].cpuset.Holds(p)
    ensures Count(ks, p) >= 1
    ensures forall j :: 0 <= j < |ks| && j != i && ks[j].cpuset.Holds(p) ==> Count(ks, p) >= 2
  {
    if i > 0 {
      CountHolder(ks[1..], i - 1, p);
      assert forall j :: 1 <= j < |ks| ==> ks[j] == ks[1..][j - 1];
    } else {
      forall j | 0 < j < |ks| && ks[j].cpuset.Holds(p) ensures Count(ks, p) >= 2 {
        CountHolder(ks[1..], j - 1, p);
      }
    }
  }

  lemma {:induction false} HolderExists(ks: seq<Kind>, p: nat) returns (i: nat)
    requires Count(ks, p) > 0
    ensures i < |ks| && ks[i].cpuset.Holds(p)
  {
    if ks[0].cpuset.Holds(p) {
      i := 0;
    } else {
      var j := HolderExists(ks[1..], p);
      i := j + 1;
    }
  }

  /** One kind is visited: its PUs stay, and those that remain to be registered shrink by them. */
  lemma VisitCount(k: Kind, c: Cpuset, d: Details, p: nat)
    ensures var (kept, added, c') := Visit(k, c, d);
            && Count([kept] + added, p) == (if k.cpuset.Holds(p) then 1 else 0)
            && (c'.Holds(p) <==> c.Holds(p) && !k.cpuset.Holds(p))
  {
    var (kept, added, c') := Visit(k, c, d);
    assert ([kept] + added)[1..] == added;
    if c.Compare(k.cpuset).Different? {
      assert p in c.Pus() && p in k.cpuset.Pus() ==> p in c.Pus() * k.cpuset.Pus();
    } else if !c.Compare(k.cpuset).Intersects? && !c.Compare(k.cpuset).Included? {
      assert p in k.cpuset.Pus() ==> p in c.Pus();
    } else {
      assert added[1..] == [] && Count(added, p) == if added[0].cpuset.Holds(p) then 1 else 0;
    }
  }

  /** A sweep loses and doubles no PU. */
  lemma {:induction false} SweepCount(ks: seq<Kind>, c: Cpuset, d: Details, p: nat)
    ensures var (kept, added, rest) := Sweep(ks, c, d);
            && Count(kept + added, p) == Count(ks, p)
            && (rest.Holds(p) <==> c.Holds(p) && Count(ks, p) == 0)
  {
    if ks == [] || c.IsZero() {
      assert ks + [] == ks;
      assert c.IsZero() ==> p !in c.Pus();
    } else {
      var (k, added, c') := Visit(ks[0], c, d);
      var (kept, more, rest) := Sweep(ks[1..], c', d);
      VisitCount(ks[0], c, d, p);
      SweepCount(ks[1..], c', d, p);
      CountConcat([k], added, p);
      CountConcat(kept, more, p);
      CountConcat([k], kept, p);
      CountConcat(added, more, p);
      CountConcat([k] + kept, added + more, p);
    }
  }

  /** A kind that comes of another: the PUs of it inside or outside the registered ones. */
  ghost predicate Piece(e: Kind, k: Kind, c: Cpuset, d: Details) {
    && e.cpuset.Pus() != iset{} && Distinct(e.infos)
    && ( || (&& e.cpuset.Pus() == k.cpuset.Pus() * c.Pus()
             && InfoSet(e.infos) == InfoSet(k.infos) + InfoSet(d.infos)
             && e.forced == ForcedInside(k.forced, k.cpuset.Pus() <= c.Pus(), d))
         || (&& e.cpuset.Pus() == k.cpuset.Pus() - c.Pus()
             && InfoSet(e.infos) == InfoSet(k.infos) && e.forced == k.forced))
  }

  /** The forced efficiency of the PUs of a kind that are registered: a kind that is split off takes
      the new one; one that is registered as a whole keeps a known one unless that is to be overwritten. */
  function ForcedInside(forced: int, whole: bool, d: Details): int {
    if whole && !d.overwrite && forced != UNKNOWN then forced else d.forced
  }

  ghost predicate Sound(k: Kind) {
    k.cpuset.Pus() != iset{} && Distinct(k.infos)
  }

  lemma VisitPieces(k: Kind, c: Cpuset, d: Details)
    requires Sound(k) && !c.IsZero()
    ensures var (kept, added, c') := Visit(k, c, d);
            Piece(kept, k, c, d) && forall i :: 0 <= i < |added| ==> Piece(added[i], k, c, d)
  {
    var (kept, added, c') := Visit(k, c, d);
    var (C, K) := (c.Pus(), k.cpuset.Pus());
    c.SetsOf(k.cpuset);
    k.cpuset.SetsOf(c.And(k.cpuset));
    AddInfosIsUnion(k.infos, d.infos);
    AddInfosIsUnion([], k.infos);
    AddInfosIsUnion(AddInfos([], k.infos), d.infos);
    if c.Compare(k.cpuset).Different? {
      assert K - C == K;
    } else if c.Compare(k.cpuset).Contains? || c.Compare(k.cpuset).Equal? {
      assert K * C == K;
    } else {
      assert K - C * K == K - C && C * K == K * C;
      assert InfoSet(AddInfos([], k.infos)) == InfoSet(k.infos);
    }
  }

  /** Every kind that a sweep leaves is a piece of one that was there. */
  ghost predicate Pieces(es: seq<Kind>, ks: seq<Kind>, c: Cpuset, d: Details) {
    forall i :: 0 <= i < |es| ==> PieceOfOne(es[i], ks, c, d)
  }

  ghost predicate PieceOfOne(e: Kind, ks: seq<Kind>, c: Cpuset, d: Details) {
    exists j :: 0 <= j < |ks| && Piece(e, ks[j], c, d)
  }

  /** No PU is in two kinds. */
  ghost predicate Exclusive(ks: seq<Kind>) {
    forall p: nat :: Count(ks, p) <= 1
  }

  /** Pieces by the PUs that remain after the first kind are pieces by all of them. */
  lemma LaterPiece(e: Kind, ks: seq<Kind>, c: Cpuset, c': Cpuset, d: Details)
    requires ks != [] && Exclusive(ks)
    requires c'.Pus() == c.Pus() - ks[0].cpuset.Pus()
    requires PieceOfOne(e, ks[1..], c', d)
    ensures PieceOfOne(e, ks, c, d)
  {
    var j :| 0 <= j < |ks[1..]| && Piece(e, ks[1..][j], c', d);
    var k := ks[j + 1];
    forall p: nat | k.cpuset.Holds(p) ensures !ks[0].cpuset.Holds(p) {
      CountHolder(ks, j + 1, p);
      assert Count(ks, p) <= 1;
    }
    assert k.cpuset.Pus() * c.Pus() == k.cpuset.Pus() * c'.Pus();
    assert k.cpuset.Pus() - c.Pus() == k.cpuset.Pus() - c'.Pus();
    assert k.cpuset.Pus() <= c.Pus() <==> k.cpuset.Pus() <= c'.Pus();
    assert Piece(e, ks[j + 1], c, d);
  }

  lemma JoinPieces(head: seq<Kind>, later: seq<Kind>, ks: seq<Kind>, c: Cpuset, c': Cpuset, d: Details)
    requires ks != [] && Exclusive(ks)
    requires c'.Pus() == c.Pus() - ks[0].cpuset.Pus()
    requires forall i :: 0 <= i < |head| ==> Piece(head[i], ks[0], c, d)
    requires Pieces(later, ks[1..], c', d)
    ensures Pieces(head + later, ks, c, d)
  {
    hide Piece;
    forall i | 0 <= i < |head + later| ensures PieceOfOne((head + later)[i], ks, c, d) {
      if i >= |head| {
        LaterPiece(later[i - |head|], ks, c, c', d);
      }
    }
  }

  lemma {:induction false} SweepPieces(ks: seq<Kind>, c: Cpuset, d: Details)
    requires Exclusive(ks) && forall i :: 0 <= i < |ks| ==> Sound(ks[i])
    ensures var (kept, added, rest) := Sweep(ks, c, d); Pieces(kept, ks, c, d) && Pieces(added, ks, c, d)
  {
    if ks == [] || c.IsZero() {
      forall i | 0 <= i < |ks| ensures PieceOfOne(ks[i], ks, c, d) {
        assert ks[i].cpuset.Pus() - c.Pus() == ks[i].cpuset.Pus();
        assert Piece(ks[i], ks[i], c, d);
      }
    } else {
      hide Visit, Piece, Pieces, Exclusive;
      var (k, added, c') := Visit(ks[0], c, d);
      var (kept, more, rest) := Sweep(ks[1..], c', d);
      VisitPieces(ks[0], c, d);
      forall p: nat ensures c'.Holds(p) <==> c.Holds(p) && !ks[0].cpuset.Holds(p) {
        VisitCount(ks[0], c, d, p);
      }
      assert c'.Pus() == c.Pus() - ks[0].cpuset.Pus();
      TailExclusive(ks);
      SweepPieces(ks[1..], c', d);
      JoinPieces([k], kept, ks, c, c', d);
      JoinPieces(added, more, ks, c, c', d);
    }
  }

  lemma TailExclusive(ks: seq<Kind>)
    requires ks != [] && Exclusive(ks)
    ensures Exclusive(ks[1..])
  {
    forall p: nat ensures Count(ks[1..], p) <= 1 {
      assert Count(ks, p) <= 1;
    }
  }

  // Registrations and the partition that they make

  /** One registration: which PUs, and with which infos and forced efficiency. */
  datatype Registration = Registration(cpuset: Cpuset, details: Details)

  ghost predicate Covers(r: Registration, p: nat) {
    r.cpuset.Holds(p)
  }

  ghost predicate Covered(regs: seq<Registration>, p: nat) {
    exists r :: 0 <= r < |regs| && Covers(regs[r], p)
  }

  /** Two PUs that no registration tells apart. */
  ghost predicate Alike(regs: seq<Registration>, p: nat, q: nat) {
    forall r :: 0 <= r < |regs| ==> (Covers(regs[r], p) <==> Covers(regs[r], q))
  }

  /** The infos of all registrations that cover a PU. */
  ghost function InfosOf(regs: seq<Registration>, p: nat): set<Info> {
    if regs == [] then {}
    else
      var last := regs[|regs| - 1];
      InfosOf(regs[..|regs| - 1], p) + if Covers(last, p) then InfoSet(last.details.infos) else {}
  }

  /** Whether a registration covers all PUs that none before it tells apart from a PU. */
  ghost predicate Whole(regs: seq<Registration>, r: Registration, p: nat) {
    forall q: nat :: Alike(regs, p, q) ==> Covers(r, q)
  }

  /** The forced efficiency of a PU: of the last registration that covers it, except that one which
      tells nothing apart and is not to overwrite leaves a known one alone. */
  ghost function ForcedOf(regs: seq<Registration>, p: nat): int {
    if regs == [] then UNKNOWN
    else
      var (front, last) := (regs[..|regs| - 1], regs[|regs| - 1]);
      if !Covers(last, p) then ForcedOf(front, p)
      else ForcedInside(ForcedOf(front, p), Whole(front, last, p), last.details)
  }

  /** The kind e is the class of a PU: the PUs like it, with the infos that cover it and the forced
      efficiency that results. */
  ghost predicate ClassOf(e: Kind, regs: seq<Registration>, p: nat) {
    && (forall q: nat :: e.cpuset.Holds(q) <==> Alike(regs, p, q))
    && InfoSet(e.infos) == InfosOf(regs, p) && e.forced == ForcedOf(regs, p)
  }

  /** The kinds are the atoms of the registered cpusets. */
  ghost predicate Atoms(ks: seq<Kind>, regs: seq<Registration>) {
    && (forall i :: 0 <= i < |ks| ==> Sound(ks[i]))
    && (forall p: nat :: Count(ks, p) == if Covered(regs, p) then 1 else 0)
    && (forall i, p: nat :: 0 <= i < |ks| && ks[i].cpuset.Holds(p) ==> ClassOf(ks[i], regs, p))
  }

  lemma AlikeAppend(regs: seq<Registration>, r: Registration, p: nat, q: nat)
    ensures Alike(regs + [r], p, q) <==> Alike(regs, p, q) && (Covers(r, p) <==> Covers(r, q))
    ensures Covered(regs + [r], p) <==> Covered(regs, p) || Covers(r, p)
    ensures InfosOf(regs + [r], p) == InfosOf(regs, p) + if Covers(r, p) then InfoSet(r.details.infos) else {}
    ensures ForcedOf(regs + [r], p) == if !Covers(r, p) then ForcedOf(regs, p)
                                       else ForcedInside(ForcedOf(regs, p), Whole(regs, r, p), r.details)
  {
    var all := regs + [r];
    assert all[..|regs|] == regs && all[|regs|] == r;
    assert forall i :: 0 <= i < |regs| ==> all[i] == regs[i];
    if Covered(regs, p) {
      var i :| 0 <= i < |regs| && Covers(regs[i], p);
      assert Covers(all[i], p);
    }
    if Covers(r, p) {
      assert Covers(all[|regs|], p);
    }
  }

  /** A class is registered as a whole when nothing in it is told apart. */
  lemma WholeIs(k: Kind, regs: seq<Registration>, r: Registration, p: nat)
    requires ClassOf(k, regs, p)
    ensures k.cpuset.Pus() <= r.cpuset.Pus() <==> Whole(regs, r, p)
  {
    if k.cpuset.Pus() <= r.cpuset.Pus() {
      forall q: nat | Alike(regs, p, q) ensures Covers(r, q) {
        assert k.cpuset.Holds(q);
        assert q in k.cpuset.Pus();
      }
    }
    if Whole(regs, r, p) {
      forall q: nat | q in k.cpuset.Pus() ensures q in r.cpuset.Pus() {
        assert Alike(regs, p, q);
        assert Covers(r, q);
      }
    }
  }

  /** A piece of a class is a class of the registrations with one more. */
  lemma PieceClass(e: Kind, k: Kind, regs: seq<Registration>, c: Cpuset, d: Details, p: nat)
    requires Piece(e, k, c, d) && e.cpuset.Holds(p) && ClassOf(k, regs, p)
    ensures ClassOf(e, regs + [Registration(c, d)], p)
  {
    var r := Registration(c, d);
    assert p in e.cpuset.Pus();
    forall q: nat ensures e.cpuset.Holds(q) <==> Alike(regs + [r], p, q) {
      AlikeAppend(regs, r, p, q);
      assert q in e.cpuset.Pus() <==> e.cpuset.Holds(q);
      assert q in k.cpuset.Pus() <==> Alike(regs, p, q);
      assert Alike(regs, p, p);
    }
    AlikeAppend(regs, r, p, p);
    WholeIs(k, regs, r, p);
  }

  /** PUs that only the new registration covers. */
  lemma FreshClass(e: Kind, regs: seq<Registration>, c: Cpuset, d: Details, p: nat)
    requires forall q: nat :: e.cpuset.Holds(q) <==> c.Holds(q) && !Covered(regs, q)
    requires InfoSet(e.infos) == InfoSet(d.infos) && e.forced == d.forced && e.cpuset.Holds(p)
    ensures ClassOf(e, regs + [Registration(c, d)], p)
  {
    var r := Registration(c, d);
    forall q: nat ensures e.cpuset.Holds(q) <==> Alike(regs + [r], p, q) {
      AlikeAppend(regs, r, p, q);
      if Covered(regs, q) {
        var i :| 0 <= i < |regs| && Covers(regs[i], q);
        assert !Covers(regs[i], p);
      }
    }
    AlikeAppend(regs, r, p, p);
    UncoveredInfos(regs, p);
  }

  lemma {:induction false} UncoveredInfos(regs: seq<Registration>, p: nat)
    requires !Covered(regs, p)
    ensures InfosOf(regs, p) == {} && ForcedOf(regs, p) == UNKNOWN
  {
    if regs != [] {
      var front := regs[..|regs| - 1];
      assert !Covers(regs[|regs| - 1], p);
      assert forall i :: 0 <= i < |front| ==> front[i] == regs[i];
      UncoveredInfos(front, p);
    }
  }

  lemma AtomsExclusive(ks: seq<Kind>, regs: seq<Registration>)
    requires Atoms(ks, regs)
    ensures Exclusive(ks)
  {
  }

  /** A registration refines the partition by its cpuset and keeps the kinds the atoms. */
  lemma RegistrationKeepsAtoms(ks: seq<Kind>, regs: seq<Registration>, c: Cpuset, d: Details)
    requires Atoms(ks, regs)
    ensures Atoms(Registered(ks, c, d), regs + [Registration(c, d)])
  {
    var (kept, added, rest) := Sweep(ks, c, d);
    var all, r := Registered(ks, c, d), Registration(c, d);
    AtomsExclusive(ks, regs);
    SweepPieces(ks, c, d);
    forall p: nat ensures rest.Holds(p) <==> c.Holds(p) && !Covered(regs, p) {
      SweepCount(ks, c, d, p);
    }
    forall p: nat ensures Count(all, p) == if Covered(regs + [r], p) then 1 else 0 {
      RegisteredCount(ks, regs, c, d, p);
    }
    forall i | 0 <= i < |all|
      ensures Sound(all[i]) && forall p: nat :: all[i].cpuset.Holds(p) ==> ClassOf(all[i], regs + [r], p)
    {
      if i < |kept| + |added| {
        assert PieceOfOne(if i < |kept| then kept[i] else added[i - |kept|], ks, c, d);
        PieceInAtoms(all[i], ks, regs, c, d);
      } else {
        FreshInAtoms(all[i], regs, c, d);
      }
    }
  }

  lemma RegisteredCount(ks: seq<Kind>, regs: seq<Registration>, c: Cpuset, d: Details, p: nat)
    requires Atoms(ks, regs)
    ensures Count(Registered(ks, c, d), p) == if Covered(regs + [Registration(c, d)], p) then 1 else 0
  {
    hide Sweep;
    var (kept, added, rest) := Sweep(ks, c, d);
    var last := if rest.IsZero() then [] else [Kind(rest, AddInfos([], d.infos), d.forced, UNKNOWN, 0)];
    SweepCount(ks, c, d, p);
    CountConcat(kept + added, last, p);
    AlikeAppend(regs, Registration(c, d), p, p);
    if rest.IsZero() {
      assert p !in rest.Pus();
    } else {
      assert last[1..] == [];
    }
  }

  lemma PieceInAtoms(e: Kind, ks: seq<Kind>, regs: seq<Registration>, c: Cpuset, d: Details)
    requires Atoms(ks, regs) && PieceOfOne(e, ks, c, d)
    ensures Sound(e) && forall p: nat :: e.cpuset.Holds(p) ==> ClassOf(e, regs + [Registration(c, d)], p)
  {
    var j :| 0 <= j < |ks| && Piece(e, ks[j], c, d);
    forall p: nat | e.cpuset.Holds(p) ensures ClassOf(e, regs + [Registration(c, d)], p) {
      assert p in e.cpuset.Pus();
      assert p in ks[j].cpuset.Pus();
      PieceClass(e, ks[j], regs, c, d, p);
    }
  }

  lemma FreshInAtoms(e: Kind, regs: seq<Registration>, c: Cpuset, d: Details)
    requires !e.cpuset.IsZero() && e.infos == AddInfos([], d.infos) && e.forced == d.forced
    requires forall p: nat :: e.cpuset.Holds(p) <==> c.Holds(p) && !Covered(regs, p)
    ensures Sound(e) && forall p: nat :: e.cpuset.Holds(p) ==> ClassOf(e, regs + [Registration(c, d)], p)
  {
    AddInfosIsUnion([], d.infos);
    assert InfoSet(e.infos) == InfoSet(d.infos);
    forall p: nat | e.cpuset.Holds(p) ensures ClassOf(e, regs + [Registration(c, d)], p) {
      FreshClass(e, regs, c, d, p);
    }
  }

  // Ranking

  /** A kind without what ranking sets. */
  function Neutral(k: Kind): Kind {
    k.(efficiency := 0, ranking := 0)
  }

  function Neutrals(ks: seq<Kind>): (r: seq<Kind>)
    ensures |r| == |ks| && forall i :: 0 <= i < |ks| ==> r[i] == Neutral(ks[i])
  {
    seq(|ks|, i requires 0 <= i < |ks| => Neutral(ks[i]))
  }

  /** Ranking gives rankings and efficiencies and sorts; it changes nothing else. */
  ghost predicate Reranked(ks: seq<Kind>, ks': seq<Kind>) {
    multiset(Neutrals(ks)) == multiset(Neutrals(ks'))
  }

  lemma {:induction false} CountNeutral(ks: seq<Kind>, p: nat)
    ensures Count(Neutrals(ks), p) == Count(ks, p)
  {
    if ks != [] {
      assert Neutrals(ks)[1..] == Neutrals(ks[1..]);
      CountNeutral(ks[1..], p);
    }
  }

  lemma {:induction false} CountPermuted(a: seq<Kind>, b: seq<Kind>, p: nat)
    requires multiset(a) == multiset(b)
    ensures Count(a, p) == Count(b, p)
    decreases |a|
  {
    SameLength(a, b);
    if a != [] {
      var j := MatchFirst(a, b);
      CountPermuted(a[1..], Without(b, j), p);
      CountConcat(b[..j], b[j + 1..], p);
      CountConcat(b[..j], [b[j]] + b[j + 1..], p);
      assert b == b[..j] + ([b[j]] + b[j + 1..]);
      assert ([b[j]] + b[j + 1..])[1..] == b[j + 1..];
    }
  }

  lemma RankingKeepsAtoms(ks: seq<Kind>, ks': seq<Kind>, regs: seq<Registration>)
    requires Atoms(ks, regs) && Reranked(ks, ks')
    ensures Atoms(ks', regs)
  {
    forall p: nat ensures Count(ks', p) == Count(ks, p) {
      CountNeutral(ks, p);
      CountNeutral(ks', p);
      CountPermuted(Neutrals(ks), Neutrals(ks'), p);
    }
    forall i | 0 <= i < |ks'|
      ensures Sound(ks'[i]) && forall p: nat :: ks'[i].cpuset.Holds(p) ==> ClassOf(ks'[i], regs, p)
    {
      assert Neutrals(ks')[i] in multiset(Neutrals(ks));
      var j :| 0 <= j < |ks| && Neutrals(ks)[j] == Neutrals(ks')[i];
      assert Sound(ks[j]) && ks[j].cpuset == ks'[i].cpuset && ks[j].infos == ks'[i].infos;
      forall p: nat | ks'[i].cpuset.Holds(p) ensures ClassOf(ks'[i], regs, p) {
        assert ClassOf(ks[j], regs, p);
      }
    }
  }

  // Runs

  /** One event in the life of the kinds: a registration that is accepted, or a ranking. */
  datatype Event = Registers(cpuset: Cpuset, details: Details) | Ranks

  ghost predicate Step(ks: seq<Kind>, e: Event, ks': seq<Kind>) {
    match e
    case Registers(c, d) => !c.IsZero() && ks' == Registered(ks, c, d)
    case Ranks => Reranked(ks, ks')
  }

  function RegistrationsOf(events: seq<Event>): seq<Registration> {
    if events == [] then []
    else
      var front, e := RegistrationsOf(events[..|events| - 1]), events[|events| - 1];
      if e.Registers? then front + [Registration(e.cpuset, e.details)] else front
  }

  /** The kinds after each of some events, from no kinds at all. */
  ghost predicate Run(events: seq<Event>, states: seq<seq<Kind>>) {
    && |states| == |events| + 1 && states[0] == []
    && forall i :: 0 <= i < |events| ==> Step(states[i], events[i], states[i + 1])
  }

  /** After any run of registrations and rankings the kinds are the atoms of what was registered. */
  lemma {:induction false} KindsAreAtoms(events: seq<Event>, states: seq<seq<Kind>>)
    requires Run(events, states)
    ensures Atoms(states[|events|], RegistrationsOf(events))
  {
    if events != [] {
      var n := |events| - 1;
      KindsAreAtoms(events[..n], states[..n + 1]);
      assert Step(states[n], events[n], states[n + 1]);
      if events[n].Registers? {
        RegistrationKeepsAtoms(states[n], RegistrationsOf(events[..n]), events[n].cpuset, events[n].details);
      } else {
        RankingKeepsAtoms(states[n], states[n + 1], RegistrationsOf(events[..n]));
      }
    }
  }

  /** What being the atoms means: kinds are disjoint, they cover what was registered, and two PUs
      share a kind exactly when they are covered and no registration tells them apart. */
  lemma AtomsPartition(ks: seq<Kind>, regs: seq<Registration>)
    requires Atoms(ks, regs)
    ensures forall i, j :: 0 <= i < j < |ks| ==> ks[i].cpuset.Pus() !! ks[j].cpuset.Pus()
    ensures forall p: nat, q: nat ::
              (exists i :: 0 <= i < |ks| && ks[i].cpuset.Holds(p) && ks[i].cpuset.Holds(q)) <==>
                Covered(regs, p) && Alike(regs, p, q)
  {
    forall i, j | 0 <= i < j < |ks| ensures ks[i].cpuset.Pus() !! ks[j].cpuset.Pus() {
      forall p: nat | ks[i].cpuset.Holds(p) ensures !ks[j].cpuset.Holds(p) {
        CountHolder(ks, i, p);
        assert Count(ks, p) == if Covered(regs, p) then 1 else 0;
      }
    }
    forall p: nat, q: nat
      ensures (exists i :: 0 <= i < |ks| && ks[i].cpuset.Holds(p) && ks[i].cpuset.Holds(q)) <==>
        Covered(regs, p) && Alike(regs, p, q)
    {
      SharedKind(ks, regs, p, q);
    }
  }

  lemma SharedKind(ks: seq<Kind>, regs: seq<Registration>, p: nat, q: nat)
    requires Atoms(ks, regs)
    ensures (exists i :: 0 <= i < |ks| && ks[i].cpuset.Holds(p) && ks[i].cpuset.Holds(q)) <==>
      Covered(regs, p) && Alike(regs, p, q)
  {
    assert Count(ks, p) == if Covered(regs, p) then 1 else 0;
    if i :| 0 <= i < |ks| && ks[i].cpuset.Holds(p) && ks[i].cpuset.Holds(q) {
      CountHolder(ks, i, p);
      assert ClassOf(ks[i], regs, p);
    }
    if Covered(regs, p) && Alike(regs, p, q) {
      var i := HolderExists(ks, p);
      assert ClassOf(ks[i], regs, p);
    }
  }
}

/** The array of kinds of a topology, as registering and ranking change it. */
module CpuKindsTable {
  import opened CpuKinds
  import opened CpuKindsAtoms
  import opened Infos
  import opened Permutations

  const OVERWRITE_FORCED_EFFICIENCY := 1
  const CLEARED := Kind(Cpuset({}, false), [], 0, 0, 0)

  /** hwloc_flsl: the position of the highest set bit, counting from 1; 0 for 0. */
  function Flsl(n: nat): nat {
    if n == 0 then 0 else 1 + Flsl(n / 2)
  }

  function PowerOfTwo(bits: nat): nat {
    if bits == 0 then 1 else 2 * PowerOfTwo(bits - 1)
  }

  lemma {:induction false} FlslBounds(n: nat)
    ensures n < PowerOfTwo(Flsl(n))
  {
    if n > 0 {
      FlslBounds(n / 2);
    }
  }

  /** How many slots registering asks for with nr kinds in place. */
  function Wanted(nr: nat): (max: nat)
    ensures max >= 2 * nr + 1
  {
    FlslBounds(2 * nr);
    var max := PowerOfTwo(Flsl(2 * nr) + 1);
    if max < 8 then 8 else max
  }

  /** hwloc__cpukind_check_duplicate_info */
  method CheckDuplicate(infos: seq<Info>, info: Info) returns (found: bool)
    ensures found <==> info in infos
  {
    for i := 0 to |infos|
      invariant info !in infos[..i]
    {
      if infos[i].name == info.name && infos[i].value == info.value {
        return true;
      }
    }
    assert infos[..|infos|] == infos;
    found := false;
  }

  /** hwloc__cpukind_add_infos */
  method AppendInfos(infos: seq<Info>, more: seq<Info>) returns (r: seq<Info>)
    ensures r == AddInfos(infos, more)
  {
    r := infos;
    for i := 0 to |more|
      invariant AddInfos(r, more[i..]) == AddInfos(infos, more)
    {
      assert more[i..][1..] == more[i + 1..];
      var known := CheckDuplicate(r, more[i]);
      if !known {
        r := r + [more[i]];
      }
    }
  }

  class Table {
    var kinds: array<Kind>  // kinds.Length is nr_cpukinds_allocated
    var nr: nat

    /** Slots behind the kinds are cleared: registering appends to what it finds there. */
    ghost predicate Valid()
      reads this, kinds
    {
      nr <= kinds.Length && forall i :: nr <= i < kinds.Length ==> kinds[i] == CLEARED
    }

    ghost function Contents(): seq<Kind>
      requires Valid()
      reads this, kinds
    {
      kinds[..nr]
    }

    constructor ()
      ensures Valid() && fresh(kinds) && Contents() == []
    {
      kinds := new Kind[0];
      nr := 0;
    }

    method Enlarge()
      requires Valid()
      modifies `kinds
      ensures Valid() && Contents() == old(Contents())
      ensures kinds.Length >= 2 * nr + 1 && (kinds == old(kinds) || fresh(kinds))
    {
      var max := Wanted(nr);
      if max > kinds.Length {
        var grown := new Kind[max](_ => CLEARED);
        for i := 0 to kinds.Length
          invariant kinds == old(kinds) && kinds[..] == old(kinds[..])
          invariant forall k :: 0 <= k < i ==> grown[k] == kinds[k]
          invariant forall k :: i <= k < max ==> grown[k] == CLEARED
        {
          grown[i] := kinds[i];
        }
        kinds := grown;
        assert kinds[..nr] == old(kinds[..nr]);
      }
    }

    /** The body of the loop of registering, for the kind at index i. */
    method VisitSlot(i: nat, newnr: nat, c: Cpuset, d: Details) returns (newnr': nat, c': Cpuset)
      requires i < newnr < kinds.Length && kinds[newnr].infos == []
      modifies kinds
      ensures var (k, added, rest) := Visit(old(kinds[i]), c, d);
              && kinds[i] == k && c' == rest && newnr' == newnr + |added|
              && (added != [] ==> |added| == 1 && kinds[newnr] == added[0])
              && forall s :: 0 <= s < kinds.Length && s != i && (s < newnr || newnr' <= s) ==> kinds[s] == old(kinds[s])
    {
      newnr', c' := newnr, c;
      var res := c.Compare(kinds[i].cpuset);
      if res.Intersects? || res.Included? {
        var inside := c.And(kinds[i].cpuset);
        var infos := AppendInfos(kinds[newnr].infos, kinds[i].infos);
        infos := AppendInfos(infos, d.infos);
        kinds[newnr] := Kind(inside, infos, d.forced, UNKNOWN, 0);
        kinds[i] := kinds[i].(cpuset := kinds[i].cpuset.AndNot(inside));
        c' := c.AndNot(inside);
        newnr' := newnr + 1;
      } else if res.Contains? || res.Equal? {
        var infos := AppendInfos(kinds[i].infos, d.infos);
        kinds[i] := kinds[i].(infos := infos);
        if d.overwrite || kinds[i].forced == UNKNOWN {
          kinds[i] := kinds[i].(forced := d.forced);
        }
        c' := c.AndNot(kinds[i].cpuset);
      }
    }

    /** hwloc__cpukinds_finalize_ranking, given what qsort makes of the kinds. */
    method FinalizeRanking(sorted: seq<Kind>)
      requires Valid() && multiset(sorted) == multiset(Contents())
      requires forall i, j :: 0 <= i < j < |sorted| ==> sorted[i].ranking <= sorted[j].ranking
      modifies kinds
      ensures Valid() && nr == |sorted| && Reranked(old(Contents()), Contents())
      ensures forall i :: 0 <= i < nr ==> kinds[i] == sorted[i].(efficiency := i)
    {
      assert nr == |Contents()| == |multiset(Contents())| == |sorted|;
      for i := 0 to nr
        invariant forall s :: 0 <= s < i ==> kinds[s] == sorted[s].(efficiency := s)
        invariant forall s :: nr <= s < kinds.Length ==> kinds[s] == CLEARED
      {
        kinds[i] := sorted[i].(efficiency := i);
      }
      assert Neutrals(Contents()) == Neutrals(sorted);
      NeutralsPermuted(old(Contents()), sorted);
    }

    /** The loop of registering over the kinds that are there. */
    method SweepSlots(cpuset: Cpuset, d: Details) returns (newnr: nat, c: Cpuset)
      requires Valid() && kinds.Length >= 2 * nr + 1
      modifies kinds
      ensures var (kept, added, rest) := Sweep(old(Contents()), cpuset, d);
              && c == rest && newnr == nr + |added| && newnr < kinds.Length
              && (forall s :: 0 <= s < nr ==> kinds[s] == kept[s])
              && (forall s :: nr <= s < newnr ==> kinds[s] == added[s - nr])
              && (forall s :: newnr <= s < kinds.Length ==> kinds[s] == CLEARED)
    {
      hide Sweep, Sweeping, Visit;
      ghost var ks := Contents();
      c, newnr := cpuset, nr;
      var i: nat := 0;
      ghost var kept: seq<Kind>, added: seq<Kind> := [], [];
      SweepStart(ks, cpuset, d);
      while i < nr && !c.IsZero()
        invariant i <= nr <= newnr <= nr + i
        invariant |kept| == i && |added| == newnr - nr
        invariant forall s :: 0 <= s < i ==> kinds[s] == kept[s]
        invariant forall s :: i <= s < nr ==> kinds[s] == ks[s]
        invariant forall s :: nr <= s < newnr ==> kinds[s] == added[s - nr]
        invariant forall s :: newnr <= s < kinds.Length ==> kinds[s] == CLEARED
        invariant Sweeping(ks, i, c, d, cpuset, kept, added)
      {
        ghost var step := Visit(ks[i], c, d);
        SweepStep(ks, i, c, d, cpuset, kept, added);
        newnr, c := VisitSlot(i, newnr, c, d);
        kept, added := kept + [step.0], added + step.1;
        i := i + 1;
      }
      SweepEnd(ks, i, c, d, cpuset, kept, added);
    }

    /** hwloc_internal_cpukinds_register */
    method Register(cpuset: Cpuset, infos: seq<Info>, forced: int, flags: nat) returns (r: int)
      requires Valid()
      modifies this, kinds
      ensures Valid() && (kinds == old(kinds) || fresh(kinds))
      ensures r == if cpuset.IsZero() || flags > OVERWRITE_FORCED_EFFICIENCY then -1 else 0
      ensures Contents() == if r < 0 then old(Contents())
                            else Registered(old(Contents()),
                              cpuset, Details(infos, forced, flags == OVERWRITE_FORCED_EFFICIENCY))
    {
      if cpuset.IsZero() || flags > OVERWRITE_FORCED_EFFICIENCY {
        return -1;
      }
      hide Registered;
      RegisterKinds(cpuset, Details(infos, forced, flags == OVERWRITE_FORCED_EFFICIENCY));
      r := 0;
    }

    method RegisterKinds(cpuset: Cpuset, d: Details)
      requires Valid()
      modifies this, kinds
      ensures Valid() && (kinds == old(kinds) || fresh(kinds))
      ensures Contents() == Registered(old(Contents()), cpuset, d)
    {
      hide Sweep, AddInfos;
      ghost var ks := Contents();
      Enlarge();
      var newnr, c := SweepSlots(cpuset, d);
      assert kinds[..newnr] == Sweep(ks, cpuset, d).0 + Sweep(ks, cpuset, d).1;
      AddRest(newnr, c, d);
    }

    /** A final kind with the PUs that remain, if any. */
    method AddRest(newnr: nat, c: Cpuset, d: Details)
      requires newnr < kinds.Length && nr <= newnr
      requires forall s :: newnr <= s < kinds.Length ==> kinds[s] == CLEARED
      modifies `nr, kinds
      ensures Valid()
      ensures Contents() == old(kinds[..newnr]) + if c.IsZero() then []
        else [Kind(c, AddInfos([], d.infos), d.forced, UNKNOWN, 0)]
    {
      nr := newnr;
      if !c.IsZero() {
        var infos := AppendInfos(kinds[newnr].infos, d.infos);
        kinds[newnr] := Kind(c, infos, d.forced, UNKNOWN, 0);
        nr := nr + 1;
      }
    }
  }

  /** Where a sweep stands after i kinds. */
  ghost predicate Sweeping(ks: seq<Kind>, i: nat, c: Cpuset,
      d: Details, cpuset: Cpuset, kept: seq<Kind>, added: seq<Kind>)
    requires i <= |ks|
  {
    var (k, m, rest) := Sweep(ks[i..], c, d);
    Sweep(ks, cpuset, d) == (kept + k, added + m, rest)
  }

  lemma SweepStart(ks: seq<Kind>, c: Cpuset, d: Details)
    ensures Sweeping(ks, 0, c, d, c, [], [])
  {
    hide Sweep;
    var (k, m, rest) := Sweep(ks, c, d);
    assert ks[0..] == ks && [] + k == k && [] + m == m;
  }

  lemma SweepStep(ks: seq<Kind>, i: nat, c: Cpuset, d: Details, cpuset: Cpuset, kept: seq<Kind>, added: seq<Kind>)
    requires i < |ks| && !c.IsZero() && Sweeping(ks, i, c, d, cpuset, kept, added)
    ensures var (k, more, c') := Visit(ks[i], c, d); Sweeping(ks, i + 1, c', d, cpuset, kept + [k], added + more)
  {
    hide Visit;
    var (k, more, c') := Visit(ks[i], c, d);
    var (k', m', rest) := Sweep(ks[i + 1..], c', d);
    assert ks[i..][0] == ks[i] && ks[i..][1..] == ks[i + 1..];
    assert (kept + [k]) + k' == kept + ([k] + k') && (added + more) + m' == added + (more + m');
  }

  lemma SweepEnd(ks: seq<Kind>, i: nat, c: Cpuset, d: Details, cpuset: Cpuset, kept: seq<Kind>, added: seq<Kind>)
    requires i <= |ks| && Sweeping(ks, i, c, d, cpuset, kept, added) && (i == |ks| || c.IsZero())
    ensures Sweep(ks, cpuset, d) == (kept + ks[i..], added, c)
  {
    assert added + [] == added;
  }

  lemma {:induction false} NeutralsPermuted(a: seq<Kind>, b: seq<Kind>)
    requires multiset(a) == multiset(b)
    ensures multiset(Neutrals(a)) == multiset(Neutrals(b))
    decreases |a|
  {
    SameLength(a, b);
    if a != [] {
      var j := MatchFirst(a, b);
      NeutralsPermuted(a[1..], Without(b, j));
      assert Neutrals(a)[1..] == Neutrals(a[1..]);
      assert Neutrals(Without(b, j)) == Without(Neutrals(b), j);
      WithoutElements(Neutrals(a), 0);
      WithoutElements(Neutrals(b), j);
      assert Without(Neutrals(a), 0) == Neutrals(a)[1..];
    }
  }
}

/** CPU kinds: the partition of processing units (PUs) that registered cpusets refine. */
module CpuKinds {
  import opened Arithmetic
  import opened Bitmaps
  import BitmapQueries
  import opened Infos

  const UNKNOWN := -1  // HWLOC_CPUKIND_EFFICIENCY_UNKNOWN

  /** A cpuset as the value of its bitmap: the listed PUs, or all but the listed ones. The
      operations below deliver what those of Bitmaps.Bitmap and BitmapQueries do. */
  datatype Cpuset = Cpuset(listed: set<nat>, infinite: bool) {
    predicate Holds(p: nat) {
      (p in listed) != infinite
    }

    ghost function Pus(): iset<nat> {
      iset p: nat | Holds(p)
    }

    function And(b: Cpuset): (r: Cpuset)
      ensures forall p: nat :: r.Holds(p) <==> Holds(p) && b.Holds(p)
    {
      if infinite then if b.infinite then Cpuset(listed + b.listed, true) else Cpuset(b.listed - listed, false)
      else if b.infinite then Cpuset(listed - b.listed, false)
      else Cpuset(listed * b.listed, false)
    }

    function AndNot(b: Cpuset): (r: Cpuset)
      ensures forall p: nat :: r.Holds(p) <==> Holds(p) && !b.Holds(p)
    {
      And(Cpuset(b.listed, !b.infinite))
    }

    predicate IsZero()
      ensures IsZero() <==> Pus() == iset{}
    {
      assert infinite ==> Bound(listed) in Pus();
      assert !infinite ==> forall p: nat :: p in Pus() <==> p in listed;
      !infinite && listed == {}
    }

    lemma SetsOf(b: Cpuset)
      ensures And(b).Pus() == Pus() * b.Pus() && AndNot(b).Pus() == Pus() - b.Pus()
    {
    }

    function Compare(b: Cpuset): (r: Inclusion)
      ensures r == Relation(Pus(), b.Pus())
    {
      SetsOf(b);
      b.SetsOf(this);
      var extra1, extra2, shared := !AndNot(b).IsZero(), !b.AndNot(this).IsZero(), !And(b).IsZero();
      assert extra1 <==> !(Pus() <= b.Pus());
      assert extra2 <==> !(b.Pus() <= Pus());
      assert shared <==> !(Pus() !! b.Pus());
      BitmapQueries.Verdict(extra1, extra2, shared)
    }
  }

  /** A number above all numbers of a finite set. */
  ghost function Bound(s: set<nat>): (n: nat)
    ensures forall p :: p in s ==> p < n
  {
    if s == {} then 0
    else
      var q :| q in s;
      var n := Bound(s - {q});
      assert forall p :: p in s ==> p in s - {q} || p == q;
      if n > q then n else q + 1
  }

  datatype Kind = Kind(cpuset: Cpuset, infos: seq<Info>, forced: int, efficiency: int, ranking: nat)

  /** hwloc__cpukind_add_infos: append what is not there yet. */
  function AddInfos(infos: seq<Info>, more: seq<Info>): seq<Info>
    decreases |more|
  {
    if more == [] then infos
    else AddInfos(if more[0] in infos then infos else infos + [more[0]], more[1..])
  }

  ghost function InfoSet(infos: seq<Info>): set<Info> {
    set x | x in infos
  }

  lemma {:induction false} AddInfosIsUnion(infos: seq<Info>, more: seq<Info>)
    ensures InfoSet(AddInfos(infos, more)) == InfoSet(infos) + InfoSet(more)
    ensures Distinct(infos) ==> Distinct(AddInfos(infos, more))
    decreases |more|
  {
    if more != [] {
      var infos' := if more[0] in infos then infos else infos + [more[0]];
      AddInfosIsUnion(infos', more[1..]);
      assert InfoSet(infos') == InfoSet(infos) + {more[0]};
      assert InfoSet(more) == {more[0]} + InfoSet(more[1..]);
    }
  }

  /** The arguments of a registration besides its cpuset. */
  datatype Details = Details(infos: seq<Info>, forced: int, overwrite: bool)

  /** The body of the loop of hwloc_internal_cpukinds_register for one kind: the kind as it stays,
      the kinds to put behind all others, and the PUs that remain. */
  function Visit(k: Kind, c: Cpuset, d: Details): (r: (Kind, seq<Kind>, Cpuset)) {
    match c.Compare(k.cpuset)
    case Intersects => Split(k, c, d)
    case Included => Split(k, c, d)
    case Different => (k, [], c)
    case _ =>
      var forced := if d.overwrite || k.forced == UNKNOWN then d.forced else k.forced;
      (k.(infos := AddInfos(k.infos, d.infos), forced := forced), [], c.AndNot(k.cpuset))
  }

  function Split(k: Kind, c: Cpuset, d: Details): (r: (Kind, seq<Kind>, Cpuset)) {
    var inside := c.And(k.cpuset);
    (k.(cpuset := k.cpuset.AndNot(inside)),
     [Kind(inside, AddInfos(AddInfos([], k.infos), d.infos), d.forced, UNKNOWN, 0)],
     c.AndNot(inside))
  }

  /** The loop: it stops as soon as no PU remains. */
  function Sweep(ks: seq<Kind>, c: Cpuset, d: Details): (r: (seq<Kind>, seq<Kind>, Cpuset))
    ensures |r.0| == |ks| && |r.1| <= |ks|
  {
    if ks == [] || c.IsZero() then (ks, [], c)
    else
      var (k, added, c') := Visit(ks[0], c, d);
      var (kept, more, rest) := Sweep(ks[1..], c', d);
      ([k] + kept, added + more, rest)
  }

  /** All kinds behind a registration. */
  function Registered(ks: seq<Kind>, c: Cpuset, d: Details): (r: seq<Kind>)
    ensures |r| <= 2 * |ks| + 1
  {
    var (kept, added, rest) := Sweep(ks, c, d);
    kept + added + if rest.IsZero() then [] else [Kind(rest, AddInfos([], d.infos), d.forced, UNKNOWN, 0)]
  }
}

/** Diffs keep the memory totals right, and when a failed diff does not restore the objects. */
module DiffTotals {
  import opened Diffs
  import opened Options

  ghost function LocalSum<O>(s: Objects<O>, xs: set<O>): nat
    requires xs <= s.Keys
  {
    if xs == {} then 0 else var x :| x in xs; s[x].local + LocalSum(s, xs - {x})
  }

  lemma {:induction false} TakeOut<O>(s: Objects<O>, xs: set<O>, x: O)
    requires xs <= s.Keys && x in xs
    ensures LocalSum(s, xs) == s[x].local + LocalSum(s, xs - {x})
    decreases xs
  {
    var y :| y in xs && LocalSum(s, xs) == s[y].local + LocalSum(s, xs - {y});
    if x != y {
      TakeOut(s, xs - {y}, x);
      TakeOut(s, xs - {x}, y);
      assert xs - {x} - {y} == xs - {y} - {x};
    }
  }

  lemma {:induction false} SameLocals<O>(s: Objects<O>, s': Objects<O>, xs: set<O>)
    requires xs <= s.Keys && xs <= s'.Keys && forall x :: x in xs ==> s[x].local == s'[x].local
    ensures LocalSum(s, xs) == LocalSum(s', xs)
    decreases xs
  {
    if xs != {} {
      var x :| x in xs;
      TakeOut(s, xs, x);
      TakeOut(s', xs, x);
      SameLocals(s, s', xs - {x});
    }
  }

  lemma LocalChanges<O>(s: Objects<O>, s': Objects<O>, xs: set<O>, o: O)
    requires xs <= s.Keys && xs <= s'.Keys && o in xs && forall x :: x in xs && x != o ==> s[x].local == s'[x].local
    ensures LocalSum(s', xs) - s'[o].local == LocalSum(s, xs) - s[o].local
  {
    TakeOut(s, xs, o);
    TakeOut(s', xs, o);
    SameLocals(s, s', xs - {o});
  }

  /** The NUMA nodes that are an object or are in it. */
  function Below<O>(sh: Shape<O>, s: Objects<O>, o: O): set<O>
    requires sh.above.Keys == s.Keys
  {
    set x | x in s && s[x].numa && o in sh.above[x]
  }

  /** Every object's total is the memory of the nodes in it, modulo 2^64. */
  ghost predicate Summed<O>(sh: Shape<O>, s: Objects<O>)
    requires sh.above.Keys == s.Keys
  {
    forall o :: o in s ==> s[o].total == LocalSum(s, Below(sh, s, o)) % WIDTH
  }

  lemma ModOnce(n: nat, a: nat, b: nat)
    requires n + b >= a
    ensures Shift(n % WIDTH, a, b) == (n + b - a) % WIDTH
  {
    ModShift(n + b - a, -(n / WIDTH));
  }

  lemma ResizeKeepsSum<O>(sh: Shape<O>, s: Objects<O>, o: O, to: nat, x: O)
    requires Fits(sh, s) && o in s && s[o].numa && x in s && s[x].total == LocalSum(s, Below(sh, s, x)) % WIDTH
    ensures var s' := Resized(sh, s, o, s[o].local, to); s'[x].total == LocalSum(s', Below(sh, s', x)) % WIDTH
  {
    hide LocalSum, Shift;
    var s' := Resized(sh, s, o, s[o].local, to);
    var nodes := Below(sh, s, x);
    assert nodes == Below(sh, s', x);
    if o in nodes {
      LocalChanges(s, s', nodes, o);
      LocalInSum(s, nodes, o);
      ModOnce(LocalSum(s, nodes), s[o].local, to);
    } else {
      SameLocals(s, s', nodes);
    }
  }

  lemma LocalInSum<O>(s: Objects<O>, xs: set<O>, x: O)
    requires xs <= s.Keys && x in xs
    ensures LocalSum(s, xs) >= s[x].local
  {
    TakeOut(s, xs, x);
  }

  lemma ResizeKeepsSums<O>(sh: Shape<O>, s: Objects<O>, o: O, to: nat)
    requires Fits(sh, s) && Summed(sh, s) && o in s && s[o].numa
    ensures Summed(sh, Resized(sh, s, o, s[o].local, to))
  {
    hide LocalSum, Shift, Below;
    forall x | x in s {
      ResizeKeepsSum(sh, s, o, to, x);
    }
  }

  lemma TextKeepsSums<O>(sh: Shape<O>, s: Objects<O>, o: O, a: Attrs)
    requires sh.above.Keys == s.Keys && Summed(sh, s) && o in s
    requires a.numa == s[o].numa && a.local == s[o].local && a.total == s[o].total
    ensures Summed(sh, s[o := a])
  {
    var s' := s[o := a];
    forall x | x in s ensures s'[x].total == LocalSum(s', Below(sh, s', x)) % WIDTH {
      assert Below(sh, s, x) == Below(sh, s', x);
      SameLocals(s, s', Below(sh, s, x));
    }
  }

  lemma StepKeepsSums<O>(sh: Shape<O>, s: Objects<O>, d: Entry, reverse: bool)
    requires Fits(sh, s) && Summed(sh, s) && Sized(d)
    ensures var s' := ApplyOne(sh, s, d, reverse); s'.Some? ==> Fits(sh, s'.value) && Summed(sh, s'.value)
  {
    hide Summed, Resized;
    var e := if reverse then Swapped(d) else d;
    if Forward(sh, s, e).Some? {
      ForwardFits(sh, s, e);
      var o := sh.places[d.place];
      match e
      case Size(_, _, to) => ResizeKeepsSums(sh, s, o, to);
      case Name(_, _, to) => TextKeepsSums(sh, s, o, s[o].(name := Some(to)));
      case InfoValue(_, name, was, to) => TextKeepsSums(sh, s,
        o, s[o].(infos := ReplaceInfo(s[o].infos, name, was, to).value));
    }
  }

  lemma {:induction false} ManyKeepSums<O>(sh: Shape<O>, s: Objects<O>, ds: seq<Entry>, reverse: bool)
    requires Fits(sh, s) && Summed(sh, s) && AllSized(ds)
    ensures var s' := ApplyMany(sh, s, ds, reverse).0; Fits(sh, s') && Summed(sh, s')
  {
    if ds != [] {
      hide Fits, Summed, ApplyOne, Sized;
      var n := |ds| - 1;
      FitsKeys(sh, s);
      ManyKeepSums(sh, s, ds[..n], reverse);
      StepKeepsSums(sh, ApplyMany(sh, s, ds[..n], reverse).0, ds[n], reverse);
    }
  }

  lemma FitsKeys<O>(sh: Shape<O>, s: Objects<O>)
    requires Fits(sh, s)
    ensures sh.above.Keys == s.Keys
  {
  }

  lemma {:induction false} LooseKeepsSums<O>(sh: Shape<O>, s: Objects<O>, ds: seq<Entry>, reverse: bool)
    requires Fits(sh, s) && Summed(sh, s) && AllSized(ds)
    ensures var s' := ApplyLoose(sh, s, ds, reverse); Fits(sh, s') && Summed(sh, s')
  {
    if ds != [] {
      hide Fits, Summed, ApplyOne, Sized;
      var n := |ds| - 1;
      FitsKeys(sh, s);
      LooseKeepsSums(sh, s, ds[..n], reverse);
      StepKeepsSums(sh, ApplyLoose(sh, s, ds[..n], reverse), ds[n], reverse);
    }
  }

  /** Whether it is applied or fails, whatever attributes it names, a diff keeps the totals. */
  lemma TotalsStayRight<O>(sh: Shape<O>, s: Objects<O>, ds: seq<Entry>, reverse: bool)
    requires Fits(sh, s) && Summed(sh, s) && AllSized(ds)
    ensures var s' := Applied(sh, s, ds, reverse).0; Fits(sh, s') && Summed(sh, s')
  {
    hide Fits, Summed, ApplyOne, Sized;
    FitsKeys(sh, s);
    ManyKeepSums(sh, s, ds, reverse);
    var (s', k) := ApplyMany(sh, s, ds, reverse);
    LooseKeepsSums(sh, s', ds[..k], !reverse);
  }

  /** Two entries about one name, and one that fails: the name ends up as the first one made it. */
  lemma RepeatedAttributeIsNotRestored()
    ensures
      var place: Place := (0, 0);
      var (sh, s) := (Shape(map[place := 0], map[0 := {0}]), map[0 := Attrs(false, 0, 0, Some("a"), [])]);
      var ds := [Name(place, "a", "b"), Name(place, "b", "c"), TooComplex(place)];
      Ready(sh, s) && Applied(sh, s, ds, false) == (s[0 := s[0].(name := Some("b"))], -3)
  {
    var place: Place := (0, 0);
    var (sh, s) := (Shape(map[place := 0], map[0 := {0}]), map[0 := Attrs(false, 0, 0, Some("a"), [])]);
    var a, b, c := Name(place, "a", "b"), Name(place, "b", "c"), TooComplex(place);
    var sb, sc := s[0 := s[0].(name := Some("b"))], s[0 := s[0].(name := Some("c"))];
    hide ApplyMany, ApplyLoose, Resized, ReplaceInfo;
    ManyOfNone(sh, s, sc);
    ManyStep(sh, s, [], a, false);
    assert sb[0 := sb[0].(name := Some("c"))] == sc;
    ManyStep(sh, s, [a], b, false);
    ManyStep(sh, s, [a, b], c, false);
    assert [a] + [b] == [a, b] && [a, b] + [c] == [a, b, c] && [] + [a] == [a];
    LooseStep(sh, sc, [], a, true);
    LooseStep(sh, sc, [a], b, true);
    assert sc[0 := sc[0].(name := Some("b"))] == sb;
    assert [a, b, c][..2] == [a, b];
  }

  lemma ManyOfNone<O>(sh: Shape<O>, s: Objects<O>, t: Objects<O>)
    ensures ApplyMany(sh, s, [], false) == (s, 0) && ApplyLoose(sh, t, [], true) == t
  {
  }

  lemma ManyStep<O>(sh: Shape<O>, s: Objects<O>, ds: seq<Entry>, d: Entry, reverse: bool)
    ensures
      var (s', k) := ApplyMany(sh, s, ds, reverse);
      var s'' := ApplyOne(sh, s', d, reverse);
      ApplyMany(sh, s, ds + [d], reverse) == if k < |ds| then (s', k)
        else if s''.Some? then (s''.value, |ds| + 1) else (s', |ds|)
  {
    assert (ds + [d])[..|ds|] == ds;
  }

  lemma LooseStep<O>(sh: Shape<O>, s: Objects<O>, ds: seq<Entry>, d: Entry, reverse: bool)
    ensures
      var s' := ApplyLoose(sh, s, ds, reverse);
      var s'' := ApplyOne(sh, s', d, reverse);
      ApplyLoose(sh, s, ds + [d], reverse) == if s''.Some? then s''.value else s'
  {
    assert (ds + [d])[..|ds|] == ds;
  }
}

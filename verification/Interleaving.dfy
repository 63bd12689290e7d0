/** Index interleaving of synthetic topologies: loops that pick the digits of a position in one
    order and put them together in another. */
module Interleaving {
  import opened Arithmetic
  import opened Permutations

  /** struct hwloc_synthetic_intlv_loop_s */
  datatype Loop = Loop(step: nat, nb: nat)

  predicate Usable(loops: seq<Loop>) {
    forall i :: 0 <= i < |loops| ==> loops[i].step > 0 && loops[i].nb > 0
  }

  function Product(loops: seq<Loop>): nat {
    if loops == [] then 1 else Product(loops[..|loops| - 1]) * loops[|loops| - 1].nb
  }

  function Digit(l: Loop, j: nat): nat
    requires l.step > 0 && l.nb > 0
  {
    j / l.step % l.nb
  }

  /** The index that loops give to position j. */
  function Index(loops: seq<Loop>, j: nat): nat
    requires Usable(loops)
  {
    if loops == [] then 0
    else
      var front, last := loops[..|loops| - 1], loops[|loops| - 1];
      Index(front, j) + Digit(last, j) * Product(front)
  }

  lemma {:induction false} ProductPositive(loops: seq<Loop>)
    requires Usable(loops)
    ensures Product(loops) > 0
  {
    if loops != [] {
      ProductPositive(loops[..|loops| - 1]);
      Grow(1, Product(loops[..|loops| - 1]), loops[|loops| - 1].nb);
    }
  }

  /** Indexes stay below the product of the loop widths. */
  lemma {:induction false} IndexBelow(loops: seq<Loop>, j: nat)
    requires Usable(loops)
    ensures Index(loops, j) < Product(loops)
  {
    if loops != [] {
      var front, last := loops[..|loops| - 1], loops[|loops| - 1];
      IndexBelow(front, j);
      Grow(Digit(last, j), last.nb - 1, Product(front));
      assert (last.nb - 1) * Product(front) == Product(front) * last.nb - Product(front);
    }
  }

  /** An index determines every digit that went into it. */
  lemma {:induction false} IndexDeterminesDigits(loops: seq<Loop>, j: nat, j': nat)
    requires Usable(loops) && Index(loops, j) == Index(loops, j')
    ensures forall i :: 0 <= i < |loops| ==> Digit(loops[i], j) == Digit(loops[i], j')
  {
    if loops != [] {
      var front, last := loops[..|loops| - 1], loops[|loops| - 1];
      IndexBelow(front, j);
      IndexBelow(front, j');
      Unique(Product(front), Digit(last, j), Index(front, j), Digit(last, j'), Index(front, j'));
      IndexDeterminesDigits(front, j, j');
      assert forall i :: 0 <= i < |front| ==> Digit(front[i], j) == Digit(front[i], j');
    }
  }

  /** The inner loop that fills the array of indexes: add the digit of one more loop everywhere. */
  method AddDigits(a: array<nat>, loops: seq<Loop>, last: Loop, mul: nat)
    requires Usable(loops) && last.step > 0 && last.nb > 0 && mul == Product(loops)
    requires forall j :: 0 <= j < a.Length ==> a[j] == Index(loops, j)
    modifies a
    ensures forall j :: 0 <= j < a.Length ==> a[j] == Index(loops + [last], j)
  {
    assert (loops + [last])[..|loops|] == loops;
    for j := 0 to a.Length
      invariant forall k :: 0 <= k < j ==> a[k] == Index(loops + [last], k)
      invariant forall k :: j <= k < a.Length ==> a[k] == Index(loops, k)
    {
      a[j] := a[j] + (j / last.step % last.nb) * mul;
    }
  }

  /** The loops that fill the array of indexes. */
  method Fill(loops: seq<Loop>, total: nat) returns (a: array<nat>)
    requires Usable(loops)
    ensures fresh(a) && a.Length == total
    ensures forall j :: 0 <= j < total ==> a[j] == Index(loops, j)
  {
    a := new nat[total](_ => 0);
    var mul := 1;
    for i := 0 to |loops|
      invariant mul == Product(loops[..i])
      invariant forall j :: 0 <= j < total ==> a[j] == Index(loops[..i], j)
    {
      assert loops[..i + 1] == loops[..i] + [loops[i]] && loops[..i + 1][..i] == loops[..i];
      AddDigits(a, loops[..i], loops[i], mul);
      mul := mul * loops[i].nb;
    }
    assert loops[..|loops|] == loops;
  }

  /** Whether an array holds every number below its length exactly once. */
  ghost predicate Permutation(s: seq<nat>) {
    && (forall i :: 0 <= i < |s| ==> s[i] < |s|)
    && Distinct(s)
    && (forall k :: 0 <= k < |s| ==> k in s)
  }

  /** Loops tell all positions apart when they have all digits: then they permute them. */
  lemma DistinctIsPermutation(s: seq<nat>)
    requires forall i :: 0 <= i < |s| ==> s[i] < |s|
    requires Distinct(s)
    ensures Permutation(s)
  {
    Pigeonhole(s);
  }

  // Loops named by levels

  /** The total widths of the levels of a topology: each is a multiple of the one above. */
  predicate Widths(w: seq<nat>) {
    && w != [] && w[0] == 1
    && (forall d :: 0 <= d < |w| ==> w[d] > 0)
    && forall d :: 0 < d < |w| ==> w[d] % w[d - 1] == 0
  }

  /** Depths of levels of which `total` is a multiple. */
  predicate Named(depths: seq<nat>, w: seq<nat>, total: nat) {
    && Widths(w) && total > 0
    && forall i :: 0 <= i < |depths| ==> depths[i] < |w| && total % w[depths[i]] == 0
  }

  /** The deepest named level above depth, or the root. */
  function Above(depths: seq<nat>, depth: nat): (p: nat)
    ensures p == 0 || (p in depths && p < depth)
    ensures forall d :: d in depths && d < depth ==> d <= p
  {
    if depths == [] then 0
    else
      var p, d := Above(depths[..|depths| - 1], depth), depths[|depths| - 1];
      assert forall x :: x in depths ==> x in depths[..|depths| - 1] || x == d;
      if d < depth && d > p then d else p
  }

  lemma Multiple(a: nat, b: nat, c: nat)
    requires b > 0 && c > 0 && a % b == 0 && b % c == 0
    ensures a % c == 0 && a / c == (a / b) * (b / c)
  {
    var q, p := a / b, b / c;
    assert a == q * b && b == p * c;
    assert a == (q * p) * c by {
      assert q * (p * c) == q * p * c;
    }
    ExactQuotient(q * p, c);
  }

  lemma {:induction false} WidthMultiple(w: seq<nat>, p: nat, d: nat)
    requires Widths(w) && p <= d < |w|
    ensures w[d] % w[p] == 0 && w[p] <= w[d] && w[d] / w[p] > 0
    decreases d
  {
    if p == d {
      ExactQuotient(1, w[d]);
    } else {
      WidthMultiple(w, p, d - 1);
      Multiple(w[d], w[d - 1], w[p]);
    }
    var q := w[d] / w[p];
    assert w[d] == q * w[p];
    assert q > 0;
    Grow(1, q, w[p]);
  }

  function Per(a: nat, b: nat): nat
    requires b > 0
  {
    a / b
  }

  /** The loop of one named level. */
  function NamedLoop(depths: seq<nat>, w: seq<nat>, total: nat, d: nat): (l: Loop)
    requires d < |w| && forall i :: 0 <= i < |w| ==> w[i] > 0
  {
    var p := Above(depths, d);
    Loop(Per(total, w[d]), Per(w[d], w[p]))
  }

  lemma NamedLoopUsable(depths: seq<nat>, w: seq<nat>, total: nat, d: nat)
    requires Widths(w) && d < |w| && total > 0 && total % w[d] == 0
    ensures var l, p := NamedLoop(depths, w, total, d), Above(depths, d);
            && p <= d && l.step > 0 && l.nb > 0 && l.nb * w[p] == w[d] && l.step * w[d] == total
            && total / w[p] == l.step * l.nb
  {
    var p := Above(depths, d);
    WidthMultiple(w, p, d);
    Multiple(total, w[d], w[p]);
    assert w[d] / w[p] * w[p] == w[d] && total / w[d] * w[d] == total;
    assert total / w[d] > 0;
  }

  function NamedLoops(depths: seq<nat>, w: seq<nat>, total: nat): (loops: seq<Loop>)
    requires Named(depths, w, total)
    ensures |loops| == |depths| && Usable(loops)
    ensures forall i :: 0 <= i < |depths| ==> loops[i] == NamedLoop(depths, w, total, depths[i])
  {
    var loops := seq(|depths|, i requires 0 <= i < |depths| => NamedLoop(depths, w, total, depths[i]));
    assert Usable(loops) by {
      forall i | 0 <= i < |depths| ensures loops[i].step > 0 && loops[i].nb > 0 {
        NamedLoopUsable(depths, w, total, depths[i]);
      }
    }
    loops
  }

  /** One step towards the root keeps quotients the same when the digits are. */
  lemma SameAbove(l: Loop, j: nat, j': nat)
    requires l.step > 0 && l.nb > 0
    requires Digit(l, j) == Digit(l, j') && j / (l.step * l.nb) == j' / (l.step * l.nb)
    ensures j / l.step == j' / l.step
  {
    DivDiv(j, l.step, l.nb);
    DivDiv(j', l.step, l.nb);
    var q, q' := j / l.step, j' / l.step;
    assert q == q / l.nb * l.nb + q % l.nb && q' == q' / l.nb * l.nb + q' % l.nb;
  }

  /** Positions with the same digits have the same quotient by every named step. */
  lemma {:induction false} SameQuotients(depths: seq<nat>, w: seq<nat>, total: nat, j: nat, j': nat, d: nat)
    requires Named(depths, w, total) && j < total && j' < total
    requires forall i :: 0 <= i < |depths| ==>
      Digit(NamedLoops(depths, w, total)[i], j) == Digit(NamedLoops(depths, w, total)[i], j')
    requires d == 0 || d in depths
    ensures d < |w| && total / w[d] > 0 && j / (total / w[d]) == j' / (total / w[d])
    decreases d
  {
    if d == 0 {
      SmallQuotient(j, total);
      SmallQuotient(j', total);
      assert total / 1 == total;
    } else {
      hide Digit;
      var l, p := NamedLoop(depths, w, total, d), Above(depths, d);
      var i :| 0 <= i < |depths| && depths[i] == d;
      assert Digit(NamedLoops(depths, w, total)[i], j) == Digit(NamedLoops(depths, w, total)[i], j');
      NamedLoopUsable(depths, w, total, d);
      SameQuotients(depths, w, total, j, j', p);
      SameAbove(l, j, j');
    }
  }

  /** The deepest named level below a bound is the only one with that description. */
  lemma AboveUnique(depths: seq<nat>, depth: nat, p: nat)
    requires p == 0 || (p in depths && p < depth)
    requires forall d :: d in depths && d < depth ==> d <= p
    ensures Above(depths, depth) == p
  {
  }

  lemma {:induction false} ProductWithout(loops: seq<Loop>, k: nat)
    requires k < |loops|
    ensures Product(loops) == Product(Without(loops, k)) * loops[k].nb
  {
    var n := |loops| - 1;
    if k == n {
      assert Without(loops, k) == loops[..n];
    } else {
      ProductWithout(loops[..n], k);
      var rest := Without(loops, k);
      assert rest[..n - 1] == Without(loops[..n], k) && rest[n - 1] == loops[n];
      Swap(Product(Without(loops[..n], k)), loops[k].nb, loops[n].nb);
      assert loops[..n][k] == loops[k];
      assert Product(rest) == Product(Without(loops[..n], k)) * loops[n].nb;
    }
  }

  lemma NamedFacts(depths: seq<nat>, w: seq<nat>, total: nat, k: nat)
    requires Named(depths, w, total) && k < |depths| && depths[k] == Above(depths, |w|)
    ensures |NamedLoops(depths, w, total)| == |depths| && Above(depths, depths[k]) < |w| && depths[k] < |w|
    ensures NamedLoops(depths, w, total)[k].nb * w[Above(depths, depths[k])] == w[depths[k]]
  {
    hide Above, NamedLoop;
    NamedLoopUsable(depths, w, total, depths[k]);
  }

  /** The widths of the named loops multiply to the width of the deepest level. */
  lemma {:induction false} NamedProduct(depths: seq<nat>, w: seq<nat>, total: nat)
    requires Named(depths, w, total) && Distinct(depths)
    ensures Above(depths, |w|) < |w| && Product(NamedLoops(depths, w, total)) == w[Above(depths, |w|)]
    decreases |depths|
  {
    if depths == [] {
      AboveUnique(depths, |w|, 0);
    } else {
      hide Above, NamedLoop, NamedLoops, Without, Named, Distinct, Product;
      var m := Above(depths, |w|);
      DeepestNamed(depths, w, total);
      var k := IndexOf(depths, m);
      var rest := Without(depths, k);
      WithoutDeepest(depths, w, total, k);
      NamedProduct(rest, w, total);
      NamedFacts(depths, w, total, k);
      ProductWithout(NamedLoops(depths, w, total), k);
    }
  }

  lemma DeepestNamed(depths: seq<nat>, w: seq<nat>, total: nat)
    requires Named(depths, w, total) && depths != []
    ensures Above(depths, |w|) in depths
  {
    hide Above;
    assert depths[0] in depths;
  }

  function IndexOf(s: seq<nat>, x: nat): (k: nat)
    requires x in s
    ensures k < |s| && s[k] == x
  {
    if s[0] == x then 0 else IndexOf(s[1..], x) + 1
  }

  lemma WithoutMembers(depths: seq<nat>, k: nat)
    requires k < |depths| && Distinct(depths)
    ensures forall d :: d in Without(depths, k) <==> d in depths && d != depths[k]
    ensures Distinct(Without(depths, k))
  {
    forall d | d in depths && d != depths[k] ensures d in Without(depths, k) {
      var i :| 0 <= i < |depths| && depths[i] == d;
      assert Without(depths, k)[if i < k then i else i - 1] == d;
    }
  }

  lemma SameLoop(depths: seq<nat>, rest: seq<nat>, w: seq<nat>, total: nat, m: nat, d: nat)
    requires Widths(w) && d < |w| && d < m
    requires forall x :: x in rest <==> x in depths && x != m
    ensures NamedLoop(rest, w, total, d) == NamedLoop(depths, w, total, d)
  {
    AboveUnique(rest, d, Above(depths, d));
  }

  /** The other loops do not change when the deepest level is left out. */
  lemma WithoutDeepest(depths: seq<nat>, w: seq<nat>, total: nat, k: nat)
    requires Named(depths, w, total) && Distinct(depths) && k < |depths| && depths[k] == Above(depths, |w|)
    ensures Named(Without(depths, k), w, total) && Distinct(Without(depths, k))
    ensures NamedLoops(Without(depths, k), w, total) == Without(NamedLoops(depths, w, total), k)
    ensures Above(Without(depths, k), |w|) == Above(depths, depths[k])
  {
    hide Above, NamedLoop, Without;
    var m, rest := depths[k], Without(depths, k);
    WithoutMembers(depths, k);
    forall i | 0 <= i < |rest| ensures NamedLoop(rest, w, total, rest[i]) == NamedLoop(depths, w, total, rest[i]) {
      assert rest[i] in rest;
      SameLoop(depths, rest, w, total, m, rest[i]);
    }
    assert NamedLoops(rest, w, total) == Without(NamedLoops(depths, w, total), k);
    AboveUnique(rest, |w|, Above(depths, m));
  }

  function MinStep(loops: seq<Loop>, total: nat): nat {
    if loops == [] then total
    else
      var m, step := MinStep(loops[..|loops| - 1], total), loops[|loops| - 1].step;
      if step < m then step else m
  }

  /** The loops behind the `one missing loop` repair, or nothing if that does not fit. */
  function Completed(loops: seq<Loop>, total: nat): (r: seq<Loop>)
    requires Usable(loops)
  {
    ProductPositive(loops);
    var nbs := Product(loops);
    if nbs == total then loops
    else if MinStep(loops, total) == total / nbs then loops + [Loop(1, total / nbs)]
    else []
  }

  predicate Repairable(loops: seq<Loop>, total: nat)
    requires Usable(loops)
  {
    ProductPositive(loops);
    Product(loops) == total || MinStep(loops, total) == total / Product(loops)
  }

  lemma {:induction false} MinStepIs(loops: seq<Loop>, total: nat, m: nat)
    requires m <= total && forall i :: 0 <= i < |loops| ==> m <= loops[i].step
    requires m == total || exists i :: 0 <= i < |loops| && loops[i].step == m
    ensures MinStep(loops, total) == m
  {
    if loops != [] {
      var n := |loops| - 1;
      if m == total || exists i :: 0 <= i < n && loops[i].step == m {
        MinStepIs(loops[..n], total, m);
      } else {
        MinStepAtLeast(loops[..n], total, m);
      }
    }
  }

  lemma {:induction false} MinStepAtLeast(loops: seq<Loop>, total: nat, m: nat)
    requires m <= total && forall i :: 0 <= i < |loops| ==> m <= loops[i].step
    ensures m <= MinStep(loops, total)
  {
    if loops != [] {
      MinStepAtLeast(loops[..|loops| - 1], total, m);
    }
  }

  /** The smallest step is that of the deepest named level. */
  lemma NamedMinStep(depths: seq<nat>, w: seq<nat>, total: nat)
    requires Named(depths, w, total) && Distinct(depths)
    ensures var m := Above(depths, |w|);
            m < |w| && w[m] > 0 && total % w[m] == 0 && MinStep(NamedLoops(depths, w, total), total) == total / w[m] > 0
  {
    var m, loops := Above(depths, |w|), NamedLoops(depths, w, total);
    DeepestDivides(depths, w, total);
    var least := total / w[m];
    forall i | 0 <= i < |loops| ensures least <= loops[i].step {
      assert depths[i] in depths;
      StepAtLeast(w, total, depths[i], m);
    }
    if m in depths {
      var i := IndexOf(depths, m);
      assert loops[i].step == least;
    }
    StepAtLeast(w, total, 0, m);
    assert total / w[0] == total;
    MinStepIs(loops, total, least);
  }

  lemma DeepestDivides(depths: seq<nat>, w: seq<nat>, total: nat)
    requires Named(depths, w, total)
    ensures var m := Above(depths, |w|); m < |w| && total % w[m] == 0 && total / w[m] > 0
  {
    var m := Above(depths, |w|);
    if m in depths {
      var i := IndexOf(depths, m);
      NamedLoopUsable(depths, w, total, m);
    }
  }

  lemma StepAtLeast(w: seq<nat>, total: nat, d: nat, m: nat)
    requires Widths(w) && d <= m < |w| && total % w[m] == 0
    ensures total / w[m] <= total / w[d]
  {
    WidthMultiple(w, d, m);
    Multiple(total, w[m], w[d]);
    Grow(1, w[m] / w[d], total / w[m]);
  }

  /** The repair adds the missing factor when that is the smallest step. */
  lemma CompletedBy(loops: seq<Loop>, total: nat, q: nat)
    requires Usable(loops) && q > 0 && Product(loops) * q == total && MinStep(loops, total) == q
    ensures Repairable(loops, total)
    ensures Completed(loops, total) == if q == 1 then loops else loops + [Loop(1, q)]
    ensures Usable(Completed(loops, total)) && Product(Completed(loops, total)) == total
  {
    ProductPositive(loops);
    var p := Product(loops);
    assert p * q == q * p;
    ExactQuotient(q, p);
    if q == 1 {
      assert p == total;
    } else {
      Grow(2, q, p);
      assert (loops + [Loop(1, q)])[..|loops|] == loops;
    }
  }

  /** The repair always applies to named loops, and the result has all digits. */
  lemma NamedCompleted(depths: seq<nat>, w: seq<nat>, total: nat)
    requires Named(depths, w, total) && Distinct(depths)
    ensures Repairable(NamedLoops(depths, w, total), total)
    ensures Usable(Completed(NamedLoops(depths, w, total), total))
    ensures Product(Completed(NamedLoops(depths, w, total), total)) == total
    ensures var loops, m := NamedLoops(depths, w, total), Above(depths, |w|);
            && m < |w| && w[m] > 0 && total / w[m] > 0
            && Completed(loops, total) == if total / w[m] == 1 then loops else loops + [Loop(1, total / w[m])]
  {
    hide NamedLoops, Completed, Repairable, Above, Named, Widths;
    NamedProduct(depths, w, total);
    NamedMinStep(depths, w, total);
    var m := Above(depths, |w|);
    Divide(total, w[m]);
    CompletedBy(NamedLoops(depths, w, total), total, total / w[m]);
  }

  /** Named loops, in any order and with the repair, tell all positions apart. */
  lemma NamedInjective(depths: seq<nat>, w: seq<nat>, total: nat, all: seq<Loop>, j: nat, j': nat)
    requires Named(depths, w, total) && Distinct(depths) && j < total && j' < total
    requires Usable(all) && all == Completed(NamedLoops(depths, w, total), total)
    requires Index(all, j) == Index(all, j')
    ensures j == j'
  {
    hide NamedLoops, Completed, Repairable, Above, Index;
    var loops, m := NamedLoops(depths, w, total), Above(depths, |w|);
    NamedCompleted(depths, w, total);
    IndexDeterminesDigits(all, j, j');
    assert forall i :: 0 <= i < |loops| ==> all[i] == loops[i];
    assert m == 0 || m in depths;
    SameQuotients(depths, w, total, j, j', m);
    LastDigit(j, j', total / w[m], if |all| > |loops| then all[|loops|] else Loop(1, 1));
  }

  lemma LastDigit(j: nat, j': nat, q: nat, last: Loop)
    requires q > 0 && j / q == j' / q
    requires q > 1 ==> last == Loop(1, q) && Digit(last, j) == Digit(last, j')
    ensures j == j'
  {
    assert j / 1 == j && j' / 1 == j';
    assert j == j / q * q + j % q && j' == j' / q * q + j' % q;
  }

  /** The array of indexes that loops make. */
  function Indexes(loops: seq<Loop>, total: nat): (s: seq<nat>)
    requires Usable(loops)
    ensures |s| == total && forall j :: 0 <= j < total ==> s[j] == Index(loops, j)
  {
    seq(total, (j: nat) => Index(loops, j))
  }

  /** Type-based interleaving permutes the indexes, whatever the order of the names. */
  lemma NamedPermutation(depths: seq<nat>, w: seq<nat>, total: nat)
    requires Named(depths, w, total) && Distinct(depths)
    ensures Usable(Completed(NamedLoops(depths, w, total), total))
    ensures Permutation(Indexes(Completed(NamedLoops(depths, w, total), total), total))
  {
    hide NamedLoops, Completed, Repairable, Above, Index;
    NamedCompleted(depths, w, total);
    var all := Completed(NamedLoops(depths, w, total), total);
    var s := Indexes(all, total);
    forall j | 0 <= j < total ensures s[j] < total {
      IndexBelow(all, j);
    }
    forall j, k | 0 <= j < k < total ensures s[j] != s[k] {
      if s[j] == s[k] {
        NamedInjective(depths, w, total, all, j, k);
      }
    }
    DistinctIsPermutation(s);
  }
}

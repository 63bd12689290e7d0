/** Exporting finds loops for every level that has them. */
module ExportSearch {
  import opened Arithmetic
  import opened Chains
  import opened Interleaving
  import opened Options
  import opened Permutations
  import opened Synthetic
  import opened SyntheticExport

  /** Loops that have all positions of a level, with their steps in the order in which they chain. */
  predicate Chained(loops: seq<Loop>, chain: seq<Loop>, total: nat) {
    Usable(loops) && multiset(chain) == multiset(loops) && Chain(chain, 1, total)
  }

  /** No loop is without effect, and none goes on where the one before it ends. */
  predicate Tight(loops: seq<Loop>) {
    && (forall k :: 0 <= k < |loops| ==> loops[k].nb >= 2)
    && forall k :: 0 <= k < |loops| - 1 ==> loops[k + 1].step != loops[k].step * loops[k].nb
  }

  // Chains

  lemma {:induction false} ChainCut(chain: seq<Loop>, from: nat, to: nat, m: nat)
    requires Chain(chain, from, to) && m <= |chain|
    ensures var mid := if m < |chain| then chain[m].step else to;
            Chain(chain[..m], from, mid) && Chain(chain[m..], mid, to)
    decreases m
  {
    if m > 0 {
      ChainCut(chain[1..], from * chain[0].nb, to, m - 1);
      assert chain[..m][1..] == chain[1..][..m - 1] && chain[m..] == chain[1..][m - 1..];
    } else {
      assert chain[..0] == [] && chain[0..] == chain;
    }
  }

  lemma {:induction false} ChainJoin(a: seq<Loop>, b: seq<Loop>, from: nat, mid: nat, to: nat)
    requires Chain(a, from, mid) && Chain(b, mid, to)
    ensures Chain(a + b, from, to)
    decreases |a|
  {
    if a == [] {
      assert a + b == b;
    } else {
      ChainJoin(a[1..], b, from * a[0].nb, mid, to);
      assert (a + b)[1..] == a[1..] + b;
    }
  }

  lemma TimesPositive(a: nat, b: nat)
    requires a > 0 && b > 0
    ensures a * b > 0
  {
  }

  /** All steps, and the end, are multiples of the start. */
  lemma {:induction false} StepsMultiple(chain: seq<Loop>, from: nat, to: nat)
    requires Usable(chain) && from > 0 && Chain(chain, from, to)
    ensures to % from == 0 && forall i :: 0 <= i < |chain| ==> chain[i].step % from == 0
    decreases |chain|
  {
    ExactQuotient(1, from);
    if chain != [] {
      var (nb, rest) := (chain[0].nb, chain[1..]);
      TimesPositive(from, nb);
      StepsMultiple(rest, from * nb, to);
      Commutes(from, nb);
      ExactQuotient(nb, from);
      Multiple(to, from * nb, from);
      forall i | 0 <= i < |chain| ensures chain[i].step % from == 0 {
        if i > 0 {
          assert chain[i] == rest[i - 1];
          Multiple(chain[i].step, from * nb, from);
        }
      }
    }
  }

  /** Behind a loop all steps are multiples of where it ends. */
  lemma LaterSteps(chain: seq<Loop>, to: nat, m: nat)
    requires Usable(chain) && Chain(chain, 1, to) && m < |chain|
    ensures chain[m].step * chain[m].nb > 0 && to % (chain[m].step * chain[m].nb) == 0
    ensures forall i :: m < i < |chain| ==> chain[i].step % (chain[m].step * chain[m].nb) == 0
  {
    ChainCut(chain, 1, to, m);
    var rest := chain[m..];
    assert rest[0] == chain[m] && rest[1..] == chain[m + 1..];
    TimesPositive(chain[m].step, chain[m].nb);
    StepsMultiple(rest[1..], chain[m].step * chain[m].nb, to);
    forall i | m < i < |chain| ensures chain[i].step % (chain[m].step * chain[m].nb) == 0 {
      assert chain[i] == rest[1..][i - m - 1];
    }
  }

  lemma AtLeastMultiple(a: nat, b: nat)
    requires b > 0 && a > 0 && a % b == 0
    ensures b <= a
  {
    if a < b {
      SmallQuotient(a, b);
    }
  }

  /** The digit of a position that is a multiple of one step: of that loop it is the factor, of all
      others it is zero. */
  lemma OneDigit(chain: seq<Loop>, to: nat, m: nat, j: nat, i: nat)
    requires Usable(chain) && Chain(chain, 1, to) && m < |chain| && j < chain[m].nb && i < |chain|
    ensures Digit(chain[i], j * chain[m].step) == if i == m then j else 0
  {
    var (s, l) := (chain[m].step, chain[i]);
    if i == m {
      ExactQuotient(j, s);
      SmallQuotient(j, l.nb);
    } else if i < m {
      LaterSteps(chain, to, i);
      DigitBelow(s, l, j);
    } else {
      LaterSteps(chain, to, m);
      AtLeastMultiple(l.step, s * chain[m].nb);
      Below(j, s, chain[m].nb);
      SmallQuotient(j * s, l.step);
      SmallQuotient(0, l.nb);
    }
  }

  lemma Below(j: nat, s: nat, n: nat)
    requires j < n && s > 0
    ensures j * s < s * n && (j + 1) * s <= s * n
  {
    Grow(j + 1, n, s);
    assert (j + 1) * s == j * s + s;
    Commutes(n, s);
  }

  lemma DigitBelow(s: nat, l: Loop, j: nat)
    requires l.step > 0 && l.nb > 0 && l.step * l.nb > 0 && s % (l.step * l.nb) == 0
    ensures Digit(l, j * s) == 0
  {
    var q := s / (l.step * l.nb);
    Divide(s, l.step * l.nb);
    assert j * s == j * q * l.nb * l.step by {
      Rearranged(j, q, l.step, l.nb);
    }
    ExactQuotient(j * q * l.nb, l.step);
    ExactQuotient(j * q, l.nb);
  }

  lemma Rearranged(j: nat, q: nat, s: nat, n: nat)
    ensures j * (q * (s * n)) == j * q * n * s
  {
    Commutes(s, n);
    assert q * (n * s) == q * n * s;
    assert j * (q * n * s) == j * (q * n) * s;
    assert j * (q * n) == j * q * n;
  }

  // Loops

  lemma {:induction false} IndexOfOne(loops: seq<Loop>, x: nat, k: nat, j: nat)
    requires Usable(loops) && forall i :: 0 <= i < |loops| ==> Digit(loops[i], x) == if i == k then j else 0
    ensures Index(loops, x) == if k < |loops| then j * Product(loops[..k]) else 0
  {
    if loops != [] {
      hide Digit;
      var n := |loops| - 1;
      IndexOfOne(loops[..n], x, k, j);
      if k < n {
        assert loops[..n][..k] == loops[..k];
      }
    }
  }

  lemma {:induction false} CountOnce<T>(s: seq<T>, x: T)
    requires Distinct(s)
    ensures multiset(s)[x] <= 1
  {
    if s != [] {
      var n := |s| - 1;
      CountOnce(s[..n], x);
      assert s == s[..n] + [s[n]];
      if s[n] == x {
        assert x !in s[..n];
      }
    }
  }

  lemma {:induction false} CountTwice<T>(s: seq<T>, i: nat, j: nat)
    requires i < j < |s| && s[i] == s[j]
    ensures multiset(s)[s[i]] >= 2
  {
    assert s == s[..j] + s[j..];
    assert s[..j][i] == s[i] && s[j..][0] == s[i];
  }

  lemma {:induction false} DistinctOf<T>(a: seq<T>, b: seq<T>)
    requires multiset(a) == multiset(b) && Distinct(a)
    ensures Distinct(b)
  {
    forall i, j | 0 <= i < j < |b| ensures b[i] != b[j] {
      CountOnce(a, b[i]);
      if b[i] == b[j] {
        CountTwice(b, i, j);
      }
    }
  }

  /** Loops that do something are all different. */
  lemma ChainDistinct(chain: seq<Loop>, to: nat)
    requires Usable(chain) && Chain(chain, 1, to) && forall i :: 0 <= i < |chain| ==> chain[i].nb >= 2
    ensures Distinct(chain) && forall i, j :: 0 <= i < j < |chain| ==> chain[i].step * chain[i].nb <= chain[j].step
    ensures forall i, j :: 0 <= i < j < |chain| ==> chain[i].step < chain[j].step
  {
    forall i, j | 0 <= i < j < |chain|
      ensures chain[i].step * chain[i].nb <= chain[j].step && chain[i].step < chain[j].step
    {
      LaterSteps(chain, to, i);
      AtLeastMultiple(chain[j].step, chain[i].step * chain[i].nb);
      Below(1, chain[i].step, chain[i].nb);
    }
  }

  function PlaceOf(chain: seq<Loop>, l: Loop): (m: nat)
    requires l in chain
    ensures m < |chain| && chain[m] == l
  {
    if chain[0] == l then 0 else 1 + PlaceOf(chain[1..], l)
  }

  lemma InBoth(loops: seq<Loop>, chain: seq<Loop>)
    requires multiset(chain) == multiset(loops)
    ensures forall l :: l in loops <==> l in chain
  {
    forall l ensures l in loops <==> l in chain {
      assert l in loops <==> l in multiset(loops);
      assert l in chain <==> l in multiset(chain);
    }
  }

  lemma WithinTotal(s: nat, n: nat, total: nat, j: nat)
    requires s > 0 && s * n > 0 && total > 0 && total % (s * n) == 0 && j < n
    ensures j * s < total && (j + 1) * s <= total && total % s == 0
  {
    AtLeastMultiple(total, s * n);
    Below(j, s, n);
    Commutes(s, n);
    ExactQuotient(n, s);
    Multiple(total, s * n, s);
  }

  lemma ChainFacts(loops: seq<Loop>, chain: seq<Loop>, total: nat)
    requires Chained(loops, chain, total) && forall i :: 0 <= i < |loops| ==> loops[i].nb >= 2
    ensures Usable(chain) && Distinct(loops) && total > 0 && forall l :: l in loops <==> l in chain
  {
    InBoth(loops, chain);
    UsableOf(loops, chain);
    forall i | 0 <= i < |chain| ensures chain[i].nb >= 2 {
      assert chain[i] in loops;
    }
    ChainDistinct(chain, total);
    DistinctOf(chain, loops);
    ChainSteps(chain, 1, total);
  }

  /** The digits of a multiple of a step: no other loop has one. */
  lemma DigitsAt(loops: seq<Loop>, chain: seq<Loop>, total: nat, k: nat, j: nat, i: nat)
    requires Usable(loops) && Usable(chain) && Chain(chain, 1, total) && Distinct(loops)
    requires k < |loops| && i < |loops| && loops[k] in chain && loops[i] in chain && j < loops[k].nb
    ensures Digit(loops[i], j * loops[k].step) == if i == k then j else 0
  {
    hide Digit, Chain;
    var (m, p) := (PlaceOf(chain, loops[k]), PlaceOf(chain, loops[i]));
    OneDigit(chain, total, m, j, p);
    assert p == m <==> i == k;
  }

  /** The index of a multiple of a step that is within the width. */
  lemma IndexAt(loops: seq<Loop>, chain: seq<Loop>, total: nat, k: nat, j: nat)
    requires Chained(loops, chain, total) && k < |loops| && j < loops[k].nb
    requires forall i :: 0 <= i < |loops| ==> loops[i].nb >= 2
    ensures j * loops[k].step < total && (j + 1) * loops[k].step <= total && total % loops[k].step == 0
    ensures Index(loops, j * loops[k].step) == j * Product(loops[..k])
  {
    hide Digit, Index, Chain, Product, Distinct;
    ChainFacts(loops, chain, total);
    LaterSteps(chain, total, PlaceOf(chain, loops[k]));
    WithinTotal(loops[k].step, loops[k].nb, total, j);
    var x := j * loops[k].step;
    forall i | 0 <= i < |loops| ensures Digit(loops[i], x) == if i == k then j else 0 {
      DigitsAt(loops, chain, total, k, j, i);
    }
    IndexOfOne(loops, x, k, j);
  }

  /** Different positions have different indexes. */
  lemma IndexOnce(loops: seq<Loop>, chain: seq<Loop>, total: nat, x: nat, y: nat)
    requires Chained(loops, chain, total) && x < total && y < total && Index(loops, x) == Index(loops, y)
    ensures x == y
  {
    ChainCompleted(loops, chain, 1, total);
    ChainInjective(loops, chain, 1, total, x, y);
  }

  lemma ChainedProduct(loops: seq<Loop>, chain: seq<Loop>, total: nat)
    requires Chained(loops, chain, total)
    ensures Product(loops) == total > 0
  {
    UsableOf(loops, chain);
    ChainProduct(chain, 1, total);
    ProductOf(chain, loops);
    ProductPositive(loops);
  }

  lemma {:induction false} ProductSplit(loops: seq<Loop>, k: nat)
    requires k <= |loops| && Usable(loops)
    ensures Product(loops[..k]) > 0 && Product(loops) % Product(loops[..k]) == 0
    ensures (forall i :: 0 <= i < |loops| ==> loops[i].nb >= 2) && k < |loops| ==> Product(loops[..k]) < Product(loops)
  {
    ProductPositive(loops[..k]);
    if k == |loops| {
      assert loops[..k] == loops;
      ExactQuotient(1, Product(loops));
    } else {
      var n := |loops| - 1;
      ProductSplit(loops[..n], k);
      assert loops[..n][..k] == loops[..k];
      ProductPositive(loops[..n]);
      var (p, nb) := (Product(loops[..n]), loops[n].nb);
      Commutes(p, nb);
      ExactQuotient(nb, p);
      Multiple(p * nb, p, Product(loops[..k]));
      if nb >= 2 {
        Grow(2, nb, p);
        if k == n {
          assert p < p * nb;
        }
      }
    }
  }

  // The search, for loops that are tight

  lemma {:induction false} FindIs(os: seq<nat>, v: nat, i: nat, x: nat)
    requires i <= x < |os| && os[x] == v && forall y :: i <= y < x ==> os[y] != v
    ensures Find(os, v, i) == x
    decreases x - i
  {
    if i < x {
      FindIs(os, v, i + 1, x);
    }
  }

  predicate Continues(os: seq<nat>, i: nat, step: nat, t: nat)
    requires i > 0
  {
    t < |os| / i && i * t < |os| && os[i * t] == step * t
  }

  lemma {:induction false} RunIs(os: seq<nat>, i: nat, step: nat, j: nat, n: nat)
    requires i > 0 && j <= n
    requires !Continues(os, i, step, n) && forall t :: j <= t < n ==> Continues(os, i, step, t)
    ensures Run(os, i, step, j) == n
    decreases n - j
  {
    if j < |os| / i {
      InBounds(i, j, |os|);
    }
    if j < n {
      assert Continues(os, i, step, j);
      RunIs(os, i, step, j + 1, n);
    }
  }

  /** Where the search finds the step that it looks for. */
  lemma FindsStep(os: seq<nat>, loops: seq<Loop>, chain: seq<Loop>, k: nat)
    requires os != [] && Chained(loops, chain, |os|) && Tight(loops) && Explains(loops, os) && k < |loops|
    ensures Find(os, Product(loops[..k]), 1) == loops[k].step < |os|
  {
    var (total, x) := (|os|, loops[k].step);
    IndexAt(loops, chain, total, k, 1);
    forall y | 1 <= y < x ensures os[y] != Product(loops[..k]) {
      if os[y] == Product(loops[..k]) {
        IndexOnce(loops, chain, total, x, y);
      }
    }
    FindIs(os, Product(loops[..k]), 1, x);
  }

  lemma NextProduct(loops: seq<Loop>, k: nat)
    requires k < |loops|
    ensures Product(loops[..k + 1]) == Product(loops[..k]) * loops[k].nb
  {
    assert loops[..k + 1][..k] == loops[..k];
  }

  /** Where the run of a step ends: the position behind it has another index. */
  lemma RunEnds(os: seq<nat>, loops: seq<Loop>, chain: seq<Loop>, k: nat)
    requires os != [] && Chained(loops, chain, |os|) && Tight(loops) && Explains(loops, os) && k < |loops|
    requires loops[k].step * loops[k].nb < |os|
    ensures os[loops[k].step * loops[k].nb] != Product(loops[..k]) * loops[k].nb
  {
    var (total, x) := (|os|, loops[k].step * loops[k].nb);
    NextProduct(loops, k);
    if k == |loops| - 1 {
      assert loops[..k + 1] == loops;
      ChainedProduct(loops, chain, total);
      IndexBelow(loops, x);
    } else {
      IndexAt(loops, chain, total, k + 1, 1);
      if os[x] == Product(loops[..k + 1]) {
        IndexOnce(loops, chain, total, x, loops[k + 1].step);
      }
    }
  }

  lemma FindsRun(os: seq<nat>, loops: seq<Loop>, chain: seq<Loop>, k: nat)
    requires os != [] && Chained(loops, chain, |os|) && Tight(loops) && Explains(loops, os) && k < |loops|
    ensures Run(os, loops[k].step, Product(loops[..k]), 2) == loops[k].nb
  {
    var (total, i, n, step) := (|os|, loops[k].step, loops[k].nb, Product(loops[..k]));
    forall t | 2 <= t < n ensures Continues(os, i, step, t) {
      IndexAt(loops, chain, total, k, t);
      Fits(total, i, t + 1);
      Commutes(i, t);
      Commutes(step, t);
    }
    if i * n < total {
      RunEnds(os, loops, chain, k);
    }
    RunIs(os, i, step, 2, n);
  }

  lemma {:induction false} SearchRuns(os: seq<nat>, loops: seq<Loop>, chain: seq<Loop>, k: nat)
    requires os != [] && Chained(loops, chain, |os|) && Tight(loops) && Explains(loops, os) && k <= |loops|
    ensures Product(loops[..k]) > 0 && Search(os, Product(loops[..k]), loops[..k]) == Some(loops)
    decreases |loops| - k
  {
    hide Run, Find, Chained, Tight, Product, Explains;
    ChainedProduct(loops, chain, |os|);
    ChainedUsable(loops, chain, |os|);
    ProductSplit(loops, k);
    if k == |loops| {
      assert loops[..k] == loops;
    } else {
      WidthsOfTight(loops);
      FindsStep(os, loops, chain, k);
      FindsRun(os, loops, chain, k);
      NextProduct(loops, k);
      SearchRuns(os, loops, chain, k + 1);
      assert loops[..k] + [loops[k]] == loops[..k + 1];
      assert Loop(loops[k].step, loops[k].nb) == loops[k];
    }
  }

  lemma ChainedUsable(loops: seq<Loop>, chain: seq<Loop>, total: nat)
    requires Chained(loops, chain, total)
    ensures Usable(loops)
  {
  }

  lemma WidthsOfTight(loops: seq<Loop>)
    requires Tight(loops)
    ensures forall k :: 0 <= k < |loops| ==> loops[k].nb >= 2
  {
  }

  // Making loops tight

  lemma {:induction false} SameBefore(a: seq<Loop>, b: seq<Loop>, tail: seq<Loop>, x: nat)
    requires Usable(a + tail) && Usable(b + tail) && Usable(a) && Usable(b)
    requires Index(a, x) == Index(b, x) && Product(a) == Product(b)
    ensures Index(a + tail, x) == Index(b + tail, x) && Product(a + tail) == Product(b + tail)
    decreases |tail|
  {
    if tail == [] {
      assert a + tail == a && b + tail == b;
    } else {
      hide Digit;
      var n := |tail| - 1;
      assert (a + tail)[..|a| + n] == a + tail[..n] && (b + tail)[..|b| + n] == b + tail[..n];
      SameBefore(a, b, tail[..n], x);
      assert (a + tail)[|a| + n] == tail[n] && (b + tail)[|b| + n] == tail[n];
    }
  }

  lemma IndexMore(loops: seq<Loop>, l: Loop, x: nat)
    requires Usable(loops) && l.step > 0 && l.nb > 0
    ensures Index(loops + [l], x) == Index(loops, x) + Digit(l, x) * Product(loops)
    ensures Product(loops + [l]) == Product(loops) * l.nb
  {
    assert (loops + [l])[..|loops|] == loops;
  }

  lemma Assoc(a: nat, b: nat, c: nat)
    ensures a * b * c == a * (b * c)
  {
  }

  lemma Spread(a: nat, b: nat, c: nat)
    ensures (a + b) * c == a * c + b * c
  {
  }

  /** A remainder by a product is made of two remainders. */
  lemma TwoRemainders(y: nat, a: nat, b: nat)
    requires a > 0 && b > 0
    ensures a * b > 0 && y % (a * b) == y % a + y / a % b * a
  {
    Euclid(y, a);
    Euclid(y / a, b);
    Nested(y, a, b, y / a, y % a, y / a / b, y / a % b);
  }

  /** The digit of two loops of which one goes on where the other ends. */
  lemma MergedDigit(one: Loop, two: Loop, x: nat)
    requires one.step > 0 && one.nb > 0 && two.nb > 0 && two.step == one.step * one.nb
    ensures two.step > 0 && one.nb * two.nb > 0
    ensures Digit(Loop(one.step, one.nb * two.nb), x) == Digit(one, x) + Digit(two, x) * one.nb
  {
    TimesPositive(one.step, one.nb);
    TwoRemainders(x / one.step, one.nb, two.nb);
    DivDiv(x, one.step, one.nb);
  }

  /** Two such loops are one. */
  lemma MergedIndex(pre: seq<Loop>, one: Loop, two: Loop, x: nat)
    requires Usable(pre) && one.step > 0 && one.nb > 0 && two.nb > 0 && two.step == one.step * one.nb
    ensures two.step > 0 && one.nb * two.nb > 0
    ensures Usable(pre + [one, two]) && Usable(pre + [Loop(one.step, one.nb * two.nb)])
    ensures Index(pre + [one, two], x) == Index(pre + [Loop(one.step, one.nb * two.nb)], x)
    ensures Product(pre + [one, two]) == Product(pre + [Loop(one.step, one.nb * two.nb)])
  {
    hide Index, Product, Digit;
    MergedDigit(one, two, x);
    var (p, merged) := (Product(pre), Loop(one.step, one.nb * two.nb));
    assert pre + [one, two] == (pre + [one]) + [two];
    IndexMore(pre, one, x);
    IndexMore(pre + [one], two, x);
    IndexMore(pre, merged, x);
    AddsUp(Digit(one, x), Digit(two, x), one.nb, p);
    Assoc(p, one.nb, two.nb);
  }

  lemma AddsUp(d: nat, e: nat, n: nat, p: nat)
    ensures d * p + e * (p * n) == (d + e * n) * p
  {
    Spread(d, e * n, p);
    Assoc(e, n, p);
    Commutes(p, n);
  }

  /** A loop of width one does nothing. */
  lemma DroppedIndex(pre: seq<Loop>, l: Loop, x: nat)
    requires Usable(pre) && l.step > 0 && l.nb == 1
    ensures Usable(pre + [l]) && Index(pre + [l], x) == Index(pre, x) && Product(pre + [l]) == Product(pre)
  {
    IndexMore(pre, l, x);
    assert Digit(l, x) == 0;
  }

  /** The same part in two sequences can be replaced in both. */
  lemma {:induction false} Replaced<T>(a: seq<T>, b: seq<T>, c: seq<T>, d: seq<T>, x: seq<T>, y: seq<T>)
    requires multiset(a + x + b) == multiset(c + x + d)
    ensures multiset(a + y + b) == multiset(c + y + d)
  {
    assert multiset(a + x + b) == multiset(a) + multiset(x) + multiset(b);
    assert multiset(c + x + d) == multiset(c) + multiset(x) + multiset(d);
    var m := multiset(x);
    assert multiset(a) + multiset(b) == multiset(a + x + b) - m;
    assert multiset(c) + multiset(d) == multiset(c + x + d) - m;
    assert multiset(a + y + b) == multiset(a) + multiset(b) + multiset(y);
    assert multiset(c + y + d) == multiset(c) + multiset(d) + multiset(y);
  }

  lemma {:induction false} DropChained(loops: seq<Loop>, chain: seq<Loop>, total: nat, k: nat, m: nat)
    requires Chained(loops, chain, total) && k < |loops| && m < |chain| && loops[k] == chain[m] && loops[k].nb == 1
    ensures Chained(loops[..k] + [] + loops[k + 1..], chain[..m] + [] + chain[m + 1..], total)
  {
    var l := loops[k];
    assert loops == loops[..k] + [l] + loops[k + 1..] && chain == chain[..m] + [l] + chain[m + 1..];
    ChainCut(chain, 1, total, m);
    assert chain[m..][1..] == chain[m + 1..];
    assert l.step * l.nb == l.step;
    ChainJoin(chain[..m], chain[m + 1..], 1, l.step, total);
    assert chain[..m] + [] + chain[m + 1..] == chain[..m] + chain[m + 1..];
    Replaced(chain[..m], chain[m + 1..], loops[..k], loops[k + 1..], [l], []);
  }

  lemma {:induction false} Drop(os: seq<nat>, loops: seq<Loop>, chain: seq<Loop>, k: nat)
      returns (rest: seq<Loop>, c: seq<Loop>)
    requires Chained(loops, chain, |os|) && Explains(loops, os) && k < |loops| && loops[k].nb == 1
    ensures |rest| < |loops| && Chained(rest, c, |os|) && Explains(rest, os)
  {
    hide Index, Chain;
    var l := loops[k];
    InBoth(loops, chain);
    var m := PlaceOf(chain, l);
    rest, c := loops[..k] + [] + loops[k + 1..], chain[..m] + [] + chain[m + 1..];
    assert loops == loops[..k] + [l] + loops[k + 1..] && rest == loops[..k] + loops[k + 1..];
    DropChained(loops, chain, |os|, k, m);
    forall x: nat ensures Index(rest, x) == Index(loops, x) {
      DroppedIndex(loops[..k], l, x);
      SameBefore(loops[..k] + [l], loops[..k], loops[k + 1..], x);
    }
  }

  /** The loop that goes on where another ends is next to it in the chain. */
  lemma NextInChain(chain: seq<Loop>, to: nat, one: Loop, two: Loop) returns (m: nat)
    requires Usable(chain) && Chain(chain, 1, to) && forall i :: 0 <= i < |chain| ==> chain[i].nb >= 2
    requires one in chain && two in chain && two.step == one.step * one.nb
    ensures m + 1 < |chain| && chain[m] == one && chain[m + 1] == two
  {
    m := PlaceOf(chain, one);
    var p := PlaceOf(chain, two);
    ChainDistinct(chain, to);
    Below(1, one.step, one.nb);
    assert p > m;
    assert two.step <= chain[m + 1].step;
  }

  lemma ChainMerges(chain: seq<Loop>, to: nat, m: nat)
    requires Chain(chain, 1, to) && m + 1 < |chain|
    ensures Chain(chain[..m] + ([Loop(chain[m].step, chain[m].nb * chain[m + 1].nb)] + chain[m + 2..]), 1, to)
  {
    var (one, two, tail) := (chain[m], chain[m + 1], chain[m + 2..]);
    ChainCut(chain, 1, to, m);
    assert chain[m..][1..] == chain[m + 1..] && chain[m + 1..][1..] == tail;
    assert Chain(chain[m + 1..], one.step * one.nb, to) && Chain(tail, one.step * one.nb * two.nb, to);
    assert one.step * one.nb * two.nb == one.step * (one.nb * two.nb);
    var merged := [Loop(one.step, one.nb * two.nb)] + tail;
    assert merged[1..] == tail;
    ChainJoin(chain[..m], merged, 1, one.step, to);
  }

  lemma {:induction false} MergeChained(loops: seq<Loop>, chain: seq<Loop>, total: nat, k: nat, m: nat)
    requires Chained(loops, chain, total) && k + 1 < |loops| && m + 1 < |chain|
    requires chain[m] == loops[k] && chain[m + 1] == loops[k + 1]
    ensures
      var merged := [Loop(loops[k].step, loops[k].nb * loops[k + 1].nb)];
      Chained(loops[..k] + merged + loops[k + 2..], chain[..m] + merged + chain[m + 2..], total)
  {
    var (two, merged) := ([loops[k], loops[k + 1]], [Loop(loops[k].step, loops[k].nb * loops[k + 1].nb)]);
    assert loops == loops[..k] + two + loops[k + 2..] && chain == chain[..m] + two + chain[m + 2..];
    Replaced(chain[..m], chain[m + 2..], loops[..k], loops[k + 2..], two, merged);
    ChainMerges(chain, total, m);
    assert chain[..m] + (merged + chain[m + 2..]) == chain[..m] + merged + chain[m + 2..];
    TimesPositive(loops[k].nb, loops[k + 1].nb);
  }

  lemma {:induction false} Merge(os: seq<nat>, loops: seq<Loop>, chain: seq<Loop>, k: nat)
      returns (rest: seq<Loop>, c: seq<Loop>)
    requires Chained(loops, chain, |os|) && Explains(loops, os) && k + 1 < |loops|
    requires forall i :: 0 <= i < |loops| ==> loops[i].nb >= 2
    requires loops[k + 1].step == loops[k].step * loops[k].nb
    ensures |rest| < |loops| && Chained(rest, c, |os|) && Explains(rest, os)
  {
    hide Index, Chain;
    var (one, two, tail) := (loops[k], loops[k + 1], loops[k + 2..]);
    var merged := Loop(one.step, one.nb * two.nb);
    InBoth(loops, chain);
    UsableOf(loops, chain);
    forall i | 0 <= i < |chain| ensures chain[i].nb >= 2 {
      assert chain[i] in loops;
    }
    var m := NextInChain(chain, |os|, one, two);
    MergeChained(loops, chain, |os|, k, m);
    rest, c := loops[..k] + [merged] + tail, chain[..m] + [merged] + chain[m + 2..];
    assert loops == loops[..k] + [one, two] + tail;
    MergedIndex(loops[..k], one, two, 0);
    forall x: nat ensures Index(rest, x) == Index(loops, x) {
      MergedIndex(loops[..k], one, two, x);
      SameBefore(loops[..k] + [one, two], loops[..k] + [merged], tail, x);
    }
  }

  lemma {:induction false} Tighten(os: seq<nat>, loops: seq<Loop>, chain: seq<Loop>)
      returns (tight: seq<Loop>, c: seq<Loop>)
    requires Chained(loops, chain, |os|) && Explains(loops, os)
    ensures Chained(tight, c, |os|) && Tight(tight) && Explains(tight, os)
    decreases |loops|
  {
    hide Chained, Explains;
    ChainedUsable(loops, chain, |os|);
    if k :| 0 <= k < |loops| && loops[k].nb == 1 {
      var rest, c' := Drop(os, loops, chain, k);
      tight, c := Tighten(os, rest, c');
    } else if k :| 0 <= k < |loops| - 1 && loops[k + 1].step == loops[k].step * loops[k].nb {
      var rest, c' := Merge(os, loops, chain, k);
      tight, c := Tighten(os, rest, c');
    } else {
      tight, c := loops, chain;
    }
  }

  // The theorem

  /** A level whose indexes are those of loops that chain is exported as loops, which give them: the
      list is printed only when there are no such loops. */
  lemma LoopsAreFound(os: seq<nat>, loops: seq<Loop>, chain: seq<Loop>)
    requires os != [] && Chained(loops, chain, |os|) && Explains(loops, os)
    ensures exists printed :: Explains(printed, os) && Product(printed) == |os| && ExportText(os) == LoopText(printed)
  {
    hide Chained, Explains, Search, LoopText, ListText;
    var tight, c := Tighten(os, loops, chain);
    SearchRuns(os, tight, c, 0);
    assert tight[..0] == [] && Product([]) == 1;
    ChainedProduct(tight, c, |os|);
    StartsWithZero(os, tight);
    assert ExportText(os) == LoopText(tight);
  }

  lemma StartsWithZero(os: seq<nat>, loops: seq<Loop>)
    requires os != [] && Explains(loops, os)
    ensures os[0] == 0
  {
    ZeroIndex(loops);
  }

  /** So what is imported from loops that chain is exported as loops. */
  lemma ImportedIsFound(loops: seq<Loop>, chain: seq<Loop>, q: nat, total: nat)
    requires Usable(loops) && q > 0 && multiset(chain) == multiset(loops) && Chain(chain, q, total)
    ensures total > 0 && Interleaved(loops, total).Some?
    ensures var os := Interleaved(loops, total).value;
            os != [] && exists printed ::
              Explains(printed, os) && Product(printed) == total && ExportText(os) == LoopText(printed)
  {
    hide LoopText, ExportText, Completed, Repairable, Index;
    ChainedInterleaved(loops, chain, q, total);
    ChainCompleted(loops, chain, q, total);
    var (os, all) := (Interleaved(loops, total).value, Completed(loops, total));
    var c := if q == 1 then chain else [Loop(1, q)] + chain;
    assert q != 1 ==> c[1..] == chain && 1 * q == q;
    LoopsAreFound(os, all, c);
  }

  /** The loops of level names chain from the deepest level up. */
  lemma {:induction false} NamedChain(depths: seq<nat>, w: seq<nat>, total: nat) returns (chain: seq<Loop>)
    requires Named(depths, w, total) && Distinct(depths)
    ensures var m := Above(depths, |w|);
            && m < |w| && w[m] > 0 && total / w[m] > 0
            && multiset(chain) == multiset(NamedLoops(depths, w, total)) && Chain(chain, total / w[m], total)
    decreases |depths|
  {
    DeepestDivides(depths, w, total);
    if depths == [] {
      AboveUnique(depths, |w|, 0);
      assert total / 1 == total;
      chain := [];
    } else {
      hide Above, NamedLoop, NamedLoops, Named, Distinct;
      var m := Above(depths, |w|);
      DeepestNamed(depths, w, total);
      var k := IndexOf(depths, m);
      WithoutDeepest(depths, w, total, k);
      var rest := NamedChain(Without(depths, k), w, total);
      var loops := NamedLoops(depths, w, total);
      NamedStep(depths, w, total, k);
      WithoutElements(loops, k);
      chain := [loops[k]] + rest;
      assert chain[1..] == rest;
    }
  }

  lemma NamedStep(depths: seq<nat>, w: seq<nat>, total: nat, k: nat)
    requires Named(depths, w, total) && k < |depths|
    ensures |NamedLoops(depths, w, total)| == |depths| && depths[k] < |w| && w[depths[k]] > 0
    ensures var (l, p) := (NamedLoops(depths, w, total)[k], Above(depths, depths[k]));
            p < |w| && w[p] > 0 && l.step == total / w[depths[k]] && l.step * l.nb == total / w[p]
  {
    hide Above;
    NamedLoopUsable(depths, w, total, depths[k]);
  }

  /** What is imported from level names is exported as loops. */
  lemma NamedIsFound(depths: seq<nat>, w: seq<nat>, total: nat)
    requires Named(depths, w, total) && Distinct(depths)
    ensures total > 0 && Interleaved(NamedLoops(depths, w, total), total).Some?
    ensures var os := Interleaved(NamedLoops(depths, w, total), total).value;
            os != [] && exists printed ::
              Explains(printed, os) && Product(printed) == total && ExportText(os) == LoopText(printed)
  {
    hide LoopText, ExportText, NamedLoops, Explains, Interleaved, Above, Named, Distinct;
    var chain := NamedChain(depths, w, total);
    ImportedIsFound(NamedLoops(depths, w, total), chain, total / w[Above(depths, |w|)], total);
  }
}

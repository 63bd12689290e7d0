/** Loops of a synthetic topology that are written by hand: when they permute the indexes. */
module Chains {
  import opened Arithmetic
  import opened Interleaving
  import opened Options
  import opened Permutations
  import opened Synthetic

  /** Each step is the step before it times its width, from one bound to the other. */
  predicate Chain(chain: seq<Loop>, from: nat, to: nat) {
    if chain == [] then from == to
    else chain[0].step == from && Chain(chain[1..], from * chain[0].nb, to)
  }

  lemma {:induction false} ProductOf(a: seq<Loop>, b: seq<Loop>)
    requires multiset(a) == multiset(b)
    ensures Product(a) == Product(b)
  {
    SameLength(a, b);
    if a != [] {
      var j := MatchFirst(a, b);
      ProductOf(a[1..], Without(b, j));
      assert a[1..] == Without(a, 0);
      ProductWithout(a, 0);
      ProductWithout(b, j);
    }
  }

  lemma UsableOf(a: seq<Loop>, b: seq<Loop>)
    requires multiset(a) == multiset(b) && Usable(a)
    ensures Usable(b)
  {
    forall i | 0 <= i < |b| ensures b[i].step > 0 && b[i].nb > 0 {
      assert b[i] in multiset(a);
    }
  }

  lemma Reorder(p: nat, nb: nat, from: nat)
    ensures p * nb * from == p * (from * nb)
  {
    assert nb * from == from * nb;
    assert p * nb * from == p * (nb * from);
  }

  /** What a chain multiplies to. */
  lemma {:induction false} ChainProduct(chain: seq<Loop>, from: nat, to: nat)
    requires Chain(chain, from, to)
    ensures Product(chain) * from == to
    decreases |chain|
  {
    if chain != [] {
      hide Product;
      var nb, rest := chain[0].nb, chain[1..];
      ChainProduct(rest, from * nb, to);
      assert rest == Without(chain, 0);
      ProductWithout(chain, 0);
      Reorder(Product(rest), nb, from);
    }
  }

  /** The first of its steps is the least. */
  lemma {:induction false} ChainSteps(chain: seq<Loop>, from: nat, to: nat)
    requires Usable(chain) && from > 0 && Chain(chain, from, to)
    ensures from <= to && forall i :: 0 <= i < |chain| ==> from <= chain[i].step
    decreases |chain|
  {
    if chain != [] {
      var rest := chain[1..];
      Grow(1, chain[0].nb, from);
      ChainSteps(rest, from * chain[0].nb, to);
      assert forall i :: 1 <= i < |chain| ==> chain[i] == rest[i - 1];
    }
  }

  /** Positions with the same digits have the same quotient by the first step. */
  lemma {:induction false} SameQuotient(chain: seq<Loop>, from: nat, to: nat, j: nat, k: nat)
    requires Usable(chain) && from > 0 && Chain(chain, from, to) && j < to && k < to
    requires forall i :: 0 <= i < |chain| ==> Digit(chain[i], j) == Digit(chain[i], k)
    ensures j / from == k / from
    decreases |chain|
  {
    if chain == [] {
      SmallQuotient(j, to);
      SmallQuotient(k, to);
    } else {
      var rest := chain[1..];
      Grow(1, chain[0].nb, from);
      assert forall i :: 0 <= i < |rest| ==> rest[i] == chain[i + 1];
      SameQuotient(rest, from * chain[0].nb, to, j, k);
      SameAbove(chain[0], j, k);
    }
  }

  /** The repair completes a chain that starts at the width that is missing. */
  lemma ChainCompleted(loops: seq<Loop>, chain: seq<Loop>, q: nat, total: nat)
    requires Usable(loops) && q > 0 && multiset(chain) == multiset(loops) && Chain(chain, q, total)
    ensures Repairable(loops, total) && Usable(Completed(loops, total)) && Product(Completed(loops, total)) == total > 0
    ensures Completed(loops, total) == if q == 1 then loops else loops + [Loop(1, q)]
  {
    UsableOf(loops, chain);
    ChainProduct(chain, q, total);
    ChainSteps(chain, q, total);
    ProductOf(chain, loops);
    forall i | 0 <= i < |loops| ensures q <= loops[i].step {
      assert loops[i] in multiset(chain);
    }
    if chain != [] {
      assert chain[0] in multiset(loops);
    }
    MinStepIs(loops, total, q);
    CompletedBy(loops, total, q);
  }

  lemma ChainInjective(loops: seq<Loop>, chain: seq<Loop>, q: nat, total: nat, j: nat, k: nat)
    requires Usable(loops) && q > 0 && multiset(chain) == multiset(loops) && Chain(chain, q, total)
    requires j < total && k < total && Usable(Completed(loops, total))
    requires Index(Completed(loops, total), j) == Index(Completed(loops, total), k)
    ensures j == k
  {
    hide Completed, Index, Digit, Chain, Usable;
    ChainCompleted(loops, chain, q, total);
    UsableOf(loops, chain);
    var all := Completed(loops, total);
    IndexDeterminesDigits(all, j, k);
    forall i | 0 <= i < |chain|
      ensures exists m :: 0 <= m < |loops| && loops[m] == chain[i] && all[m] == loops[m]
    {
      assert chain[i] in multiset(loops);
    }
    SameQuotient(chain, q, total, j, k);
    LastDigit(j, k, q, if q > 1 then all[|loops|] else Loop(1, 1));
  }

  /** Loops whose steps chain in some order, whatever order they are written in, are accepted and
      permute all positions; the first width may be missing. */
  lemma ChainedInterleaved(loops: seq<Loop>, chain: seq<Loop>, q: nat, total: nat)
    requires Usable(loops) && q > 0 && multiset(chain) == multiset(loops) && Chain(chain, q, total)
    ensures total > 0
    ensures var r := Interleaved(loops, total); r.Some? && |r.value| == total && Permutation(r.value)
  {
    hide Completed, Repairable, Index, Chain;
    ChainCompleted(loops, chain, q, total);
    var all := Completed(loops, total);
    var s := Indexes(all, total);
    forall j | 0 <= j < total ensures s[j] < total {
      IndexBelow(all, j);
    }
    forall j, k | 0 <= j < k < total ensures s[j] != s[k] {
      if s[j] == s[k] {
        ChainInjective(loops, chain, q, total, j, k);
      }
    }
    DistinctIsPermutation(s);
    OnlyZeroFirst(loops, s, total);
  }

  lemma {:induction false} SameDigits(loops: seq<Loop>, j: nat, k: nat)
    requires Usable(loops) && forall i :: 0 <= i < |loops| ==> Digit(loops[i], j) == Digit(loops[i], k)
    ensures Index(loops, j) == Index(loops, k)
  {
    if loops != [] {
      SameDigits(loops[..|loops| - 1], j, k);
    }
  }

  ghost predicate ToldApart(loops: seq<Loop>, j: nat, k: nat)
    requires Usable(loops)
  {
    exists i :: 0 <= i < |loops| && Digit(loops[i], j) != Digit(loops[i], k)
  }

  lemma PermutesExactly(loops: seq<Loop>, total: nat)
    requires Usable(loops) && Product(loops) <= total
    ensures Permutation(Indexes(loops, total)) <==> forall j, k :: 0 <= j < k < total ==> ToldApart(loops, j, k)
  {
    hide Index, Digit;
    var s := Indexes(loops, total);
    forall j, k | 0 <= j < k < total ensures s[j] == s[k] <==> !ToldApart(loops, j, k) {
      if s[j] == s[k] {
        IndexDeterminesDigits(loops, j, k);
      }
      if !ToldApart(loops, j, k) {
        SameDigits(loops, j, k);
      }
    }
    forall j | 0 <= j < total ensures s[j] < total {
      IndexBelow(loops, j);
    }
    if forall j, k :: 0 <= j < k < total ==> ToldApart(loops, j, k) {
      DistinctIsPermutation(s);
    }
  }

  lemma RepairFits(loops: seq<Loop>, total: nat)
    requires Usable(loops) && total > 0 && Repairable(loops, total)
    ensures Usable(Completed(loops, total)) && Product(Completed(loops, total)) <= total
  {
    hide MinStep;
    CompletedUsable(loops, total);
    ProductPositive(loops);
    if Product(loops) != total {
      Append(loops, Loop(1, total / Product(loops)), total);
      assert total / Product(loops) * Product(loops) <= total;
      assert Product(loops) * (total / Product(loops)) == total / Product(loops) * Product(loops);
    }
  }

  ghost predicate ZeroOnce(loops: seq<Loop>, total: nat)
    requires Usable(loops)
  {
    forall j: nat :: 0 < j < total ==> Index(loops, j) != 0
  }

  ghost predicate InRange(loops: seq<Loop>, total: nat)
    requires Usable(loops)
  {
    forall j: nat :: j < total ==> Index(loops, j) < total
  }

  lemma PlausibleIs(loops: seq<Loop>, total: nat)
    requires Usable(loops)
    ensures Plausible(Indexes(loops, total)) <==> InRange(loops, total) && ZeroOnce(loops, total)
  {
    hide Index;
    var s := Indexes(loops, total);
    assert forall j: nat :: j < total ==> s[j] == Index(loops, j);
  }

  /** What the importer accepts: loops that can be repaired and give no position but the first index 0.
      An index out of range, for which it checks as well, is never made. */
  lemma AcceptedExactly(loops: seq<Loop>, total: nat)
    requires Usable(loops) && total > 0
    ensures Product(loops) > 0 && Usable(Completed(loops, total))
    ensures
      var fits := Product(loops) == total || MinStep(loops, total) == total / Product(loops);
      && (Interleaved(loops, total).Some? <==> fits && ZeroOnce(Completed(loops, total), total))
      && (fits ==> InRange(Completed(loops, total), total))
  {
    hide Completed, Index, Plausible, ZeroOnce;
    CompletedUsable(loops, total);
    ProductPositive(loops);
    var all := Completed(loops, total);
    PlausibleIs(all, total);
    if Repairable(loops, total) {
      RepairFits(loops, total);
      forall j: nat | j < total ensures Index(all, j) < total {
        IndexBelow(all, j);
      }
    }
  }

  /** Loops give every position an index of its own exactly when they can be repaired and some digit
      tells any two positions apart; the checks at the end are then passed. */
  lemma LoopsPermuteExactly(loops: seq<Loop>, total: nat)
    requires Usable(loops) && total > 0
    ensures Usable(Completed(loops, total))
    ensures
      Interleaved(loops, total).Some? && Permutation(Interleaved(loops, total).value) <==>
        Repairable(loops, total) && forall j, k :: 0 <= j < k < total ==> ToldApart(Completed(loops, total), j, k)
  {
    hide Completed, Repairable, Plausible, ToldApart, Permutation;
    CompletedUsable(loops, total);
    if Repairable(loops, total) {
      var all := Completed(loops, total);
      RepairFits(loops, total);
      PermutesExactly(all, total);
      if Permutation(Indexes(all, total)) {
        OnlyZeroFirst(loops, Indexes(all, total), total);
      }
    }
  }

  /** Steps need not chain for that: the digits of 1*2:1*3 are two remainders, which tell 6 positions
      apart. */
  lemma RemaindersPermute()
    ensures var loops := [Loop(1, 2), Loop(1, 3)];
            Usable(loops) && Interleaved(loops, 6) == Some([0, 3, 4, 1, 2, 5])
  {
    var loops := [Loop(1, 2), Loop(1, 3)];
    var one := loops[..1];
    assert one == [Loop(1, 2)] && one[..0] == [] && Product(one) == 2 && Product(loops) == 6;
    assert Indexes(loops, 6) == [0, 3, 4, 1, 2, 5] by {
      forall j: nat ensures Index(loops, j) == j % 2 + j % 3 * 2 {
        assert Index(one, j) == j / 1 % 2 == j % 2;
      }
    }
  }
}

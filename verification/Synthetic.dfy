/** The `indexes` attribute of a synthetic topology level: the text that exports the physical
    indexes of a level, and the array that importing such a text gives. */
module Synthetic {
  import opened CText
  import opened Arithmetic
  import opened Interleaving
  import opened Options

  /** Conversion to `unsigned`. */
  function U32(i: int): nat {
    i % 0x1_0000_0000
  }

  // Importing

  /** An array that the sanity checks at the end let through: no index is too large, and none but
      the first is zero. */
  predicate Plausible(s: seq<nat>) {
    forall j :: 0 <= j < |s| ==> s[j] < |s| && (s[j] == 0 ==> j == 0)
  }

  lemma CompletedUsable(loops: seq<Loop>, total: nat)
    requires Usable(loops) && total > 0
    ensures Usable(Completed(loops, total))
  {
    MinStepAtLeast(loops, total, 1);
  }

  /** What the loops of a text, or of level names, are made into. */
  function Interleaved(loops: seq<Loop>, total: nat): Option<seq<nat>>
    requires Usable(loops) && total > 0
  {
    CompletedUsable(loops, total);
    var s := Indexes(Completed(loops, total), total);
    if Repairable(loops, total) && Plausible(s) then Some(s) else None
  }

  /** From the loops to the array: the repair, the filling and the sanity checks. */
  method Generate(loops: seq<Loop>, minstep: nat, nbs: nat, total: nat) returns (r: array?<nat>)
    requires Usable(loops) && total > 0 && minstep == MinStep(loops, total) && nbs == Product(loops)
    ensures r == null <==> Interleaved(loops, total) == None
    ensures r != null ==> fresh(r) && Interleaved(loops, total) == Some(r[..])
  {
    ProductPositive(loops);
    var all := loops;
    if nbs != total {
      if minstep == total / nbs {
        all := all + [Loop(1, total / nbs)];
      } else {
        return null;
      }
    }
    CompletedUsable(loops, total);
    assert all == Completed(loops, total);
    var a := Fill(all, total);
    assert a[..] == Indexes(all, total);
    for j := 0 to total
      invariant forall k :: 0 <= k < j ==> a[k] < total && (a[k] == 0 ==> k == 0)
    {
      if a[j] >= total || (a[j] == 0 && j != 0) {
        return null;
      }
    }
    r := a;
  }

  lemma NoLoops(total: nat)
    ensures MinStep([], total) == total
  {
  }

  lemma Append(loops: seq<Loop>, l: Loop, total: nat)
    ensures Product(loops + [l]) == Product(loops) * l.nb
    ensures MinStep(loops + [l], total) == if l.step < MinStep(loops, total) then l.step else MinStep(loops, total)
  {
    assert (loops + [l])[..|loops|] == loops;
  }

  method OneLoop(depths: seq<nat>, w: seq<nat>, total: nat, cur: nat, prev: nat) returns (l: Loop)
    requires Named(depths, w, total) && cur < |depths| && prev == Above(depths, depths[cur])
    ensures l == NamedLoops(depths, w, total)[cur]
  {
    l := Loop(Per(total, w[depths[cur]]), Per(w[depths[cur]], w[prev]));
  }

  /** The loops of level depths, with their smallest step and the product of their widths. */
  method ComputeLoops(depths: seq<nat>, w: seq<nat>, total: nat)
      returns (ok: bool, loops: seq<Loop>, minstep: nat, nbs: nat)
    requires Named(depths, w, total)
    ensures ok <==> Distinct(depths)
    ensures ok ==> loops == NamedLoops(depths, w, total) && minstep == MinStep(loops, total) && nbs == Product(loops)
  {
    hide Named, Widths, NamedLoop, Above, MinStep;
    loops, minstep, nbs := [], total, 1;
    assert MinStep([], total) == total by {
      NoLoops(total);
    }
    ghost var want := NamedLoops(depths, w, total);
    for cur := 0 to |depths|
      invariant loops == want[..cur] && minstep == MinStep(loops, total) && nbs == Product(loops)
      invariant forall i, j :: 0 <= i < cur && 0 <= j < |depths| && i != j ==> depths[i] != depths[j]
    {
      var unique, prev := FindAbove(depths, cur);
      if !unique {
        return false, [], 0, 0;
      }
      var l := OneLoop(depths, w, total, cur, prev);
      assert want[..cur + 1] == loops + [l];
      Append(loops, l, total);
      loops := loops + [l];
      if l.step < minstep {
        minstep := l.step;
      }
      nbs := nbs * l.nb;
    }
    assert loops == want;
    ok := true;
  }

  /** What named loops are made into is a permutation that passes the sanity checks. */
  lemma NamedInterleaved(depths: seq<nat>, w: seq<nat>, total: nat)
    requires Named(depths, w, total) && Distinct(depths)
    ensures var r := Interleaved(NamedLoops(depths, w, total), total);
            r.Some? && |r.value| == total && Permutation(r.value)
  {
    hide NamedLoops, Named, Widths, Completed, Repairable;
    assert total > 0 by {
      PositiveTotal(depths, w, total);
    }
    var want := NamedLoops(depths, w, total);
    NamedCompleted(depths, w, total);
    NamedPermutation(depths, w, total);
    OnlyZeroFirst(want, Indexes(Completed(want, total), total), total);
  }

  lemma PositiveTotal(depths: seq<nat>, w: seq<nat>, total: nat)
    requires Named(depths, w, total)
    ensures total > 0
  {
  }

  /** The branch for level names, once the names are looked up: loops from the level depths. */
  method ImportNamed(depths: seq<nat>, w: seq<nat>, total: nat) returns (r: array?<nat>)
    requires Named(depths, w, total)
    ensures r == null <==> !Distinct(depths)
    ensures r != null ==> fresh(r) && r.Length == total && Permutation(r[..])
    ensures r != null ==> Interleaved(NamedLoops(depths, w, total), total) == Some(r[..])
  {
    var ok, loops, minstep, nbs := ComputeLoops(depths, w, total);
    if !ok {
      return null;
    }
    NamedInterleaved(depths, w, total);
    r := Generate(loops, minstep, nbs, total);
  }

  /** The inner loop over the other names. */
  method FindAbove(depths: seq<nat>, cur: nat) returns (unique: bool, prev: nat)
    requires cur < |depths|
    ensures unique <==> forall i :: 0 <= i < |depths| && i != cur ==> depths[i] != depths[cur]
    ensures unique ==> prev == Above(depths, depths[cur])
  {
    prev := 0;
    for i := 0 to |depths|
      invariant prev == Above(depths[..i], depths[cur])
      invariant forall k :: 0 <= k < i && k != cur ==> depths[k] != depths[cur]
    {
      if depths[i] == depths[cur] && i != cur {
        return false, 0;
      }
      assert depths[..i + 1][..i] == depths[..i];
      if depths[i] < depths[cur] && depths[i] > prev {
        prev := depths[i];
      }
    }
    assert depths[..|depths|] == depths;
    unique := true;
  }

  /** A permutation that starts with zero passes the sanity checks. */
  lemma OnlyZeroFirst(loops: seq<Loop>, s: seq<nat>, total: nat)
    requires Usable(loops) && total > 0 && Usable(Completed(loops, total))
    requires s == Indexes(Completed(loops, total), total) && Permutation(s)
    ensures Plausible(s)
  {
    ZeroIndex(Completed(loops, total));
  }

  lemma {:induction false} ZeroIndex(loops: seq<Loop>)
    requires Usable(loops)
    ensures Index(loops, 0) == 0
  {
    if loops != [] {
      var last := loops[|loops| - 1];
      ZeroIndex(loops[..|loops| - 1]);
      SmallQuotient(0, last.step);
      SmallQuotient(0, last.nb);
    }
  }

  /** Loops that are not named by levels can pass all checks and still repeat an index:
      1*2:3*2:2*2 gives 4 twice. */
  lemma LoopsMayRepeat()
    ensures var loops := [Loop(1, 2), Loop(3, 2), Loop(2, 2)];
            Usable(loops) && Interleaved(loops, 8) == Some([0, 1, 4, 7, 2, 3, 4, 5])
  {
    var loops := [Loop(1, 2), Loop(3, 2), Loop(2, 2)];
    var two := loops[..2];
    assert two == [Loop(1, 2), Loop(3, 2)] && two[..1] == [Loop(1, 2)] && two[..1][..0] == [];
    assert Product(two) == 4 && Product(two[..1]) == 2;
    assert Product(loops) == 8;
    assert Indexes(loops, 8) == [0, 1, 4, 7, 2, 3, 4, 5] by {
      forall j: nat ensures Index(loops, j) == j % 2 + j / 3 % 2 * 2 + j / 2 % 2 * 4 {
        assert Index(two[..1], j) == j / 1 % 2 == j % 2;
        assert Index(two, j) == j % 2 + j / 3 % 2 * 2;
      }
    }
  }
}

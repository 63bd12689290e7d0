/** Exporting the physical indexes of a level, as loops where the indexes allow it. */
module SyntheticExport {
  import opened CText
  import opened Arithmetic
  import opened Interleaving
  import opened Synthetic
  import opened SyntheticText
  import opened Options

  /** The first position from i on that holds a value, or the length. */
  function Find(os: seq<nat>, v: nat, i: nat): (r: nat)
    requires i <= |os|
    ensures i <= r <= |os| && (r < |os| ==> os[r] == v)
    decreases |os| - i
  {
    if i < |os| && os[i] != v then Find(os, v, i + 1) else i
  }

  lemma InBounds(i: nat, j: nat, total: nat)
    requires i > 0 && j < total / i
    ensures i * j < total
  {
    var q := total / i;
    assert total == q * i + total % i;
    Grow(j + 1, q, i);
    assert (j + 1) * i == i * j + i;
  }

  /** How often the step continues at multiples of position i, counting from j on. */
  function Run(os: seq<nat>, i: nat, step: nat, j: nat): (r: nat)
    requires i > 0
    ensures j <= r && (j < r ==> r <= |os| / i)
    decreases |os| / i - j
  {
    if j < |os| / i then
      InBounds(i, j, |os|);
      if os[i * j] == step * j then Run(os, i, step, j + 1) else j
    else j
  }

  /** The search for loops; it ends because the step at least doubles. */
  function Search(os: seq<nat>, step: nat, done: seq<Loop>): (r: Option<seq<Loop>>)
    requires os != [] && step > 0
    decreases if step < |os| then |os| - step else 0
  {
    var total := |os|;
    if step == total then Some(done)
    else if total % step != 0 then None
    else
      DividesBelow(total, step);
      var i := Find(os, step, 1);
      if i == total then None
      else
        var j := Run(os, i, step, 2);
        Grow(2, j, step);
        Search(os, step * j, done + [Loop(i, j)])
  }

  lemma DividesBelow(total: nat, step: nat)
    requires total > 0 && step > 0 && step != total && total % step == 0
    ensures step < total
  {
    if step > total {
      SmallQuotient(total, step);
    }
  }

  function LoopText(loops: seq<Loop>): string {
    if loops == [] then ""
    else Dec(loops[0].step) + ['*'] + (Dec(loops[0].nb) + [if |loops| == 1 then ')' else ':'] + LoopText(loops[1..]))
  }

  function ListText(os: seq<nat>): string {
    if os == [] then "" else Dec(os[0]) + [if |os| == 1 then ')' else ','] + ListText(os[1..])
  }

  /** Whether loops give the indexes of a level. */
  predicate Explains(loops: seq<Loop>, os: seq<nat>) {
    Usable(loops) && forall i :: 0 <= i < |os| ==> os[i] == Index(loops, i)
  }

  /** The text that exporting a level gives. */
  function ExportText(os: seq<nat>): string
    requires os != []
  {
    var loops := Search(os, 1, []);
    if os[0] == 0 && loops.Some? && Explains(loops.value, os) then LoopText(loops.value) else ListText(os)
  }

  method FindLoops(os: seq<nat>) returns (ok: bool, loops: seq<Loop>)
    requires os != []
    ensures ok <==> Search(os, 1, []).Some?
    ensures ok ==> Search(os, 1, []) == Some(loops)
  {
    hide Run, Find;
    var total := |os|;
    var step: nat := 1;
    loops := [];
    ghost var goal := Search(os, 1, []);
    while step != total
      invariant step > 0 && Search(os, step, loops) == goal
      decreases if step < total then total - step else 0
    {
      if total % step != 0 {
        return false, [];
      }
      DividesBelow(total, step);
      var i := FindStep(os, step);
      if i == total {
        return false, [];
      }
      var j := FindRun(os, i, step);
      Grow(2, j, step);
      loops := loops + [Loop(i, j)];
      step := step * j;
    }
    ok := true;
  }

  /** The loop that looks for an index. */
  method FindStep(os: seq<nat>, step: nat) returns (i: nat)
    requires os != []
    ensures i == Find(os, step, 1)
  {
    i := 1;
    while i < |os| && os[i] != step
      invariant 1 <= i <= |os| && Find(os, step, i) == Find(os, step, 1)
    {
      i := i + 1;
    }
  }

  method FindRun(os: seq<nat>, i: nat, step: nat) returns (j: nat)
    requires i > 0
    ensures j == Run(os, i, step, 2)
  {
    j := 2;
    while j < |os| / i
      invariant 2 <= j && Run(os, i, step, j) == Run(os, i, step, 2)
    {
      InBounds(i, j, |os|);
      if os[i * j] != step * j {
        return;
      }
      j := j + 1;
    }
  }

  /** The check of found loops against all indexes. */
  method CheckLoops(os: seq<nat>, loops: seq<Loop>) returns (ok: bool)
    requires Usable(loops)
    ensures ok <==> Explains(loops, os)
  {
    for i := 0 to |os|
      invariant forall k :: 0 <= k < i ==> os[k] == Index(loops, k)
    {
      var ind, mul := 0, 1;
      for j := 0 to |loops|
        invariant mul == Product(loops[..j]) && ind == Index(loops[..j], i)
      {
        assert loops[..j + 1][..j] == loops[..j];
        ind := ind + i / loops[j].step % loops[j].nb * mul;
        mul := mul * loops[j].nb;
      }
      assert loops[..|loops|] == loops;
      if os[i] != ind {
        return false;
      }
    }
    ok := true;
  }

  /** The loops that the search finds are small, and their widths multiply to the length. */
  lemma {:induction false} SearchFinds(os: seq<nat>, step: nat, done: seq<Loop>)
    requires os != [] && step > 0 && Usable(done) && Product(done) == step
    requires forall k :: 0 <= k < |done| ==> done[k].step <= |os| && done[k].nb <= |os|
    ensures var r := Search(os, step, done);
            r.Some? ==>
              && Usable(r.value) && Product(r.value) == |os|
              && (forall k :: 0 <= k < |r.value| ==> r.value[k].step <= |os| && r.value[k].nb <= |os|)
    decreases if step < |os| then |os| - step else 0
  {
    hide Run, Find, Product;
    var total := |os|;
    if step != total && total % step == 0 {
      DividesBelow(total, step);
      var i := Find(os, step, 1);
      if i < total {
        var l := Loop(i, Run(os, i, step, 2));
        RunBelow(os, i, step);
        Grow(2, l.nb, step);
        Append(done, l, total);
        SearchFinds(os, step * l.nb, done + [l]);
      }
    }
  }

  lemma RunBelow(os: seq<nat>, i: nat, step: nat)
    requires 0 < i < |os|
    ensures 2 <= Run(os, i, step, 2) <= |os|
  {
    var q := |os| / i;
    assert |os| == q * i + |os| % i;
    Grow(1, i, q);
  }

  /** hwloc__export_synthetic_indexes, into a buffer that is large enough. */
  method Export(os: seq<nat>) returns (text: string)
    requires os != []
    ensures text == ExportText(os)
  {
    hide Search, LoopText, ListText, Explains;
    SearchFinds(os, 1, []);
    if os[0] == 0 {
      var ok, loops := FindLoops(os);
      if ok {
        var fits := CheckLoops(os, loops);
        if fits {
          text := PrintLoops(loops);
          return;
        }
      }
    }
    text := PrintList(os);
  }

  method PrintLoops(loops: seq<Loop>) returns (text: string)
    ensures text == LoopText(loops)
  {
    text := "";
    for j := 0 to |loops|
      invariant text + LoopText(loops[j..]) == LoopText(loops)
    {
      var field, width := Dec(loops[j].step) + ['*'], Dec(loops[j].nb) + [if j == |loops| - 1 then ')' else ':'];
      ghost var rest := LoopText(loops[j + 1..]);
      assert loops[j..][1..] == loops[j + 1..];
      Associative(text, field, width + rest);
      Associative(text + field, width, rest);
      text := text + field + width;
    }
  }

  method PrintList(os: seq<nat>) returns (text: string)
    ensures text == ListText(os)
  {
    text := "";
    for j := 0 to |os|
      invariant text + ListText(os[j..]) == ListText(os)
    {
      var piece := Dec(os[j]) + [if j == |os| - 1 then ')' else ','];
      assert os[j..][1..] == os[j + 1..];
      Associative(text, piece, ListText(os[j + 1..]));
      text := text + piece;
    }
  }
}

/** Which cells make up the PCI tree in memory, and that no cell is in two places of it. */
module PciShapes {
  import opened PciTree

  class Cell {
    const obj: Obj
    var next: Cell?
    var child: Cell?
    var parent: Cell?

    constructor (obj: Obj)
      ensures this.obj == obj && next == null && child == null && parent == null
    {
      this.obj, next, child, parent := obj, null, null, null;
    }
  }

  /** Which cells make up a list of siblings, with all that is below them. */
  datatype Shape = Shape(cell: Cell, kids: seq<Shape>)

  ghost function CellsOf(s: Shape): (r: set<Cell>)
    ensures s.cell in r && Cells(s.kids) <= r
    decreases s
  {
    {s.cell} + Cells(s.kids)
  }

  ghost function Cells(f: seq<Shape>): (r: set<Cell>)
    ensures forall i :: 0 <= i < |f| ==> CellsOf(f[i]) <= r
    decreases f
  {
    if f == [] then {}
    else
      assert forall i :: 1 <= i < |f| ==> f[i] == f[1..][i - 1];
      CellsOf(f[0]) + Cells(f[1..])
  }

  ghost predicate Clear(s: Shape, t: Shape) {
    CellsOf(s) !! CellsOf(t)
  }

  ghost predicate Own(s: Shape)
    decreases s
  {
    s.cell !in Cells(s.kids) && Once(s.kids)
  }

  /** No cell is in two places. */
  ghost predicate Once(f: seq<Shape>)
    decreases f
  {
    (forall i :: 0 <= i < |f| ==> Own(f[i])) && forall i, j :: 0 <= i < j < |f| ==> Clear(f[i], f[j])
  }

  function After(row: seq<Cell>, i: nat, end: Cell?): Cell? {
    if i + 1 < |row| then row[i + 1] else end
  }

  function Head(row: seq<Cell>, end: Cell?): Cell? {
    if row == [] then end else row[0]
  }

  function Tail(row: seq<Cell>): Cell? {
    if row == [] then null else row[|row| - 1]
  }

  lemma TailIn(row: seq<Cell>)
    ensures Tail(row) != null ==> Tail(row) in row
  {
  }

  lemma TailIs(row: seq<Cell>, cur: Cell)
    ensures Tail(row + [cur]) == cur
  {
  }

  ghost predicate Single(row: seq<Cell>) {
    forall i, j :: 0 <= i < j < |row| ==> row[i] != row[j]
  }

  ghost predicate Other(a: seq<Cell>, b: seq<Cell>) {
    forall i, j :: 0 <= i < |a| && 0 <= j < |b| ==> a[i] != b[j]
  }

  ghost predicate Within(a: seq<Cell>, row: seq<Cell>) {
    forall i :: 0 <= i < |a| ==> a[i] in row
  }

  function Maybe(c: Cell?): set<Cell> {
    if c == null then {} else {c}
  }

  function RowOf(f: seq<Shape>): (r: seq<Cell>)
    ensures |r| == |f| && forall i :: 0 <= i < |f| ==> r[i] == f[i].cell
  {
    seq(|f|, i requires 0 <= i < |f| => f[i].cell)
  }

  function NodeOf(s: Shape): Node
    decreases s
  {
    Node(s.cell.obj, Nodes(s.kids))
  }

  function Nodes(f: seq<Shape>): (r: seq<Node>)
    ensures |r| == |f| && forall i :: 0 <= i < |f| ==> r[i] == NodeOf(f[i])
    decreases f
  {
    seq(|f|, i requires 0 <= i < |f| => NodeOf(f[i]))
  }

  lemma NodeObj(s: Shape)
    ensures NodeOf(s).obj == s.cell.obj
  {
  }

  lemma NodeIs(x: Cell, under: seq<Shape>)
    ensures Nodes([Shape(x, under)]) == [Node(x.obj, Nodes(under))]
  {
  }

  lemma NodesJoin(f: seq<Shape>, g: seq<Shape>)
    ensures Nodes(f + g) == Nodes(f) + Nodes(g)
  {
  }

  lemma RowsJoin(f: seq<Shape>, g: seq<Shape>)
    ensures RowOf(f + g) == RowOf(f) + RowOf(g)
  {
  }

  lemma NodesPart(f: seq<Shape>, i: nat)
    requires i <= |f|
    ensures Nodes(f[i..]) == Nodes(f)[i..] && Nodes(f[..i]) == Nodes(f)[..i]
  {
  }

  // Which cells are where

  lemma {:induction false} InCells(f: seq<Shape>, c: Cell) returns (i: nat)
    requires c in Cells(f)
    ensures i < |f| && c in CellsOf(f[i])
    decreases |f|
  {
    hide CellsOf;
    if c in CellsOf(f[0]) {
      i := 0;
    } else {
      i := InCells(f[1..], c);
      i := i + 1;
    }
  }

  lemma SameCells(f: seq<Shape>, g: seq<Shape>)
    requires forall i :: 0 <= i < |f| ==> f[i] in g
    requires forall i :: 0 <= i < |g| ==> g[i] in f
    ensures Cells(f) == Cells(g)
  {
    hide CellsOf, Cells;
    forall c | c in Cells(f) ensures c in Cells(g) {
      var i := InCells(f, c);
      var j :| 0 <= j < |g| && g[j] == f[i];
    }
    forall c | c in Cells(g) ensures c in Cells(f) {
      var i := InCells(g, c);
      var j :| 0 <= j < |f| && f[j] == g[i];
    }
  }

  lemma {:induction false} CellsJoin(f: seq<Shape>, g: seq<Shape>)
    ensures Cells(f + g) == Cells(f) + Cells(g)
    decreases |f|
  {
    hide CellsOf;
    if f == [] {
      assert f + g == g;
    } else {
      assert (f + g)[1..] == f[1..] + g && (f + g)[0] == f[0];
      CellsJoin(f[1..], g);
    }
  }

  lemma ClearBack(s: Shape, t: Shape)
    ensures Clear(s, t) ==> Clear(t, s)
  {
  }

  ghost predicate ClearOf(f: seq<Shape>, g: seq<Shape>) {
    forall i, j :: 0 <= i < |f| && 0 <= j < |g| ==> Clear(f[i], g[j])
  }

  lemma AllClear(f: seq<Shape>, g: seq<Shape>)
    ensures Cells(f) !! Cells(g) <==> ClearOf(f, g)
  {
    hide CellsOf, Cells;
    if c :| c in Cells(f) && c in Cells(g) {
      var i := InCells(f, c);
      var j := InCells(g, c);
      assert !Clear(f[i], g[j]);
    } else {
      forall i, j | 0 <= i < |f| && 0 <= j < |g| ensures Clear(f[i], g[j]) {
        assert CellsOf(f[i]) <= Cells(f) && CellsOf(g[j]) <= Cells(g);
      }
    }
  }

  lemma OnceParts(f: seq<Shape>, g: seq<Shape>)
    requires Once(f + g)
    ensures Once(f) && Once(g) && ClearOf(f, g)
  {
    hide Own, Clear;
    var all := f + g;
    assert forall i :: 0 <= i < |f| ==> all[i] == f[i];
    forall i | 0 <= i < |g| ensures all[|f| + i] == g[i] && Own(g[i]) {
    }
    forall i, j | 0 <= i < j < |g| ensures Clear(g[i], g[j]) {
      assert Clear(all[|f| + i], all[|f| + j]);
    }
    forall i, j | 0 <= i < |f| && 0 <= j < |g| ensures Clear(f[i], g[j]) {
      assert Clear(all[i], all[|f| + j]);
    }
  }

  lemma OnceWhole(f: seq<Shape>, g: seq<Shape>)
    requires Once(f) && Once(g) && ClearOf(f, g)
    ensures Once(f + g)
  {
    hide Own, Clear;
    var all := f + g;
    forall i | 0 <= i < |all| ensures Own(all[i]) {
      assert all[i] == if i < |f| then f[i] else g[i - |f|];
    }
    forall i, j | 0 <= i < j < |all| ensures Clear(all[i], all[j]) {
      assert all[i] == if i < |f| then f[i] else g[i - |f|];
      assert all[j] == if j < |f| then f[j] else g[j - |f|];
    }
  }

  lemma OnceJoin(f: seq<Shape>, g: seq<Shape>)
    ensures Once(f + g) <==> Once(f) && Once(g) && Cells(f) !! Cells(g)
  {
    hide Once, ClearOf, Cells;
    AllClear(f, g);
    if Once(f + g) {
      OnceParts(f, g);
    }
    if Once(f) && Once(g) && ClearOf(f, g) {
      OnceWhole(f, g);
    }
  }

  lemma OnceRow(g: seq<Shape>)
    requires Once(g)
    ensures Single(RowOf(g))
  {
    forall i, j | 0 <= i < j < |g| ensures g[i].cell != g[j].cell {
      assert g[i].cell in CellsOf(g[i]) && g[j].cell in CellsOf(g[j]);
    }
  }

  lemma TopsOnce(f: seq<Shape>)
    requires Once(f)
    ensures Single(RowOf(f))
    ensures forall c :: c in RowOf(f) ==> c in Cells(f)
    ensures forall i, c :: 0 <= i < |f| && c in Cells(f[i].kids) ==> c in Cells(f) && c !in RowOf(f)
  {
    hide CellsOf, Cells;
    OnceRow(f);
    forall i, c | 0 <= i < |f| && c in Cells(f[i].kids) ensures c in Cells(f) && c !in RowOf(f) {
      assert Cells(f[i].kids) <= CellsOf(f[i]) <= Cells(f);
      forall j | 0 <= j < |f| ensures c != f[j].cell {
        assert if i == j then Own(f[i]) else if i < j then Clear(f[i], f[j]) else Clear(f[j], f[i]);
      }
    }
    forall c | c in RowOf(f) ensures c in Cells(f) {
      var i :| 0 <= i < |f| && RowOf(f)[i] == c;
      assert c in CellsOf(f[i]) && CellsOf(f[i]) <= Cells(f);
    }
  }

  lemma OneMore(x: Cell, under: seq<Shape>)
    ensures Cells([Shape(x, under)]) == {x} + Cells(under)
    ensures Once([Shape(x, under)]) <==> x !in Cells(under) && Once(under)
  {
  }

  /** All of the siblings, in another order. */
  ghost predicate Shuffled(f: seq<Shape>, g: seq<Shape>) {
    && Single(RowOf(g))
    && (forall i :: 0 <= i < |f| ==> f[i] in g)
    && (forall i :: 0 <= i < |g| ==> g[i] in f)
  }

  lemma ShuffledOnce(f: seq<Shape>, g: seq<Shape>)
    requires Once(f) && Shuffled(f, g)
    ensures Once(g) && Cells(f) == Cells(g)
  {
    hide CellsOf, Cells, Own, Clear;
    forall i, j | 0 <= i < j < |g| ensures Clear(g[i], g[j]) {
      var a :| 0 <= a < |f| && f[a] == g[i];
      var b :| 0 <= b < |f| && f[b] == g[j];
      assert RowOf(g)[i] != RowOf(g)[j];
      ClearBack(f[b], f[a]);
    }
    forall i | 0 <= i < |g| ensures Own(g[i]) {
      var a :| 0 <= a < |f| && f[a] == g[i];
    }
    SameCells(f, g);
  }

  /** A new object above some siblings. */
  lemma Wrapped(pre: seq<Shape>, x: Cell, under: seq<Shape>, stay: seq<Shape>)
    requires Once(pre + under + stay) && x !in Cells(pre + under + stay)
    ensures var r := pre + [Shape(x, under)] + stay; Once(r) && Cells(r) == Cells(pre + under + stay) + {x}
  {
    hide Cells, Once;
    OneMore(x, under);
    OnceJoin(pre, under);
    OnceJoin(pre + under, stay);
    OnceJoin(pre, [Shape(x, under)]);
    OnceJoin(pre + [Shape(x, under)], stay);
    CellsJoin(pre, under);
    CellsJoin(pre + under, stay);
    CellsJoin(pre, [Shape(x, under)]);
    CellsJoin(pre + [Shape(x, under)], stay);
  }

  /** A sibling with other cells below it. */
  lemma OnceBelow(f: seq<Shape>, i: nat, kids: seq<Shape>, x: Cell)
    requires Once(f) && i < |f| && x !in Cells(f) && Once(kids)
      && Cells(f[i].kids) <= Cells(kids) <= Cells(f[i].kids) + {x}
    ensures var r := f[i := Shape(f[i].cell, kids)]; Once(r) && Cells(f) <= Cells(r) <= Cells(f) + {x}
    ensures f[i].cell !in Cells(kids) && x != f[i].cell && f[i].cell in Cells(f) && Cells(f[i].kids) <= Cells(f)
  {
    hide Once, Cells;
    var one, one', pre, rest := [f[i]], [Shape(f[i].cell, kids)], f[..i], f[i + 1..];
    assert f == pre + one + rest && f[i := Shape(f[i].cell, kids)] == pre + one' + rest;
    assert one == [Shape(f[i].cell, f[i].kids)];
    OneMore(f[i].cell, f[i].kids);
    OneMore(f[i].cell, kids);
    OnceJoin(pre, one);
    OnceJoin(pre + one, rest);
    CellsJoin(pre, one);
    CellsJoin(pre + one, rest);
    OnceJoin(pre, one');
    OnceJoin(pre + one', rest);
    CellsJoin(pre, one');
    CellsJoin(pre + one', rest);
  }

  // Sifting, without its links

  /** Three rows that have no cell twice. */
  ghost predicate Separate(u: seq<Cell>, s: seq<Cell>, rest: seq<Cell>) {
    Single(u) && Single(s) && Single(rest) && Other(u, s) && Other(u, rest) && Other(s, rest)
  }

  lemma SeparateFirst(u: seq<Cell>, s: seq<Cell>, rest: seq<Cell>)
    requires Separate(u, s, rest) && rest != []
    ensures Single(rest[1..]) && Other(u, rest[1..]) && Other(s, rest[1..])
    ensures rest[0] !in u && rest[0] !in s && rest[0] !in rest[1..]
  {
    assert forall i :: 0 <= i < |rest| - 1 ==> rest[1..][i] == rest[i + 1];
  }

  lemma SeparateMove(u: seq<Cell>, s: seq<Cell>, rest: seq<Cell>)
    requires Separate(u, s, rest) && rest != []
    ensures Separate(u + [rest[0]], s, rest[1..]) && Separate(u, s + [rest[0]], rest[1..])
  {
    SeparateFirst(u, s, rest);
  }

  lemma SeparateAll(u: seq<Cell>, s: seq<Cell>, rest: seq<Cell>)
    requires Separate(u, s, rest)
    ensures Separate(u, s + rest, [])
  {
  }

  /** The first siblings divided into two lists. */
  ghost predicate Parted(g: seq<Shape>, j: nat, under: seq<Shape>, stay: seq<Shape>) {
    && j <= |g|
    && (forall i :: 0 <= i < j ==> g[i] in under || g[i] in stay)
    && (forall i :: 0 <= i < |under| ==> under[i] in g)
    && (forall i :: 0 <= i < |stay| ==> stay[i] in g)
  }

  lemma RowsAt(g: seq<Shape>, j: nat, f: seq<Shape>)
    requires j < |g|
    ensures RowOf(f + [g[j]]) == RowOf(f) + [g[j].cell]
    ensures RowOf(g[j..]) != [] && RowOf(g[j..])[0] == g[j].cell && RowOf(g[j..])[1..] == RowOf(g[j + 1..])
    ensures Nodes(f + [g[j]]) == Nodes(f) + [Nodes(g)[j]] && Nodes(g)[j].obj == g[j].cell.obj
  {
    assert Nodes([g[j]]) == [NodeOf(g[j])];
    NodesJoin(f, [g[j]]);
  }

  /** Where the loop of sifting stands at sibling j. */
  ghost predicate Stage(
      g: seq<Shape>, j: nat, x: Obj, under: seq<Shape>, stay: seq<Shape>, u: seq<Cell>, s: seq<Cell>, rest: seq<Cell>)
  {
    && Parted(g, j, under, stay) && u == RowOf(under) && s == RowOf(stay) && rest == RowOf(g[j..])
    && Separate(u, s, rest) && Sifting(Nodes(g), j, x, Nodes(under), Nodes(stay))
  }

  lemma StageStart(g: seq<Shape>, x: Obj)
    requires Single(RowOf(g))
    ensures Stage(g, 0, x, [], [], [], [], RowOf(g))
  {
    hide Sift, NodeOf;
    assert g[0..] == g && Nodes(g)[0..] == Nodes(g) && Nodes([]) == [];
    var (u, s) := Sift(Nodes(g), x);
    assert [] + u == u && [] + s == s;
  }

  lemma StageUnder(
      g: seq<Shape>, j: nat, x: Obj, under: seq<Shape>, stay: seq<Shape>, u: seq<Cell>, s: seq<Cell>, rest: seq<Cell>)
    requires Stage(g, j, x, under, stay, u, s, rest) && rest != [] && Compare(x, rest[0].obj) != Lower
    ensures j < |g| && Stage(g, j + 1, x, under + [g[j]], stay, u + [rest[0]], s, rest[1..])
  {
    hide Sift, Separate, Sifting, Compare, NodeOf;
    RowsAt(g, j, under);
    SeparateMove(u, s, rest);
    SiftStep(Nodes(g), j, x, Nodes(under), Nodes(stay));
  }

  lemma StageStay(
      g: seq<Shape>, j: nat, x: Obj, under: seq<Shape>, stay: seq<Shape>, u: seq<Cell>, s: seq<Cell>, rest: seq<Cell>)
    requires Stage(g, j, x, under, stay, u, s, rest) && rest != []
    requires Compare(x, rest[0].obj) == Lower && !(rest[0].obj.domain > x.domain || rest[0].obj.bus > x.subordinate)
    ensures j < |g| && Stage(g, j + 1, x, under, stay + [g[j]], u, s + [rest[0]], rest[1..])
  {
    hide Sift, Separate, Sifting, Compare, NodeOf;
    RowsAt(g, j, stay);
    SeparateMove(u, s, rest);
    SiftStep(Nodes(g), j, x, Nodes(under), Nodes(stay));
  }

  /** What sifting leaves. */
  ghost predicate Sifted(g: seq<Shape>, x: Obj, under: seq<Shape>, stay: seq<Shape>) {
    && (Nodes(under), Nodes(stay)) == Sift(Nodes(g), x)
    && Parted(g, |g|, under, stay) && Separate(RowOf(under), RowOf(stay), [])
  }

  lemma StageStops(
      g: seq<Shape>, j: nat, x: Obj, under: seq<Shape>, stay: seq<Shape>, u: seq<Cell>, s: seq<Cell>, rest: seq<Cell>)
    requires Stage(g, j, x, under, stay, u, s, rest) && rest != []
    requires Compare(x, rest[0].obj) == Lower && (rest[0].obj.domain > x.domain || rest[0].obj.bus > x.subordinate)
    ensures j <= |g| && Sifted(g, x, under, stay + g[j..]) && RowOf(under) == u && RowOf(stay + g[j..]) == s + rest
  {
    hide Sift, Separate, Sifting, Compare, NodeOf, Parted;
    PartRest(g, j, under, stay);
    RowsAt(g, j, stay);
    SeparateAll(u, s, rest);
    RowsJoin(stay, g[j..]);
    NodesJoin(stay, g[j..]);
    NodesPart(g, j);
    SiftStep(Nodes(g), j, x, Nodes(under), Nodes(stay));
  }

  lemma PartRest(g: seq<Shape>, j: nat, under: seq<Shape>, stay: seq<Shape>)
    requires Parted(g, j, under, stay)
    ensures j <= |g| && Parted(g, |g|, under, stay + g[j..])
  {
    assert forall i :: j <= i < |g| ==> g[i] == g[j..][i - j];
  }

  lemma StageEnds(
      g: seq<Shape>, j: nat, x: Obj, under: seq<Shape>, stay: seq<Shape>, u: seq<Cell>, s: seq<Cell>, rest: seq<Cell>)
    requires Stage(g, j, x, under, stay, u, s, rest) && rest == []
    ensures j == |g| && Sifted(g, x, under, stay) && RowOf(under) == u && RowOf(stay) == s
  {
    hide Separate, NodeOf;
    assert j == |g| && Nodes(g)[j..] == [];
    SiftNothing(x);
    assert Nodes(under) + [] == Nodes(under) && Nodes(stay) + [] == Nodes(stay);
  }

  lemma StageIsSeparate(
      g: seq<Shape>, j: nat, x: Obj, under: seq<Shape>, stay: seq<Shape>, u: seq<Cell>, s: seq<Cell>, rest: seq<Cell>)
    requires Stage(g, j, x, under, stay, u, s, rest) && rest != []
    ensures Single(u) && Single(s) && Other(u, s) && Other(u, rest[1..]) && Other(s, rest[1..])
    ensures rest[0] !in u && rest[0] !in s && rest[0] !in rest[1..]
  {
    SeparateFirst(u, s, rest);
  }

  // Where the new object is placed

  lemma FrontRows(f: seq<Shape>, i: nat)
    requires i <= |f| && Single(RowOf(f))
    ensures RowOf(f)[..i] == RowOf(f[..i]) && RowOf(f)[i..] == RowOf(f[i..])
    ensures Single(RowOf(f[..i])) && Single(RowOf(f[i..])) && Other(RowOf(f[..i]), RowOf(f[i..]))
    ensures Within(RowOf(f[..i]), RowOf(f)) && Within(RowOf(f[i..]), RowOf(f))
  {
    assert RowOf(f)[..i] == RowOf(f[..i]) && RowOf(f)[i..] == RowOf(f[i..]);
  }

  /** Where the siblings are once the new object is among them. */
  ghost predicate Placed(f: seq<Shape>, i: nat, x: Obj, under: seq<Shape>, stay: seq<Shape>) {
    && i <= |f| && Shuffled(f, f[..i] + under + stay)
    && [Node(x, Nodes(under))] + Nodes(stay) == Insert(Nodes(f[i..]), x)
  }

  lemma SingleJoin(a: seq<Cell>, b: seq<Cell>, c: seq<Cell>)
    requires Single(a) && Single(b) && Single(c) && Other(a, b) && Other(a, c) && Other(b, c)
    ensures Single(a + b + c)
  {
  }

  lemma PartsMember(f: seq<Shape>, i: nat, under: seq<Shape>, stay: seq<Shape>)
    requires i <= |f| && Parted(f[i..], |f| - i, under, stay)
    ensures forall k :: 0 <= k < |f| ==> f[k] in f[..i] + under + stay
    ensures forall k :: 0 <= k < |f[..i] + under + stay| ==> (f[..i] + under + stay)[k] in f
  {
    var pre, g := f[..i], f[i..];
    forall k | 0 <= k < |f| ensures f[k] in pre || f[k] in under || f[k] in stay {
      assert f[k] == if k < i then pre[k] else g[k - i];
    }
    assert forall s :: s in pre || s in g ==> s in f;
  }

  lemma OtherParts(f: seq<Shape>, i: nat, part: seq<Shape>)
    requires Single(RowOf(f)) && i <= |f| && forall k :: 0 <= k < |part| ==> part[k] in f[i..]
    ensures Other(RowOf(f[..i]), RowOf(part))
  {
    forall a, b | 0 <= a < i && 0 <= b < |part| ensures f[a].cell != part[b].cell {
      var k :| 0 <= k < |f| - i && f[i..][k] == part[b];
      assert RowOf(f)[a] != RowOf(f)[i + k];
    }
  }

  lemma SiftedShuffles(f: seq<Shape>, i: nat, x: Obj, under: seq<Shape>, stay: seq<Shape>)
    requires Single(RowOf(f)) && i < |f| && Sifted(f[i..], x, under, stay)
    ensures Shuffled(f, f[..i] + under + stay)
  {
    hide Sift, NodeOf, Other;
    var pre := f[..i];
    assert Single(RowOf(pre)) by {
      assert forall k :: 0 <= k < i ==> RowOf(pre)[k] == RowOf(f)[k];
    }
    OtherParts(f, i, under);
    OtherParts(f, i, stay);
    hide Parted, Single, RowOf;
    RowsJoin(pre, under);
    RowsJoin(pre + under, stay);
    SingleJoin(RowOf(pre), RowOf(under), RowOf(stay));
    PartsMember(f, i, under, stay);
  }

  lemma SiftedPlaced(f: seq<Shape>, i: nat, x: Obj, under: seq<Shape>, stay: seq<Shape>)
    requires Single(RowOf(f)) && i < |f| && x.bridge && Sifted(f[i..], x, under, stay)
    requires var c := Compare(x, f[i].cell.obj); c == Lower || c == Superset
    ensures Placed(f, i, x, under, stay)
  {
    hide Sift, NodeOf;
    var pre, g := f[..i], f[i..];
    assert Nodes(g)[0] == NodeOf(f[i]) && Nodes(g)[0].obj == f[i].cell.obj by {
      NodeObj(f[i]);
    }
    SiftedShuffles(f, i, x, under, stay);
  }

  lemma PlainPlaced(f: seq<Shape>, i: nat, x: Obj)
    requires Single(RowOf(f)) && i < |f| && !x.bridge
    requires var c := Compare(x, f[i].cell.obj); c == Lower || c == Superset
    ensures Placed(f, i, x, [], f[i..])
  {
    NodeObj(f[i]);
    hide NodeOf;
    assert f[..i] + [] + f[i..] == f;
  }

  lemma LastPlaced(f: seq<Shape>, x: Obj)
    requires Single(RowOf(f))
    ensures Placed(f, |f|, x, [], [])
  {
    assert f[..|f|] + [] + [] == f && f[|f|..] == [];
  }

  lemma PlacedIs(f: seq<Shape>, i: nat, x: Cell, under: seq<Shape>, stay: seq<Shape>)
    requires Once(f) && x !in Cells(f) && Placed(f, i, x.obj, under, stay)
    ensures i <= |f|
    ensures var r := f[..i] + [Shape(x, under)] + stay;
            Once(r) && Cells(r) == Cells(f) + {x} && Nodes(r) == Nodes(f[..i]) + Insert(Nodes(f[i..]), x.obj)
    ensures var all := f[..i] + under + stay; forall k :: 0 <= k < |all| ==> all[k] in f
  {
    hide Once, Cells, Insert, NodeOf;
    ShuffledOnce(f, f[..i] + under + stay);
    Wrapped(f[..i], x, under, stay);
    NodesJoin(f[..i], [Shape(x, under)]);
    NodesJoin(f[..i] + [Shape(x, under)], stay);
    NodeIs(x, under);
  }

  lemma {:induction false} NodesBelow(f: seq<Shape>, i: nat, kids: seq<Shape>)
    requires i < |f|
    ensures Nodes(f[i := Shape(f[i].cell, kids)]) ==
      Nodes(f[..i]) + ([Node(f[i].cell.obj, Nodes(kids))] + Nodes(f[i + 1..]))
  {
    hide NodeOf;
    var one := [Shape(f[i].cell, kids)];
    assert f[i := Shape(f[i].cell, kids)] == f[..i] + (one + f[i + 1..]);
    NodesJoin(f[..i], one + f[i + 1..]);
    NodesJoin(one, f[i + 1..]);
    NodeIs(f[i].cell, kids);
  }

  lemma {:induction false} InsertBelow(f: seq<Shape>, i: nat, x: Obj)
    requires i < |f| && Compare(x, f[i].cell.obj) == Included
    ensures Insert(Nodes(f[i..]), x) == [Node(f[i].cell.obj, Insert(Nodes(f[i].kids), x))] + Nodes(f[i + 1..])
  {
    hide Compare;
    var g := Nodes(f[i..]);
    assert g[0] == NodeOf(f[i]) && NodeOf(f[i]) == Node(f[i].cell.obj, Nodes(f[i].kids));
    hide NodeOf;
    NodesPart(f[i..], 1);
    assert f[i..][1..] == f[i + 1..];
  }

  lemma {:induction false} InsertEqual(f: seq<Shape>, x: Obj, i: nat)
    requires i < |f| && Compare(x, f[i].cell.obj) == Equal
    ensures Nodes(f[..i]) + Insert(Nodes(f[i..]), x) == Nodes(f)
  {
    hide Compare;
    NodeObj(f[i]);
    NodesPart(f, i);
    hide NodeOf;
    assert Nodes(f)[..i] + Nodes(f)[i..] == Nodes(f);
  }
}

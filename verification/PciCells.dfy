/** The PCI tree as it lies in memory: objects that are linked to their next sibling, their first
    child and their parent, and rewired in place. */
module PciCells {
  import opened PciOrder
  import opened PciShapes
  import opened PciTree

  datatype Links = Links(next: Cell?, child: Cell?, parent: Cell?)

  /** What the cells in question are linked to. */
  type Memory = map<Cell, Links>

  ghost predicate Shows(m: Memory)
    reads m.Keys
  {
    forall c :: c in m ==> Links(c.next, c.child, c.parent) == m[c]
  }

  /** Siblings that are linked, up to the cell behind the last one, and to their parent. */
  ghost predicate Row(m: Memory, row: seq<Cell>, parent: Cell?, end: Cell?) {
    forall i :: 0 <= i < |row| ==>
      row[i] in m && m[row[i]].parent == parent && m[row[i]].next == After(row, i, end)
  }

  /** All that is below a cell is linked as its shape says. */
  ghost predicate Hangs(m: Memory, s: Shape)
    decreases s
  {
    && s.cell in m && m[s.cell].child == Head(RowOf(s.kids), null)
    && Row(m, RowOf(s.kids), s.cell, null) && AllHang(m, s.kids)
  }

  ghost predicate AllHang(m: Memory, f: seq<Shape>)
    decreases f
  {
    forall i :: 0 <= i < |f| ==> Hangs(m, f[i])
  }

  /** A list of siblings, with all that is below them, lies in memory. */
  ghost predicate Lies(m: Memory, f: seq<Shape>, parent: Cell?, first: Cell?) {
    first == Head(RowOf(f), null) && Row(m, RowOf(f), parent, null) && AllHang(m, f)
  }

  // Rows of siblings in memory

  lemma RowFront(m: Memory, row: seq<Cell>, parent: Cell?, end: Cell?)
    requires row != [] && Row(m, row, parent, end)
    ensures row[0] in m && m[row[0]].parent == parent && m[row[0]].next == Head(row[1..], end)
    ensures Row(m, row[1..], parent, end)
  {
    forall i | 0 <= i < |row| - 1
      ensures row[1..][i] in m && m[row[1..][i]].parent == parent && m[row[1..][i]].next == After(row[1..], i, end)
    {
      assert row[1..][i] == row[i + 1];
    }
  }

  lemma RowJoins(m: Memory, a: seq<Cell>, b: seq<Cell>, parent: Cell?, end: Cell?)
    requires Row(m, a, parent, Head(b, end)) && Row(m, b, parent, end)
    ensures Row(m, a + b, parent, end)
  {
    var row := a + b;
    forall i | 0 <= i < |row|
      ensures row[i] in m && m[row[i]].parent == parent && m[row[i]].next == After(row, i, end)
    {
      if i < |a| {
        assert row[i] == a[i];
      } else {
        assert row[i] == b[i - |a|];
      }
    }
  }

  lemma RowGrows(m: Memory, row: seq<Cell>, cur: Cell, parent: Cell?, end: Cell?)
    requires Row(m, row, parent, cur) && cur in m && m[cur].parent == parent && m[cur].next == end
    ensures Row(m, row + [cur], parent, end)
  {
    RowJoins(m, row, [cur], parent, end);
  }

  lemma RowSplits(m: Memory, row: seq<Cell>, i: nat, parent: Cell?, end: Cell?)
    requires i <= |row| && Row(m, row, parent, end)
    ensures Row(m, row[..i], parent, Head(row[i..], end)) && Row(m, row[i..], parent, end)
  {
    var a, b := row[..i], row[i..];
    forall k | 0 <= k < i ensures a[k] in m && m[a[k]].parent == parent && m[a[k]].next == After(a, k, Head(b, end)) {
      assert a[k] == row[k];
    }
    forall k | 0 <= k < |row| - i ensures b[k] in m && m[b[k]].parent == parent && m[b[k]].next == After(b, k, end) {
      assert b[k] == row[i + k];
    }
  }

  lemma NoRow(m: Memory, parent: Cell?, end: Cell?)
    ensures Row(m, [], parent, end)
  {
  }

  /** The same memory but for some cells. */
  ghost predicate Outside(m: Memory, m': Memory, touched: set<Cell>) {
    m.Keys <= m'.Keys && forall c :: c in m && c !in touched ==> m'[c] == m[c]
  }

  lemma RowStays(m: Memory, m': Memory, touched: set<Cell>, row: seq<Cell>, parent: Cell?, end: Cell?)
    requires Row(m, row, parent, end) && Outside(m, m', touched) && forall c :: c in row ==> c !in touched
    ensures Row(m', row, parent, end)
  {
  }

  // One sibling moves from behind the ones that stay to behind the ones below the bridge

  ghost function Hooked(m: Memory, x: Cell, tail: Cell?, cur: Cell): Memory
    requires x in m && (tail != null ==> tail in m)
  {
    if tail == null then m[x := m[x].(child := cur)] else m[tail := m[tail].(next := cur)]
  }

  ghost function Skipped(m: Memory, x: Cell, prev: Cell?, to: Cell?): Memory
    requires x in m && (prev != null ==> prev in m)
  {
    if prev == null then m[x := m[x].(next := to)] else m[prev := m[prev].(next := to)]
  }

  ghost function Moved(m: Memory, x: Cell, tail: Cell?, prev: Cell?, cur: Cell): Memory
    requires x in m && cur in m && (tail != null ==> tail in m) && (prev != null ==> prev in m)
  {
    var m1 := Hooked(m, x, tail, cur);
    var m2 := Skipped(m1, x, prev, m1[cur].next);
    m2[cur := m2[cur].(parent := x, next := null)]
  }

  method Hook(x: Cell, tail: Cell?, cur: Cell, ghost m: Memory)
    requires Shows(m) && x in m && (tail != null ==> tail in m)
    modifies x`child, Maybe(tail)`next
    ensures Shows(Hooked(m, x, tail, cur))
  {
    if tail == null {
      x.child := cur;
    } else {
      tail.next := cur;
    }
  }

  method Skip(x: Cell, prev: Cell?, to: Cell?, ghost m: Memory)
    requires Shows(m) && x in m && (prev != null ==> prev in m)
    modifies x`next, Maybe(prev)`next
    ensures Shows(Skipped(m, x, prev, to))
  {
    if prev == null {
      x.next := to;
    } else {
      prev.next := to;
    }
  }

  method Adopt(x: Cell, cur: Cell, ghost m: Memory)
    requires Shows(m) && cur in m
    modifies cur`next, cur`parent
    ensures Shows(m[cur := m[cur].(parent := x, next := null)])
  {
    cur.parent := x;
    cur.next := null;
  }

  lemma StillThere(m: Memory, x: Cell, tail: Cell?, prev: Cell?, cur: Cell, to: Cell?)
    requires x in m && (tail != null ==> tail in m) && (prev != null ==> prev in m)
    ensures Hooked(m, x, tail, cur).Keys == m.Keys && Skipped(m, x, prev, to).Keys == m.Keys
  {
  }

  method MoveCell(x: Cell, tail: Cell?, prev: Cell?, cur: Cell, ghost m: Memory)
    requires Shows(m) && x in m && cur in m && (tail != null ==> tail in m) && (prev != null ==> prev in m)
    modifies x`child, x`next, Maybe(tail)`next, Maybe(prev)`next, cur`next, cur`parent
    ensures Shows(Moved(m, x, tail, prev, cur))
  {
    hide Hooked, Skipped;
    StillThere(m, x, tail, prev, cur, null);
    Hook(x, tail, cur, m);
    ghost var m1: Memory := Hooked(m, x, tail, cur);
    StillThere(m1, x, tail, prev, cur, cur.next);
    Skip(x, prev, cur.next, m1);
    Adopt(x, cur, Skipped(m1, x, prev, m1[cur].next));
  }

  lemma HookedRows(m: Memory, x: Cell, cur: Cell, under: seq<Cell>, stay: seq<Cell>, rest: seq<Cell>, parent: Cell?)
    requires x in m && Row(m, under, x, null) && Row(m, stay, parent, cur) && Row(m, rest, parent, null)
    requires Single(under) && Other(under, stay) && Other(under, rest) && x !in under && x !in stay && x !in rest
    requires cur !in under && x != cur
    ensures Tail(under) != null ==> Tail(under) in m
    ensures var m1 := Hooked(m, x, Tail(under), cur);
            && m1.Keys == m.Keys && Row(m1, under, x, cur) && Row(m1, stay, parent, cur) && Row(m1, rest, parent, null)
            && (cur in m ==> m1[cur] == m[cur])
            && m1[x] == m[x].(child := if under == [] then cur else m[x].child)
  {
  }

  lemma SkippedRows(m: Memory, x: Cell, cur: Cell, under: seq<Cell>,
      stay: seq<Cell>, rest: seq<Cell>, parent: Cell?, to: Cell?)
    requires x in m && Row(m, under, x, cur) && Row(m, stay, parent, cur) && Row(m, rest, parent, null)
    requires Single(stay) && Other(under, stay) && Other(stay, rest) && x !in under && x !in stay && x !in rest
    ensures Tail(stay) != null ==> Tail(stay) in m
    ensures var m2 := Skipped(m, x, Tail(stay), to);
            && m2.Keys == m.Keys && Row(m2, under, x, cur) && Row(m2, stay, parent, to) && Row(m2, rest, parent, null)
            && m2[x] == m[x].(next := if stay == [] then to else m[x].next)
  {
  }

  lemma MovedRows(m: Memory, x: Cell, cur: Cell, under: seq<Cell>, stay: seq<Cell>, rest: seq<Cell>, parent: Cell?)
    requires x in m && cur in m && Row(m, under, x, null) && Row(m, stay, parent, cur) && Row(m, rest, parent, null)
    requires Single(under) && Single(stay) && Other(under, stay) && Other(under, rest) && Other(stay, rest)
    requires x !in under && x !in stay && x !in rest && cur !in under && cur !in stay && cur !in rest && x != cur
    requires m[x].child == Head(under, null) && m[x].next == Head(stay, cur) && m[cur].next == Head(rest, null)
    ensures (Tail(under) != null ==> Tail(under) in m) && (Tail(stay) != null ==> Tail(stay) in m)
    ensures var m' := Moved(m, x, Tail(under), Tail(stay), cur);
            && Row(m', under + [cur], x, null) && Row(m', stay, parent, Head(rest, null)) && Row(m', rest, parent, null)
            && m'[x].child == Head(under + [cur], null) && m'[x].next == Head(stay, Head(rest, null))
            && m'[x].parent == m[x].parent
  {
    hide Hooked, Skipped, Row, Other, Single;
    HookedRows(m, x, cur, under, stay, rest, parent);
    var m1: Memory := Hooked(m, x, Tail(under), cur);
    SkippedRows(m1, x, cur, under, stay, rest, parent, m1[cur].next);
    var m2: Memory := Skipped(m1, x, Tail(stay), m1[cur].next);
    var m': Memory := m2[cur := m2[cur].(parent := x, next := null)];
    RowStays(m2, m', {cur}, under, x, cur);
    RowStays(m2, m', {cur}, stay, parent, Head(rest, null));
    RowStays(m2, m', {cur}, rest, parent, null);
    RowGrows(m', under, cur, x, null);
  }

  // The loop that sifts

  /** All that a pass over a row changes: how its cells and the bridge are linked, but not what hangs
      on the cells of the row. */
  ghost predicate Rewired(m: Memory, m': Memory, x: Cell, row: seq<Cell>) {
    && m'.Keys == m.Keys
    && (forall c :: c in m && c != x && c !in row ==> m'[c] == m[c])
    && (forall c :: c in m && c != x ==> m'[c].child == m[c].child)
  }

  lemma RewiredKeys(m: Memory, m': Memory, x: Cell, row: seq<Cell>)
    requires Rewired(m, m', x, row)
    ensures m.Keys == m'.Keys
  {
  }

  lemma RewiredAgain(m: Memory, m': Memory, m'': Memory, x: Cell, row: seq<Cell>)
    requires Rewired(m, m', x, row) && Rewired(m', m'', x, row)
    ensures Rewired(m, m'', x, row)
  {
  }

  lemma SlotRewires(m: Memory, x: Cell, last: Cell?, to: Cell, to': Cell?, row: seq<Cell>)
    requires x in m && (last != null ==> last in m && last in row) && x !in row
    ensures Rewired(m, Hooked(m, x, last, to), x, row) && Rewired(m, Skipped(m, x, last, to'), x, row)
  {
  }

  lemma AdoptionRewires(m: Memory, x: Cell, cur: Cell, row: seq<Cell>)
    requires cur in m && cur in row && x !in row
    ensures Rewired(m, m[cur := m[cur].(parent := x, next := null)], x, row)
  {
  }

  lemma MovedRewires(m: Memory, x: Cell, tail: Cell?, prev: Cell?, cur: Cell, row: seq<Cell>)
    requires x in m && cur in m && (tail != null ==> tail in m) && (prev != null ==> prev in m)
    requires cur in row && (tail != null ==> tail in row) && (prev != null ==> prev in row) && x !in row
    ensures Rewired(m, Moved(m, x, tail, prev, cur), x, row)
  {
    hide Rewired, Hooked, Skipped;
    StillThere(m, x, tail, prev, cur, null);
    var m1: Memory := Hooked(m, x, tail, cur);
    SlotRewires(m, x, tail, cur, null, row);
    StillThere(m1, x, tail, prev, cur, m1[cur].next);
    var m2: Memory := Skipped(m1, x, prev, m1[cur].next);
    SlotRewires(m1, x, prev, cur, m1[cur].next, row);
    AdoptionRewires(m2, x, cur, row);
    RewiredAgain(m, m1, m2, x, row);
    RewiredAgain(m, m2, Moved(m, x, tail, prev, cur), x, row);
  }

  /** What a pass has come to: at sibling j, with the shapes and the rows of those that go below
      the bridge and of those that stay, the row of those that remain, and the memory. */
  datatype Pass = Pass(
    j: nat, under: seq<Shape>, stay: seq<Shape>, u: seq<Cell>, s: seq<Cell>, rest: seq<Cell>, m: Memory)

  ghost predicate Passing(g: seq<Shape>, x: Cell, parent: Cell?, m: Memory, p: Pass) {
    && Stage(g, p.j, x.obj, p.under, p.stay, p.u, p.s, p.rest)
      && x in m && Rewired(m, p.m, x, RowOf(g)) && x !in RowOf(g)
    && p.m[x].child == Head(p.u, null) && p.m[x].parent == m[x].parent && Row(p.m, p.u, x, null)
    && p.m[x].next == Head(p.s, Head(p.rest, null)) && Row(p.m, p.s, parent, Head(p.rest, null))
    && Row(p.m, p.rest, parent, null)
    && Within(p.u, RowOf(g)) && Within(p.s, RowOf(g)) && Within(p.rest, RowOf(g))
  }

  lemma PassStarts(g: seq<Shape>, x: Cell, parent: Cell?, m: Memory)
    requires x in m && m[x].child == null && m[x].next == Head(RowOf(g), null) && x !in RowOf(g)
    requires Row(m, RowOf(g), parent, null) && Single(RowOf(g))
    ensures Passing(g, x, parent, m, Pass(0, [], [], [], [], RowOf(g), m))
  {
    StageStart(g, x.obj);
  }

  ghost function PassedUnder(g: seq<Shape>, x: Cell, p: Pass): Pass
    requires p.j < |g| && p.rest != [] && x in p.m && p.rest[0] in p.m
    requires (Tail(p.u) != null ==> Tail(p.u) in p.m) && (Tail(p.s) != null ==> Tail(p.s) in p.m)
  {
    Pass(p.j + 1, p.under + [g[p.j]], p.stay, p.u + [p.rest[0]], p.s, p.rest[1..],
         Moved(p.m, x, Tail(p.u), Tail(p.s), p.rest[0]))
  }

  lemma PassUnder(g: seq<Shape>, x: Cell, parent: Cell?, m: Memory, p: Pass)
    requires Passing(g, x, parent, m, p) && p.rest != [] && Compare(x.obj, p.rest[0].obj) != Lower
    ensures p.j < |g| && x in p.m && p.rest[0] in p.m
    ensures (Tail(p.u) != null ==> Tail(p.u) in p.m) && (Tail(p.s) != null ==> Tail(p.s) in p.m)
    ensures Passing(g, x, parent, m, PassedUnder(g, x, p))
  {
    hide Stage, Row, RowOf, Moved, Rewired, Tail, Compare;
    StageIsSeparate(g, p.j, x.obj, p.under, p.stay, p.u, p.s, p.rest);
    StageUnder(g, p.j, x.obj, p.under, p.stay, p.u, p.s, p.rest);
    RewiredKeys(m, p.m, x, RowOf(g));
    RowFront(p.m, p.rest, parent, null);
    TailIn(p.u);
    TailIn(p.s);
    MovedRows(p.m, x, p.rest[0], p.u, p.s, p.rest[1..], parent);
    MovedRewires(p.m, x, Tail(p.u), Tail(p.s), p.rest[0], RowOf(g));
    RewiredAgain(m, p.m, PassedUnder(g, x, p).m, x, RowOf(g));
  }

  lemma PassedUnderIs(g: seq<Shape>, x: Cell, p: Pass)
    requires p.j < |g| && p.rest != [] && x in p.m && p.rest[0] in p.m
    requires (Tail(p.u) != null ==> Tail(p.u) in p.m) && (Tail(p.s) != null ==> Tail(p.s) in p.m)
    ensures var q := PassedUnder(g, x, p);
            && q.m == Moved(p.m, x, Tail(p.u), Tail(p.s), p.rest[0])
            && q.rest == p.rest[1..] && Tail(q.u) == p.rest[0] && Tail(q.s) == Tail(p.s)
  {
    hide Moved;
    TailIs(p.u, p.rest[0]);
  }

  ghost function PassedBy(g: seq<Shape>, p: Pass): Pass
    requires p.j < |g| && p.rest != []
  {
    p.(j := p.j + 1, stay := p.stay + [g[p.j]], s := p.s + [p.rest[0]], rest := p.rest[1..])
  }

  lemma PassStay(g: seq<Shape>, x: Cell, parent: Cell?, m: Memory, p: Pass)
    requires Passing(g, x, parent, m, p) && p.rest != [] && Compare(x.obj, p.rest[0].obj) == Lower
    requires !(p.rest[0].obj.domain > x.obj.domain || p.rest[0].obj.bus > x.obj.subordinate)
    ensures p.j < |g|
    ensures var q := PassedBy(g, p);
            && Passing(g, x, parent, m, q) && q.m == p.m
            && q.rest == p.rest[1..] && Tail(q.u) == Tail(p.u) && Tail(q.s) == p.rest[0]
  {
    hide Stage, Row, RowOf, Rewired, Compare;
    StageStay(g, p.j, x.obj, p.under, p.stay, p.u, p.s, p.rest);
    RewiredKeys(m, p.m, x, RowOf(g));
    RowFront(p.m, p.rest, parent, null);
    RowGrows(p.m, p.s, p.rest[0], parent, p.m[p.rest[0]].next);
  }

  /** What the loop of sifting leaves in memory. */
  ghost predicate SiftedIn(g: seq<Shape>, x: Cell, parent: Cell?,
      m: Memory, under: seq<Shape>, stay: seq<Shape>, m': Memory)
  {
    && Rewired(m, m', x, RowOf(g)) && Sifted(g, x.obj, under, stay) && x in m
    && m'[x].child == Head(RowOf(under), null) && m'[x].parent == m[x].parent && Row(m', RowOf(under), x, null)
    && m'[x].next == Head(RowOf(stay), null) && Row(m', RowOf(stay), parent, null)
  }

  lemma PassStops(g: seq<Shape>, x: Cell, parent: Cell?, m: Memory, p: Pass)
    requires Passing(g, x, parent, m, p)
    requires p.rest != [] ==> Compare(x.obj, p.rest[0].obj) == Lower
    requires p.rest != [] ==> p.rest[0].obj.domain > x.obj.domain || p.rest[0].obj.bus > x.obj.subordinate
    ensures p.j <= |g| && SiftedIn(g, x, parent, m, p.under, if p.rest == [] then p.stay else p.stay + g[p.j..], p.m)
  {
    hide Stage, Row, RowOf, Rewired, Compare, Sifted;
    RewiredKeys(m, p.m, x, RowOf(g));
    if p.rest == [] {
      StageEnds(g, p.j, x.obj, p.under, p.stay, p.u, p.s, p.rest);
    } else {
      StageStops(g, p.j, x.obj, p.under, p.stay, p.u, p.s, p.rest);
      RowJoins(p.m, p.s, p.rest, parent, null);
    }
  }

  /** What the slots and the next sibling are. */
  lemma PassSlots(g: seq<Shape>, x: Cell, parent: Cell?, m: Memory, p: Pass)
    requires Passing(g, x, parent, m, p)
    ensures m.Keys == p.m.Keys && x in m
    ensures forall c :: c in p.rest ==> c in m
    ensures p.rest != [] ==> p.m[p.rest[0]].next == Head(p.rest[1..], null)
    ensures if Tail(p.s) == null then p.m[x].next == Head(p.rest, null)
            else Tail(p.s) in m && p.m[Tail(p.s)].next == Head(p.rest, null)
  {
    hide Stage, RowOf;
    if p.rest != [] {
      RowFront(p.m, p.rest, parent, null);
    }
  }

  /** The loop that looks at the remaining siblings and moves some below the new bridge. */
  method SiftCells(x: Cell, parent: Cell?, ghost g: seq<Shape>, ghost m: Memory)
    returns (ghost under: seq<Shape>, ghost stay: seq<Shape>, ghost m': Memory)
    requires Shows(m) && x in m && m[x].child == null && m[x].next == Head(RowOf(g), null) && x !in RowOf(g)
    requires Row(m, RowOf(g), parent, null) && Single(RowOf(g))
    modifies m.Keys
    ensures Shows(m') && SiftedIn(g, x, parent, m, under, stay, m')
  {
    hide Passing, PassedUnder, PassedBy, Row, Single, RowOf, Moved, SiftedIn, Compare, Rewired;
    PassStarts(g, x, parent, m);
    ghost var p := Pass(0, [], [], [], [], RowOf(g), m);
    var tail, prev: Cell? := null, null;
    var cur := x.next;
    while cur != null
      invariant Passing(g, x, parent, m, p) && Shows(p.m)
      invariant cur == Head(p.rest, null) && tail == Tail(p.u) && prev == Tail(p.s)
      decreases |p.rest|
    {
      PassSlots(g, x, parent, m, p);
      if Compare(x.obj, cur.obj) == Lower {
        if cur.obj.domain > x.obj.domain || cur.obj.bus > x.obj.subordinate {
          break;
        }
        PassStay(g, x, parent, m, p);
        p := PassedBy(g, p);
        prev := cur;
        cur := cur.next;
      } else {
        PassUnder(g, x, parent, m, p);
        PassedUnderIs(g, x, p);
        MoveCell(x, tail, prev, cur, p.m);
        p := PassedUnder(g, x, p);
        PassSlots(g, x, parent, m, p);
        tail := cur;
        cur := if prev == null then x.next else prev.next;
      }
    }
    PassStops(g, x, parent, m, p);
    under, stay, m' := p.under, if p.rest == [] then p.stay else p.stay + g[p.j..], p.m;
  }

  // What hangs together

  /** What hangs on a cell hangs on it still when all that changes is elsewhere. */
  lemma {:induction false} HangsStill(m: Memory, m': Memory, touched: set<Cell>, s: Shape)
    requires Hangs(m, s) && Outside(m, m', touched) && m'[s.cell].child == m[s.cell].child && Cells(s.kids) !! touched
    ensures Hangs(m', s)
    decreases s
  {
    hide Cells, CellsOf;
    forall k | 0 <= k < |s.kids| ensures Hangs(m', s.kids[k]) && s.kids[k].cell !in touched {
      assert s.kids[k].cell in CellsOf(s.kids[k]) && Cells(s.kids[k].kids) <= CellsOf(s.kids[k]) <= Cells(s.kids);
      HangsStill(m, m', touched, s.kids[k]);
    }
    RowStays(m, m', touched, RowOf(s.kids), s.cell, null);
  }

  lemma HangsIn(m: Memory, s: Shape)
    requires Hangs(m, s)
    ensures s.cell in m
  {
  }

  lemma AllHangAt(m: Memory, f: seq<Shape>, i: nat)
    requires AllHang(m, f) && i < |f|
    ensures Hangs(m, f[i])
  {
  }

  lemma AllHangNow(m: Memory, f: seq<Shape>)
    requires forall i :: 0 <= i < |f| ==> Hangs(m, f[i])
    ensures AllHang(m, f)
  {
  }

  lemma RewiredHangs(m: Memory, m': Memory, x: Cell, f: seq<Shape>)
    requires AllHang(m, f) && Once(f) && x !in Cells(f) && Rewired(m, m', x, RowOf(f))
    ensures AllHang(m', f)
  {
    hide Cells, CellsOf, Once;
    TopsOnce(f);
    var touched := {x} + set c | c in RowOf(f);
    forall i | 0 <= i < |f| ensures Hangs(m', f[i]) {
      assert f[i].cell in RowOf(f) && f[i].cell != x by {
        assert RowOf(f)[i] == f[i].cell;
      }
      HangsStill(m, m', touched, f[i]);
    }
  }

  lemma HangsNow(m: Memory, x: Cell, under: seq<Shape>)
    requires x in m && m[x].child == Head(RowOf(under), null) && Row(m, RowOf(under), x, null) && AllHang(m, under)
    ensures Hangs(m, Shape(x, under))
  {
  }

  /** Siblings that hang together still do with the new object among them. */
  lemma HangAgain(m: Memory, f: seq<Shape>, pre: seq<Shape>, x: Cell, under: seq<Shape>, stay: seq<Shape>)
    requires AllHang(m, f) && forall i :: 0 <= i < |pre + under + stay| ==> (pre + under + stay)[i] in f
    requires x in m && m[x].child == Head(RowOf(under), null) && Row(m, RowOf(under), x, null)
    ensures AllHang(m, pre + [Shape(x, under)] + stay)
  {
    hide Row, Hangs;
    var all, r := pre + under + stay, pre + [Shape(x, under)] + stay;
    forall i | 0 <= i < |under| ensures Hangs(m, under[i]) {
      assert all[|pre| + i] == under[i];
    }
    HangsNow(m, x, under);
    forall i | 0 <= i < |r| ensures Hangs(m, r[i]) {
      if i < |pre| {
        assert all[i] == r[i];
      } else if i > |pre| {
        assert all[|under| + i - 1] == r[i];
      }
    }
  }

  /** The row of the siblings with the new object among them. */
  lemma RowAgain(m: Memory, pre: seq<Shape>, x: Cell, under: seq<Shape>, stay: seq<Shape>, parent: Cell?)
    requires Row(m, RowOf(pre), parent, x) && Row(m, RowOf(stay), parent, null)
    requires x in m && m[x].parent == parent && m[x].next == Head(RowOf(stay), null)
    ensures var r := pre + [Shape(x, under)] + stay;
            Row(m, RowOf(r), parent, null) && Head(RowOf(r), null) == Head(RowOf(pre), x)
  {
    var one := [Shape(x, under)];
    RowsJoin(pre, one);
    RowsJoin(pre + one, stay);
    RowJoins(m, RowOf(pre), RowOf(one), parent, m[x].next);
    RowJoins(m, RowOf(pre + one), RowOf(stay), parent, null);
  }

  // Adding an object

  /** The new object behind some siblings and before the next one. */
  ghost function Inserted(m: Memory, x: Cell, prev: Cell?, cur: Cell?, parent: Cell?): Memory
    requires x in m && (prev != null ==> prev in m)
  {
    var m1 := m[x := m[x].(next := cur)];
    var m2 := if prev == null then m1 else m1[prev := m1[prev].(next := x)];
    m2[x := m2[x].(parent := parent)]
  }

  /** `x->next_sibling = *curp; *curp = x; x->parent = parent` */
  method LinkIn(x: Cell, prev: Cell?, first: Cell?, cur: Cell?, parent: Cell?, ghost m: Memory) returns (head: Cell?)
    requires Shows(m) && x in m && (prev != null ==> prev in m)
    modifies x`next, x`parent, Maybe(prev)`next
    ensures Shows(Inserted(m, x, prev, cur, parent)) && head == if prev == null then x else first
  {
    x.next := cur;
    if prev == null {
      head := x;
    } else {
      prev.next := x;
      head := first;
    }
    x.parent := parent;
  }

  lemma InsertedRows(m: Memory, x: Cell, cur: Cell?, parent: Cell?, pre: seq<Cell>, g: seq<Cell>)
    requires x in m && Row(m, pre, parent, cur) && Row(m, g, parent, null) && Single(pre) && Other(pre, g)
    requires x !in pre && x !in g
    ensures Tail(pre) != null ==> Tail(pre) in m
    ensures var m' := Inserted(m, x, Tail(pre), cur, parent);
            && Row(m', pre, parent, x) && Row(m', g, parent, null)
            && m'[x] == Links(cur, m[x].child, parent) && Rewired(m, m', x, pre + g)
  {
  }

  /** What is asked of a new object and the siblings it is to go among. */
  ghost predicate Addable(m: Memory, f: seq<Shape>, parent: Cell?, first: Cell?, x: Cell) {
    Lies(m, f, parent, first) && Once(f) && x in m && x !in Cells(f) && m[x].child == null
  }

  lemma AddableIn(m: Memory, f: seq<Shape>, parent: Cell?, first: Cell?, x: Cell)
    requires Addable(m, f, parent, first, x)
    ensures x in m && m[x].child == null && first == Head(RowOf(f), null)
  {
  }

  /** The new object is where inserting puts it, nothing is lost, and no other cell has changed. */
  ghost predicate Added(
      m: Memory, f: seq<Shape>, parent: Cell?, x: Cell, head: Cell?, r: seq<Shape>, m': Memory, expected: seq<Node>)
  {
    && Lies(m', r, parent, head) && Once(r) && Nodes(r) == expected
    && Cells(f) <= Cells(r) <= Cells(f) + {x} && Outside(m, m', Cells(f) + {x})
  }

  lemma RewiredOutside(m: Memory, m': Memory, x: Cell, f: seq<Shape>)
    requires Rewired(m, m', x, RowOf(f)) && Once(f)
    ensures Outside(m, m', Cells(f) + {x})
  {
    hide Cells, Once;
    TopsOnce(f);
  }

  /** What inserting the object before sibling i has come to, before sifting. */
  lemma BeforeSifting(m: Memory, f: seq<Shape>, i: nat, x: Cell, parent: Cell?, first: Cell?)
    requires Addable(m, f, parent, first, x) && i <= |f|
    ensures Tail(RowOf(f[..i])) != null ==> Tail(RowOf(f[..i])) in m
    ensures first == Head(RowOf(f[..i]), Head(RowOf(f[i..]), null))
    ensures
      var m' := Inserted(m, x, Tail(RowOf(f[..i])), Head(RowOf(f[i..]), null), parent);
      && Row(m', RowOf(f[..i]), parent, x) && Row(m', RowOf(f[i..]), parent, null)
      && m'[x] == Links(Head(RowOf(f[i..]), null), null, parent) && Rewired(m, m', x, RowOf(f))
    ensures x !in RowOf(f) && x !in RowOf(f[i..]) && Single(RowOf(f)) && Single(RowOf(f[i..]))
    ensures Other(RowOf(f[..i]), RowOf(f[i..])) && x !in RowOf(f[..i])
  {
    hide Row, Single, Other, Cells, Once, Rewired, Tail, Inserted;
    TopsOnce(f);
    FrontRows(f, i);
    RowSplits(m, RowOf(f), i, parent, null);
    var pre, g := RowOf(f[..i]), RowOf(f[i..]);
    InsertedRows(m, x, Head(g, null), parent, pre, g);
    assert RowOf(f) == pre + g;
  }

  /** The loop over the siblings that follow leaves those before alone. */
  lemma AfterSifting(m: Memory, f: seq<Shape>, i: nat, x: Cell,
      parent: Cell?, under: seq<Shape>, stay: seq<Shape>, m': Memory)
    requires i <= |f| && Row(m, RowOf(f[..i]), parent, x) && SiftedIn(f[i..], x, parent, m, under, stay, m')
    requires Other(RowOf(f[..i]), RowOf(f[i..])) && x !in RowOf(f[..i])
    ensures Row(m', RowOf(f[..i]), parent, x) && Rewired(m, m', x, RowOf(f))
  {
    var pre, g := RowOf(f[..i]), RowOf(f[i..]);
    assert forall k :: 0 <= k < |g| ==> g[k] == RowOf(f)[i + k];
    assert forall k :: 0 <= k < |pre| ==> pre[k] in m && m'[pre[k]] == m[pre[k]];
  }

  /** Everything in its place: the siblings before, the new object over some, and the others. */
  lemma AllPlaced(
      m: Memory, m': Memory, f: seq<Shape>, i: nat, x: Cell,
        parent: Cell?, first: Cell?, under: seq<Shape>, stay: seq<Shape>)
    requires Addable(m, f, parent, first, x) && Rewired(m, m', x, RowOf(f)) && Placed(f, i, x.obj, under, stay)
    requires Row(m', RowOf(f[..i]), parent, x)
      && m'[x] == Links(Head(RowOf(stay), null), Head(RowOf(under), null), parent)
    requires Row(m', RowOf(under), x, null) && Row(m', RowOf(stay), parent, null)
    ensures var r := f[..i] + [Shape(x, under)] + stay;
            Added(m, f, parent, x, Head(RowOf(f[..i]), x), r, m', Nodes(f[..i]) + Insert(Nodes(f[i..]), x.obj))
  {
    hide Row, Cells, Once, Rewired, Placed, Insert, NodeOf, AllHang;
    PlacedIs(f, i, x, under, stay);
    RewiredOutside(m, m', x, f);
    RewiredHangs(m, m', x, f);
    RewiredKeys(m, m', x, RowOf(f));
    HangAgain(m', f, f[..i], x, under, stay);
    RowAgain(m', f[..i], x, under, stay, parent);
  }

  /** The new object goes before a sibling, and over those that it covers if it is a bridge. */
  method PutBefore(parent: Cell?, first: Cell?, prev: Cell?,
      cur: Cell, x: Cell, ghost f: seq<Shape>, ghost i: nat, ghost m: Memory)
    returns (head: Cell?, ghost r: seq<Shape>, ghost m': Memory)
    requires Shows(m) && Addable(m, f, parent, first, x)
    requires i < |f| && cur == f[i].cell && prev == Tail(RowOf(f[..i]))
    requires var c := Compare(x.obj, cur.obj); c == Lower || c == Superset
    modifies m.Keys
    ensures Shows(m') && m'.Keys == m.Keys
    ensures Added(m, f, parent, x, head, r, m', Nodes(f[..i]) + Insert(Nodes(f[i..]), x.obj))
  {
    hide Row, Single, Other, Insert, Sifted, Added, Rewired, Placed, Addable, Inserted, Compare;
    BeforeSifting(m, f, i, x, parent, first);
    AddableIn(m, f, parent, first, x);
    head := LinkIn(x, prev, first, cur, parent, m);
    m' := Inserted(m, x, prev, cur, parent);
    ghost var m1, under, stay := m', [], f[i..];
    RewiredKeys(m, m1, x, RowOf(f));
    if x.obj.bridge {
      under, stay, m' := SiftCells(x, parent, f[i..], m1);
      AfterSifting(m1, f, i, x, parent, under, stay, m');
      SiftedPlaced(f, i, x.obj, under, stay);
      RewiredAgain(m, m1, m', x, RowOf(f));
    } else {
      PlainPlaced(f, i, x.obj);
      NoRow(m', x, null);
    }
    AllPlaced(m, m', f, i, x, parent, first, under, stay);
    r := f[..i] + [Shape(x, under)] + stay;
  }

  /** The new object goes behind all of the siblings. */
  method PutLast(parent: Cell?, first: Cell?, prev: Cell?, x: Cell, ghost f: seq<Shape>, ghost m: Memory)
    returns (head: Cell?, ghost r: seq<Shape>, ghost m': Memory)
    requires Shows(m) && Addable(m, f, parent, first, x) && prev == Tail(RowOf(f))
    modifies m.Keys
    ensures Shows(m') && m'.Keys == m.Keys && Added(m, f, parent, x, head, r, m', Nodes(f) + Insert([], x.obj))
  {
    hide Row, Single, Other, Insert, Added, Rewired, Placed, Addable, Inserted;
    assert f[..|f|] == f && f[|f|..] == [];
    BeforeSifting(m, f, |f|, x, parent, first);
    AddableIn(m, f, parent, first, x);
    head := LinkIn(x, prev, first, null, parent, m);
    m' := Inserted(m, x, prev, null, parent);
    RewiredKeys(m, m', x, RowOf(f));
    LastPlaced(f, x.obj);
    NoRow(m', x, null);
    NoRow(m', parent, null);
    AllPlaced(m, m', f, |f|, x, parent, first, [], []);
    r := f[..|f|] + [Shape(x, [])] + [];
  }

  /** What is asked before the object is added below sibling i. */
  lemma AddableBelow(m: Memory, f: seq<Shape>, i: nat, x: Cell, parent: Cell?, first: Cell?)
    requires Addable(m, f, parent, first, x) && i < |f|
    ensures f[i].cell in m && Addable(m, f[i].kids, f[i].cell, m[f[i].cell].child, x)
  {
    hide Cells, CellsOf;
    assert Hangs(m, f[i]) && Own(f[i]);
    assert Cells(f[i].kids) <= CellsOf(f[i]) && CellsOf(f[i]) <= Cells(f);
  }

  /** A sibling hangs together again with the new object below it. */
  lemma HangsBelow(m: Memory, c: Cell, kids: seq<Shape>, head: Cell?)
    requires c in m && Lies(m, kids, c, head) && c !in Cells(kids)
    ensures Hangs(m[c := m[c].(child := head)], Shape(c, kids))
  {
    hide Cells, CellsOf;
    var m' := m[c := m[c].(child := head)];
    forall k | 0 <= k < |kids| ensures Hangs(m', kids[k]) && kids[k].cell != c {
      assert kids[k].cell in CellsOf(kids[k]) && Cells(kids[k].kids) <= CellsOf(kids[k]) <= Cells(kids);
      HangsStill(m, m', {c}, kids[k]);
    }
    RowStays(m, m', {c}, RowOf(kids), c, null);
  }

  /** The other siblings hang together still. */
  lemma OthersHang(m: Memory, m': Memory, f: seq<Shape>, i: nat, x: Cell, k: nat)
    requires Once(f) && AllHang(m, f) && x !in Cells(f) && i < |f| && k < |f| && k != i
    requires Outside(m, m', Cells(f[i].kids) + {x, f[i].cell})
    ensures f[k].cell in m && m'[f[k].cell] == m[f[k].cell] && Hangs(m', f[k])
  {
    hide Cells, CellsOf, Hangs;
    var touched := Cells(f[i].kids) + {x, f[i].cell};
    assert CellsOf(f[i]) !! CellsOf(f[k]) by {
      assert if i < k then Clear(f[i], f[k]) else Clear(f[k], f[i]);
    }
    assert touched <= CellsOf(f[i]) + {x} && CellsOf(f[k]) <= Cells(f);
    assert Hangs(m, f[k]);
    HangsIn(m, f[k]);
    HangsStill(m, m', touched, f[k]);
  }

  /** The siblings are linked as before. */
  lemma RowBelow(m: Memory, m': Memory, f: seq<Shape>, i: nat, x: Cell, parent: Cell?)
    requires Once(f) && Row(m, RowOf(f), parent, null) && x !in Cells(f) && i < |f|
    requires Outside(m, m', Cells(f[i].kids) + {x, f[i].cell}) && f[i].cell in m
    requires m'[f[i].cell].next == m[f[i].cell].next && m'[f[i].cell].parent == m[f[i].cell].parent
    ensures Row(m', RowOf(f), parent, null)
  {
    hide Cells, CellsOf, Once;
    TopsOnce(f);
    hide RowOf;
    var row, below := RowOf(f), Cells(f[i].kids) + {x};
    forall k | 0 <= k < |row| ensures row[k] !in below {
      assert row[k] in row;
    }
  }

  lemma {:induction false} AddedBelow(m: Memory, f: seq<Shape>, i: nat, x: Cell, parent: Cell?, first: Cell?,
                   head: Cell?, kids: seq<Shape>, m1: Memory, expected: seq<Node>)
    requires Addable(m, f, parent, first, x) && i < |f| && Added(m, f[i].kids, f[i].cell, x, head, kids, m1, expected)
    ensures f[i].cell in m1
    ensures
      var m' := m1[f[i].cell := m1[f[i].cell].(child := head)];
      Added(m, f, parent, x, first, f[i := Shape(f[i].cell, kids)], m',
            Nodes(f[..i]) + ([Node(f[i].cell.obj, expected)] + Nodes(f[i + 1..])))
  {
    hide Cells, CellsOf, Once, Row, AllHang, Hangs;
    var cur, r := f[i].cell, f[i := Shape(f[i].cell, kids)];
    OnceBelow(f, i, kids, x);
    assert Hangs(m, f[i]) by { AllHangAt(m, f, i); }
    HangsIn(m, f[i]);
    var m': Memory := m1[cur := m1[cur].(child := head)];
    HangsBelow(m1, cur, kids, head);
    forall k | 0 <= k < |r| ensures Hangs(m', r[k]) {
      if k != i {
        OthersHang(m, m', f, i, x, k);
      }
    }
    AllHangNow(m', r);
    RowBelow(m, m', f, i, x, parent);
    assert RowOf(r) == RowOf(f);
    NodesBelow(f, i, kids);
  }

  /** The new object goes below a sibling. */
  method AddBelow(parent: Cell?, first: Cell?, cur: Cell, x: Cell, ghost f: seq<Shape>, ghost i: nat, ghost m: Memory)
    returns (ghost r: seq<Shape>, ghost m': Memory)
    requires Shows(m) && Addable(m, f, parent, first, x)
    requires i < |f| && cur == f[i].cell && Compare(x.obj, cur.obj) == Included
    modifies m.Keys
    ensures Shows(m') && m'.Keys == m.Keys
    ensures Added(m, f, parent, x, first, r, m', Nodes(f[..i]) + Insert(Nodes(f[i..]), x.obj))
    decreases f, 0
  {
    hide Row, Insert, Added, Addable, Compare;
    AddableBelow(m, f, i, x, parent, first);
    var child;
    ghost var kids, m1;
    child, kids, m1 := AddObject(cur, cur.child, x, f[i].kids, m);
    AddedBelow(m, f, i, x, parent, first, child, kids, m1, Insert(Nodes(f[i].kids), x.obj));
    InsertBelow(f, i, x.obj);
    cur.child := child;
    r, m' := f[i := Shape(cur, kids)], m1[cur := m1[cur].(child := child)];
  }

  lemma AddedNothing(m: Memory, f: seq<Shape>, parent: Cell?, first: Cell?, x: Cell)
    requires Addable(m, f, parent, first, x)
    ensures Added(m, f, parent, x, first, f, m, Nodes(f))
  {
  }

  lemma {:induction false} AddStarts(m: Memory, f: seq<Shape>, parent: Cell?, first: Cell?, x: Cell)
    requires Addable(m, f, parent, first, x)
    ensures first == Head(RowOf(f[0..]), null) && Tail(RowOf(f[..0])) == null
    ensures Insert(Nodes(f), x.obj) == Nodes(f[..0]) + Insert(Nodes(f[0..]), x.obj)
  {
    hide Insert;
    assert f[0..] == f && Nodes(f[..0]) == [];
  }

  lemma {:induction false} AddNext(m: Memory, f: seq<Shape>, parent: Cell?, first: Cell?, x: Cell, i: nat)
    requires Addable(m, f, parent, first, x) && i < |f| && Compare(x.obj, f[i].cell.obj) == Higher
    requires Insert(Nodes(f), x.obj) == Nodes(f[..i]) + Insert(Nodes(f[i..]), x.obj)
    ensures f[i].cell in m && m[f[i].cell].next == Head(RowOf(f[i + 1..]), null)
    ensures f[i].cell == Tail(RowOf(f[..i + 1]))
    ensures Insert(Nodes(f), x.obj) == Nodes(f[..i + 1]) + Insert(Nodes(f[i + 1..]), x.obj)
  {
    hide Insert, Compare, Once, Cells, AllHang;
    assert RowOf(f)[i] == f[i].cell;
    NodesPart(f, i);
    NodesPart(f, i + 1);
    NodeObj(f[i]);
    InsertStep(Nodes(f), i, x.obj);
  }

  /** hwloc_pci_add_object: the links are rewired in place into those of the tree that inserting gives. */
  method AddObject(parent: Cell?, first: Cell?, x: Cell, ghost f: seq<Shape>, ghost m: Memory)
    returns (head: Cell?, ghost r: seq<Shape>, ghost m': Memory)
    requires Shows(m) && Addable(m, f, parent, first, x)
    modifies m.Keys
    ensures Shows(m') && m'.Keys == m.Keys && Added(m, f, parent, x, head, r, m', Insert(Nodes(f), x.obj))
    decreases f, 1
  {
    hide Row, Insert, Added, Addable, Compare;
    var prev: Cell? := null;
    var cur := first;
    ghost var i: nat := 0;
    AddStarts(m, f, parent, first, x);
    while cur != null && Compare(x.obj, cur.obj) == Higher
      invariant i <= |f| && cur == Head(RowOf(f[i..]), null) && prev == Tail(RowOf(f[..i]))
      invariant Shows(m) && Insert(Nodes(f), x.obj) == Nodes(f[..i]) + Insert(Nodes(f[i..]), x.obj)
      decreases |f| - i
    {
      AddNext(m, f, parent, first, x, i);
      prev := cur;
      cur := cur.next;
      i := i + 1;
    }
    if cur == null {
      assert f[i..] == [] && f[..i] == f;
      head, r, m' := PutLast(parent, first, prev, x, f, m);
    } else if Compare(x.obj, cur.obj) == Included {
      head := first;
      r, m' := AddBelow(parent, first, cur, x, f, i, m);
    } else if Compare(x.obj, cur.obj) == Equal {
      InsertEqual(f, x.obj, i);
      AddedNothing(m, f, parent, first, x);
      head, r, m' := first, f, m;
    } else {
      head, r, m' := PutBefore(parent, first, prev, cur, x, f, i, m);
    }
  }

  // Discovery

  lemma {:induction false} CellsIn(m: Memory, f: seq<Shape>)
    requires AllHang(m, f)
    ensures Cells(f) <= m.Keys
    decreases f
  {
    if f != [] {
      assert Hangs(m, f[0]);
      CellsIn(m, f[0].kids);
      assert AllHang(m, f[1..]) by {
        assert forall i :: 0 <= i < |f| - 1 ==> f[1..][i] == f[i + 1];
      }
      CellsIn(m, f[1..]);
    }
  }

  /** A tree lies in memory as before when a new object is known, too. */
  lemma Introduced(m: Memory, f: seq<Shape>, first: Cell?, x: Cell)
    requires Lies(m, f, null, first) && Once(f) && x !in m
    ensures Addable(m[x := Links(null, null, null)], f, null, first, x)
  {
    hide Cells, Once;
    var m' := m[x := Links(null, null, null)];
    CellsIn(m, f);
    forall i | 0 <= i < |f| ensures Hangs(m', f[i]) {
      AllHangAt(m, f, i);
      HangsIn(m, f[i]);
      HangsStill(m, m', {}, f[i]);
    }
    RowStays(m, m', {}, RowOf(f), null, null);
  }

  lemma NoTree(m: Memory)
    ensures Lies(m, [], null, null) && Once([]) && Nodes([]) == InsertAll([])
  {
  }

  lemma AddedTree(m: Memory, f: seq<Shape>, x: Cell, head: Cell?, r: seq<Shape>, m': Memory, expected: seq<Node>)
    requires Added(m, f, null, x, head, r, m', expected)
    ensures Lies(m', r, null, head) && Once(r) && Nodes(r) == expected
  {
  }

  /** Objects that are inserted one by one lie in memory as the tree that inserting them gives. */
  method Discover(found: seq<Obj>) returns (tree: Cell?, ghost f: seq<Shape>, ghost m: Memory)
    ensures Shows(m) && Lies(m, f, null, tree) && Once(f) && Nodes(f) == InsertAll(found)
    ensures forall c :: c in m ==> fresh(c)
  {
    hide Insert, Addable, Added, Lies, Once;
    tree, f, m := null, [], map[];
    NoTree(m);
    for i := 0 to |found|
      invariant Shows(m) && Lies(m, f, null, tree) && Once(f) && Nodes(f) == InsertAll(found[..i])
      invariant forall c :: c in m ==> fresh(c)
    {
      assert found[..i + 1][..i] == found[..i];
      var x := new Cell(found[i]);
      Introduced(m, f, tree, x);
      m := m[x := Links(null, null, null)];
      ghost var m', f' := m, f;
      tree, f, m := AddObject(null, tree, x, f, m);
      AddedTree(m', f', x, tree, f, m, Insert(Nodes(f'), x.obj));
    }
    assert found[..|found|] == found;
  }
}

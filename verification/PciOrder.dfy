/** The PCI tree does not depend on the order of discovery. */
module PciOrder {
  import opened PciTree

  ghost function Objs(f: seq<Node>): set<Obj> {
    if f == [] then {} else {f[0].obj} + Objs(f[0].children) + Objs(f[1..])
  }

  ghost function Roots(f: seq<Node>): set<Obj> {
    if f == [] then {} else {f[0].obj} + Roots(f[1..])
  }

  // Objects that can be ordered into a tree

  /** Bridges lead to buses above their own; bus ids differ; a bridge on a bus below another has
      its range within that of the other, and ranges overlap only in this way. */
  ghost predicate Compatible(s: set<Obj>) {
    && (forall a :: a in s && a.bridge ==> a.bus < a.secondary <= a.subordinate)
    && (forall a, b :: a in s && b in s && a != b ==> Before(a, b) || Before(b, a))
    && (forall a, b :: a in s && b in s && b.bridge && Covers(a, b) ==>
      a.secondary <= b.secondary && b.subordinate <= a.subordinate)
    && (forall a, b :: a in s && b in s && a != b && Overlap(a, b) ==> Covers(a, b) || Covers(b, a))
  }

  predicate Overlap(a: Obj, b: Obj) {
    a.bridge && b.bridge && a.domain == b.domain && a.secondary <= b.subordinate && b.secondary <= a.subordinate
  }

  lemma CompatibleSubset(s: set<Obj>, t: set<Obj>)
    requires Compatible(s) && t <= s
    ensures Compatible(t)
  {
  }

  lemma CoversBefore(s: set<Obj>, a: Obj, b: Obj)
    requires Compatible(s) && a in s && Covers(a, b)
    ensures Before(a, b) && !Before(b, a) && a != b
  {
  }

  lemma CoversTransitive(s: set<Obj>, a: Obj, b: Obj, c: Obj)
    requires Compatible(s) && a in s && b in s && Covers(a, b) && Covers(b, c)
    ensures Covers(a, c)
  {
  }

  lemma CoversChain(s: set<Obj>, a: Obj, b: Obj, c: Obj)
    requires Compatible(s) && a in s && b in s && a != b && Covers(a, c) && Covers(b, c)
    ensures Covers(a, b) || Covers(b, a)
  {
    assert Overlap(a, b);
  }

  lemma BeforeTransitive(a: Obj, b: Obj, c: Obj)
    requires Before(a, b) && Before(b, c)
    ensures Before(a, c)
  {
  }

  /** What the comparison says, in terms of order and coverage. */
  lemma CompareMeans(s: set<Obj>, a: Obj, b: Obj)
    requires Compatible(s) && a in s && b in s && a != b
    ensures Compare(a, b) == if Covers(a, b) then Superset else if Covers(b, a) then Included
                             else if Before(a, b) then Lower else Higher
    ensures Before(a, b) != Before(b, a)
  {
  }

  // Trees in order

  /** Siblings are sorted, none is below another, and everything below a node is covered by it. */
  ghost predicate Ordered(f: seq<Node>) {
    f == [] ||
    ( && Ordered(f[0].children) && Ordered(f[1..])
      && (forall o :: o in Objs(f[0].children) ==> Covers(f[0].obj, o))
      && (forall r :: r in Roots(f[1..]) ==> Before(f[0].obj, r) && !Covers(f[0].obj, r) && !Covers(r, f[0].obj)))
  }

  lemma {:induction false} RootsAreObjs(f: seq<Node>)
    ensures Roots(f) <= Objs(f)
  {
    if f != [] {
      RootsAreObjs(f[1..]);
    }
  }

  /** What order says of the first sibling and the others. */
  lemma Uncons(f: seq<Node>)
    requires f != [] && Ordered(f)
    ensures Ordered(f[0].children) && Ordered(f[1..])
    ensures Objs(f) == {f[0].obj} + Objs(f[0].children) + Objs(f[1..]) && Roots(f) == {f[0].obj} + Roots(f[1..])
    ensures forall o :: o in Objs(f[0].children) ==> Covers(f[0].obj, o)
    ensures forall r :: r in Roots(f[1..]) ==> Apart(f[0].obj, r)
  {
  }

  /** Two siblings next to or after each other. */
  ghost predicate Apart(a: Obj, b: Obj) {
    Before(a, b) && !Covers(a, b) && !Covers(b, a)
  }

  lemma Cons(n: Node, t: seq<Node>)
    requires Ordered(n.children) && Ordered(t)
    requires forall o :: o in Objs(n.children) ==> Covers(n.obj, o)
    requires forall r :: r in Roots(t) ==> Apart(n.obj, r)
    ensures Ordered([n] + t)
    ensures Objs([n] + t) == {n.obj} + Objs(n.children) + Objs(t) && Roots([n] + t) == {n.obj} + Roots(t)
  {
    assert ([n] + t)[1..] == t;
  }

  lemma Nothing()
    ensures Ordered([]) && Objs([]) == {} && Roots([]) == {}
  {
  }

  /** Buses above the range of a bridge are not covered by it, nor are those of later siblings. */
  lemma OutOfRange(f: seq<Node>, x: Obj)
    requires f != [] && Ordered(f) && (f[0].obj.domain > x.domain || f[0].obj.bus > x.subordinate)
    requires Before(x, f[0].obj)
    ensures forall r :: r in Roots(f) ==> !Covers(x, r)
  {
    assert forall r :: r in Roots(f[1..]) ==> Before(f[0].obj, r);
  }

  /** Sifting splits siblings into those that the bridge covers and those that it does not. */
  lemma {:induction false} SiftSplits(f: seq<Node>, x: Obj, s: set<Obj>)
    requires Compatible(s) && Objs(f) <= s && x in s && x !in Objs(f) && x.bridge
    requires Ordered(f) && forall r :: r in Roots(f) ==> Before(x, r)
    ensures var (under, stay) := Sift(f, x);
            && Ordered(under) && Ordered(stay) && Roots(under) <= Roots(f) && Roots(stay) <= Roots(f)
            && Objs(under) + Objs(stay) == Objs(f)
            && (forall o :: o in Objs(under) ==> Covers(x, o)) && (forall r :: r in Roots(stay) ==> !Covers(x, r))
  {
    hide Ordered, Objs, Roots, Before, Covers, Compare, Compatible, Apart;
    if f == [] {
      Nothing();
    } else {
      Uncons(f);
      Nothing();
      var cur := f[0].obj;
      var (u, t) := Sift(f[1..], x);
      SiftSplits(f[1..], x, s);
      CompareMeans(s, x, cur);
      if Compare(x, cur) == Lower {
        if cur.domain > x.domain || cur.bus > x.subordinate {
          OutOfRange(f, x);
        } else {
          Cons(f[0], t);
        }
      } else {
        assert Covers(x, cur) by {
          if Covers(cur, x) {
            CoversBefore(s, cur, x);
          }
        }
        Cons(f[0], u);
        forall o | o in Objs(f[0].children) ensures Covers(x, o) {
          CoversTransitive(s, x, cur, o);
        }
      }
    }
  }

  /** A new object in front of all siblings. */
  lemma FrontOf(f: seq<Node>, x: Obj, s: set<Obj>)
    requires Compatible(s) && Objs(f) <= s && x in s && x !in Objs(f) && f != [] && Ordered(f)
    requires Compare(x, f[0].obj) == Lower || Compare(x, f[0].obj) == Superset
    ensures forall r :: r in Roots(f) ==> Before(x, r) && !Covers(r, x)
  {
    hide Before, Covers, Compare, Compatible;
    CompareMeans(s, x, f[0].obj);
    if Covers(x, f[0].obj) {
      CoversBefore(s, x, f[0].obj);
    }
    RootsAreObjs(f);
    forall r | r in Roots(f) ensures Before(x, r) && !Covers(r, x) {
      if r != f[0].obj {
        BeforeTransitive(x, f[0].obj, r);
      }
      CompareMeans(s, x, r);
      if Covers(r, x) {
        CoversBefore(s, r, x);
      }
    }
  }

  /** A new object before all siblings goes in front, with those that it covers below it. */
  lemma InsertFront(f: seq<Node>, x: Obj, s: set<Obj>)
    requires Compatible(s) && Objs(f) <= s && x in s && x !in Objs(f) && f != [] && Ordered(f)
    requires Compare(x, f[0].obj) == Lower || Compare(x, f[0].obj) == Superset
    ensures var r := Insert(f, x); Ordered(r) && Objs(r) == Objs(f) + {x} && Roots(r) <= Roots(f) + {x}
  {
    hide Ordered, Objs, Roots, Before, Compare, Compatible;
    FrontOf(f, x, s);
    Nothing();
    if x.bridge {
      var (under, stay) := Sift(f, x);
      SiftSplits(f, x, s);
      Cons(Node(x, under), stay);
    } else {
      Cons(Node(x, []), f);
    }
  }

  /** Inserting keeps a tree in order, loses nothing, and adds the new object. */
  lemma {:induction false} InsertKeepsOrder(f: seq<Node>, x: Obj, s: set<Obj>)
    requires Compatible(s) && Objs(f) <= s && x in s && x !in Objs(f) && Ordered(f)
    ensures var r := Insert(f, x); Ordered(r) && Objs(r) == Objs(f) + {x} && Roots(r) <= Roots(f) + {x}
    decreases f
  {
    hide Ordered, Objs, Roots, Before, Covers, Compare, Compatible;
    Nothing();
    if f == [] {
      Cons(Node(x, []), []);
      assert [Node(x, [])] + [] == [Node(x, [])];
    } else {
      var h := f[0];
      Uncons(f);
      CompareMeans(s, x, h.obj);
      if Compare(x, h.obj) == Higher {
        InsertKeepsOrder(f[1..], x, s);
        CompareMeans(s, h.obj, x);
        Cons(h, Insert(f[1..], x));
      } else if Compare(x, h.obj) == Included {
        InsertKeepsOrder(h.children, x, s);
        Cons(Node(h.obj, Insert(h.children, x)), f[1..]);
      } else {
        InsertFront(f, x, s);
      }
    }
  }

  // A tree in order is determined by its objects

  /** No bridge in a tree covers a root of it. */
  lemma {:induction false} RootsUncovered(f: seq<Node>, r: Obj, b: Obj, s: set<Obj>)
    requires Compatible(s) && Objs(f) <= s && Ordered(f) && r in Roots(f) && b in Objs(f)
    ensures !Covers(b, r)
  {
    hide Ordered, Objs, Roots, Before, Covers, Compare, Compatible;
    if f == [] {
      Nothing();
    } else {
      Uncons(f);
      RootsAreObjs(f[1..]);
      var h := f[0].obj;
      if Covers(b, r) {
        CoversBefore(s, b, r);
        if b == h {
        } else if b in Objs(f[0].children) {
          CoversTransitive(s, h, b, r);
          if r == h {
            CoversBefore(s, h, h);
          }
        } else if r in Roots(f[1..]) {
          RootsUncovered(f[1..], r, b, s);
        } else {
          HeadIsLeast(f, b, s);
          CompareMeans(s, h, b);
        }
      }
    }
  }

  /** The first root comes before everything else in its tree. */
  lemma {:induction false} HeadIsLeast(f: seq<Node>, o: Obj, s: set<Obj>)
    requires Compatible(s) && Objs(f) <= s && Ordered(f) && f != [] && o in Objs(f)
    ensures o == f[0].obj || Before(f[0].obj, o)
  {
    hide Ordered, Objs, Roots, Before, Covers, Compare, Compatible;
    Uncons(f);
    Nothing();
    var h := f[0].obj;
    if o in Objs(f[0].children) {
      CoversBefore(s, h, o);
    } else if o != h {
      HeadIsLeast(f[1..], o, s);
      Uncons(f[1..]);
      assert Apart(h, f[1].obj);
      if o != f[1].obj {
        BeforeTransitive(h, f[1].obj, o);
      }
    }
  }

  /** Later siblings and all below them are not covered by the first one. */
  lemma {:induction false} LaterUncovered(t: seq<Node>, h: Obj, o: Obj, s: set<Obj>)
    requires Compatible(s) && Objs(t) <= s && h in s && Ordered(t) && o in Objs(t)
    requires forall r :: r in Roots(t) ==> Apart(h, r)
    ensures !Covers(h, o) && o != h
  {
    hide Ordered, Objs, Roots, Before, Covers, Compare, Compatible;
    if t == [] {
      Nothing();
    } else {
      Uncons(t);
      var r := t[0].obj;
      assert Apart(h, r);
      CompareMeans(s, r, h) by {
        assert r != h by {
          if r == h {
            BeforeIrreflexive(h);
          }
        }
      }
      if o in Objs(t[0].children) {
        if Covers(h, o) {
          CoversChain(s, h, r, o);
        }
      } else if o != r {
        LaterUncovered(t[1..], h, o, s);
      }
    }
  }

  lemma BeforeIrreflexive(a: Obj)
    ensures !Before(a, a)
  {
  }

  /** Which objects are below the first root, and which come after it. */
  lemma HeadSplits(f: seq<Node>, s: set<Obj>)
    requires Compatible(s) && Objs(f) <= s && Ordered(f) && f != []
    ensures f[0].obj in Objs(f)
    ensures Objs(f[0].children) == set o | o in Objs(f) && Covers(f[0].obj, o)
    ensures Objs(f[1..]) == set o | o in Objs(f) && o != f[0].obj && !Covers(f[0].obj, o)
  {
    hide Ordered, Objs, Roots, Before, Covers, Compare, Compatible;
    Uncons(f);
    var h := f[0].obj;
    forall o | o in Objs(f[1..]) ensures !Covers(h, o) && o != h {
      LaterUncovered(f[1..], h, o, s);
    }
    if Covers(h, h) {
      CoversBefore(s, h, h);
    }
  }

  /** Two trees in order with the same objects are the same tree. */
  lemma {:induction false} TreeDetermined(f: seq<Node>, g: seq<Node>, s: set<Obj>)
    requires Compatible(s) && Objs(f) <= s && Ordered(f) && Ordered(g) && Objs(f) == Objs(g)
    ensures f == g
    decreases f
  {
    hide Ordered, Objs, Roots, Before, Covers, Compare, Compatible;
    Nothing();
    if f == [] || g == [] {
      if f != [] {
        Uncons(f);
      }
      if g != [] {
        Uncons(g);
      }
    } else {
      Uncons(f);
      Uncons(g);
      HeadIsLeast(f, g[0].obj, s);
      HeadIsLeast(g, f[0].obj, s);
      if f[0].obj != g[0].obj {
        CompareMeans(s, f[0].obj, g[0].obj);
      }
      HeadSplits(f, s);
      HeadSplits(g, s);
      TreeDetermined(f[0].children, g[0].children, s);
      TreeDetermined(f[1..], g[1..], s);
      assert f == [f[0]] + f[1..] && g == [g[0]] + g[1..];
      assert f[0] == Node(f[0].obj, f[0].children) && g[0] == Node(g[0].obj, g[0].children);
    }
  }

  // Any order of discovery

  /** The tree after inserting objects one after the other. */
  function InsertAll(objs: seq<Obj>): seq<Node> {
    if objs == [] then [] else Insert(InsertAll(objs[..|objs| - 1]), objs[|objs| - 1])
  }

  ghost predicate NoRepeats(objs: seq<Obj>) {
    forall i, j :: 0 <= i < j < |objs| ==> objs[i] != objs[j]
  }

  ghost function Elements(objs: seq<Obj>): set<Obj> {
    set o | o in objs
  }

  /** The tree of any discovery is in order and has all objects. */
  lemma {:induction false} DiscoveryInOrder(objs: seq<Obj>)
    requires Compatible(Elements(objs)) && NoRepeats(objs)
    ensures Ordered(InsertAll(objs)) && Objs(InsertAll(objs)) == Elements(objs)
  {
    hide Ordered, Objs, Compatible;
    if objs == [] {
      Nothing();
    } else {
      var n := |objs| - 1;
      var front, x := objs[..n], objs[n];
      assert Elements(objs) == Elements(front) + {x} by {
        assert objs == front + [x];
      }
      CompatibleSubset(Elements(objs), Elements(front));
      DiscoveryInOrder(front);
      InsertKeepsOrder(InsertAll(front), x, Elements(objs));
    }
  }

  /** Discovering the same objects in another order gives the same tree. */
  lemma OrderIndependent(a: seq<Obj>, b: seq<Obj>)
    requires Compatible(Elements(a)) && NoRepeats(a) && NoRepeats(b) && Elements(a) == Elements(b)
    ensures InsertAll(a) == InsertAll(b)
  {
    DiscoveryInOrder(a);
    DiscoveryInOrder(b);
    TreeDetermined(InsertAll(a), InsertAll(b), Elements(a));
  }

  /** Whether p is the parent of o somewhere in a tree. */
  ghost predicate Parent(f: seq<Node>, p: Obj, o: Obj) {
    f != [] && ((f[0].obj == p && o in Roots(f[0].children)) || Parent(f[0].children, p, o) || Parent(f[1..], p, o))
  }

  /** The parent of an object is the innermost bridge that covers it. */
  lemma {:induction false} ParentIsInnermost(f: seq<Node>, p: Obj, o: Obj, s: set<Obj>)
    requires Compatible(s) && Objs(f) <= s && Ordered(f) && Parent(f, p, o)
    ensures p in Objs(f) && o in Objs(f) && Covers(p, o)
    ensures forall b :: b in Objs(f) && Covers(b, o) && b != p ==> Covers(b, p)
    decreases f
  {
    hide Ordered, Objs, Roots, Before, Covers, Compare, Compatible;
    Uncons(f);
    HeadSplits(f, s);
    var h := f[0].obj;
    RootsAreObjs(f[0].children);
    if h == p && o in Roots(f[0].children) {
      forall b | b in Objs(f) && Covers(b, o) && b != p ensures Covers(b, p) {
        CoversChain(s, b, p, o);
        if Covers(p, b) {
          RootsUncovered(f[0].children, o, b, s);
        }
      }
    } else if Parent(f[0].children, p, o) {
      ParentIsInnermost(f[0].children, p, o, s);
      forall b | b in Objs(f) && Covers(b, o) && b != p ensures Covers(b, p) {
        if b !in Objs(f[0].children) && b != h {
          CoversChain(s, b, p, o);
          if Covers(p, b) {
            CoversTransitive(s, h, p, b);
          }
        }
      }
    } else {
      ParentIsInnermost(f[1..], p, o, s);
      forall b | b in Objs(f) && Covers(b, o) && b != p ensures Covers(b, p) {
        if b in Objs(f[0].children) {
          CoversTransitive(s, h, b, o);
        }
      }
    }
  }

  predicate SameId(a: Obj, b: Obj) {
    a.domain == b.domain && a.bus == b.bus && a.dev == b.dev && a.func == b.func
  }

  /** An object with the bus id of another one in the tree is dropped. */
  lemma {:induction false} DuplicateDropped(f: seq<Node>, x: Obj, y: Obj, s: set<Obj>)
    requires Compatible(s) && Objs(f) <= s && Ordered(f) && y in Objs(f) && SameId(x, y)
    requires x.bridge ==> x.bus < x.secondary
    ensures Insert(f, x) == f
    decreases f
  {
    hide Ordered, Objs, Roots, Compatible;
    if f == [] {
      Nothing();
    } else {
      var h := f[0];
      assert f == [h] + f[1..] && h == Node(h.obj, h.children);
      Uncons(f);
      HeadIsLeast(f, y, s);
      HeadSplits(f, s);
      if y in Objs(h.children) {
        ValidBridge(s, h.obj);
        assert Compare(x, h.obj) == Included;
        DuplicateDropped(h.children, x, y, s);
      } else if y == h.obj {
        ValidBridge(s, y);
        assert Compare(x, h.obj) == Equal;
      } else {
        assert Compare(x, h.obj) == Higher;
        DuplicateDropped(f[1..], x, y, s);
      }
    }
  }

  lemma ValidBridge(s: set<Obj>, a: Obj)
    requires Compatible(s) && a in s
    ensures a.bridge ==> a.bus < a.secondary <= a.subordinate
  {
  }

  lemma InsertedFirst(x: Obj)
    ensures InsertAll([]) == [] && Insert([], x) == [Node(x, [])]
  {
  }

  lemma InsertedBelow(h: Node, x: Obj)
    requires Compare(x, h.obj) == Included
    ensures Insert([h], x) == [Node(h.obj, Insert(h.children, x))]
  {
    assert [h][1..] == [];
  }

  lemma InsertedAfter(h: Node, x: Obj)
    requires Compare(x, h.obj) == Higher
    ensures Insert([h], x) == [h, Node(x, [])]
  {
    assert [h][1..] == [];
  }

  lemma InsertedOver(h: Node, x: Obj)
    requires Compare(x, h.obj) == Superset && x.bridge
    ensures Insert([h], x) == [Node(x, [h])]
  {
    assert [h][1..] == [] && Sift([], x) == ([], []) && [h] + [] == [h];
    assert Sift([h], x) == ([h], []);
  }

  lemma InsertedLast(found: seq<Obj>, x: Obj)
    ensures InsertAll(found + [x]) == Insert(InsertAll(found), x)
  {
    assert (found + [x])[..|found|] == found;
  }

  lemma ThreeInserted(x: Obj, y: Obj, z: Obj)
    ensures InsertAll([x, y, z]) == Insert(Insert(Insert([], x), y), z)
  {
    hide Insert;
    InsertedFirst(x);
    InsertedLast([], x);
    InsertedLast([x], y);
    InsertedLast([x, y], z);
    assert [] + [x] == [x] && [x] + [y] == [x, y] && [x, y] + [z] == [x, y, z];
  }

  /** Without compatibility the order matters: here the second bridge is on a bus below the first,
      but leads to buses outside the range of the first. */
  lemma OrderMattersOtherwise()
    ensures var a, b, d := Obj(0, 0, 0, 0, true, 1, 5), Obj(0, 3, 0, 0, true, 7, 9), Obj(0, 8, 0, 0, false, 0, 0);
            && InsertAll([a, b, d]) == [Node(a, [Node(b, [])]), Node(d, [])]
            && InsertAll([d, b, a]) == [Node(a, [Node(b, [Node(d, [])])])]
  {
    hide Insert, InsertAll;
    var a, b, d := Obj(0, 0, 0, 0, true, 1, 5), Obj(0, 3, 0, 0, true, 7, 9), Obj(0, 8, 0, 0, false, 0, 0);
    ThreeInserted(a, b, d);
    InsertedFirst(a);
    InsertedFirst(b);
    InsertedBelow(Node(a, []), b);
    InsertedAfter(Node(a, [Node(b, [])]), d);
    ThreeInserted(d, b, a);
    InsertedFirst(d);
    InsertedOver(Node(d, []), b);
    InsertedOver(Node(b, [Node(d, [])]), a);
  }
}

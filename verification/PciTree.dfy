/** The tree of PCI objects that hwloc builds while it discovers them, in whatever order. */
module PciTree {
  /** A PCI object. Only a bridge to a PCI bus has a range of buses below it. */
  datatype Obj = Obj(domain: nat, bus: nat, dev: nat, func: nat, bridge: bool, secondary: nat, subordinate: nat)

  /** An object with its list of children; a list of siblings is a sequence of nodes. */
  datatype Node = Node(obj: Obj, children: seq<Node>)

  /** Whether b is on a bus below bridge a. */
  predicate Covers(a: Obj, b: Obj) {
    a.domain == b.domain && a.bridge && a.secondary <= b.bus <= a.subordinate
  }

  datatype Comparison = Lower | Higher | Included | Superset | Equal

  /** hwloc_pci_compare_busids */
  function Compare(a: Obj, b: Obj): Comparison {
    if a.domain < b.domain then Lower
    else if a.domain > b.domain then Higher
    else if a.bridge && a.secondary <= b.bus <= a.subordinate then Superset
    else if b.bridge && b.secondary <= a.bus <= b.subordinate then Included
    else if a.bus < b.bus then Lower
    else if a.bus > b.bus then Higher
    else if a.dev < b.dev then Lower
    else if a.dev > b.dev then Higher
    else if a.func < b.func then Lower
    else if a.func > b.func then Higher
    else Equal
  }

  /** The order of bus ids. */
  predicate Before(a: Obj, b: Obj) {
    || a.domain < b.domain
    || (a.domain == b.domain && (a.bus < b.bus
      || (a.bus == b.bus && (a.dev < b.dev || (a.dev == b.dev && a.func < b.func)))))
  }

  /** The siblings that a new bridge takes over, and those that stay beside it. */
  function Sift(f: seq<Node>, x: Obj): (r: (seq<Node>, seq<Node>)) {
    if f == [] then ([], [])
    else
      var cur := f[0].obj;
      if Compare(x, cur) == Lower then
        if cur.domain > x.domain || cur.bus > x.subordinate then ([], f)
        else
          var (under, stay) := Sift(f[1..], x);
          (under, [f[0]] + stay)
      else
        var (under, stay) := Sift(f[1..], x);
        ([f[0]] + under, stay)
  }

  /** hwloc_pci_add_object: siblings with a new object somewhere among or below them. An object
      with a bus id that is already there is dropped. */
  function Insert(f: seq<Node>, x: Obj): seq<Node> {
    if f == [] then [Node(x, [])]
    else
      match Compare(x, f[0].obj)
      case Higher => [f[0]] + Insert(f[1..], x)
      case Included => [Node(f[0].obj, Insert(f[0].children, x))] + f[1..]
      case Equal => f
      case _ =>
        if x.bridge then
          var (under, stay) := Sift(f, x);
          [Node(x, under)] + stay
        else [Node(x, [])] + f
  }

  lemma Regroup<T>(a: seq<T>, x: T, b: seq<T>)
    ensures (a + [x]) + b == a + ([x] + b)
  {
  }

  /** Where sifting stands at sibling i. */
  ghost predicate Sifting(f: seq<Node>, i: nat, x: Obj, under: seq<Node>, stay: seq<Node>)
    requires i <= |f|
  {
    var (u, s) := Sift(f[i..], x);
    Sift(f, x) == (under + u, stay + s)
  }

  lemma SiftStep(f: seq<Node>, i: nat, x: Obj, under: seq<Node>, stay: seq<Node>)
    requires i < |f| && Sifting(f, i, x, under, stay)
    ensures var cur := f[i].obj;
            if Compare(x, cur) != Lower then Sifting(f, i + 1, x, under + [f[i]], stay)
            else if cur.domain > x.domain || cur.bus > x.subordinate then Sift(f, x) == (under, stay + f[i..])
            else Sifting(f, i + 1, x, under, stay + [f[i]])
  {
    hide Compare;
    var rest := f[i..];
    assert rest[0] == f[i] && rest[1..] == f[i + 1..];
    var (u, s) := Sift(f[i + 1..], x);
    Regroup(under, f[i], u);
    Regroup(stay, f[i], s);
    assert under + [] == under;
  }

  lemma SiftNothing(x: Obj)
    ensures Sift([], x) == ([], [])
  {
  }

  lemma InsertStep(f: seq<Node>, i: nat, x: Obj)
    requires i < |f| && Compare(x, f[i].obj) == Higher && Insert(f, x) == f[..i] + Insert(f[i..], x)
    ensures Insert(f, x) == f[..i + 1] + Insert(f[i + 1..], x)
  {
    var rest := f[i..];
    assert rest[0] == f[i] && rest[1..] == f[i + 1..] && f[..i + 1] == f[..i] + [f[i]];
    Regroup(f[..i], f[i], Insert(f[i + 1..], x));
  }
}

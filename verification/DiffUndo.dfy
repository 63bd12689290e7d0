/** Exactly when a diff that fails leaves the objects as they were. */
module DiffUndo {
  import opened Diffs
  import opened DiffTotals
  import opened Infos
  import opened Options

  /** An attribute that an entry can be about. */
  datatype Attribute<O> = SizeOf(o: O) | NameOf(o: O) | InfoOf(o: O, name: string)

  datatype Value = Number(n: nat) | Text(text: string)

  function About<O>(sh: Shape<O>, d: Entry): Option<Attribute<O>> {
    if d.TooComplex? || d.place !in sh.places then None
    else
      var o := sh.places[d.place];
      match d
      case Size(_, _, _) => Some(SizeOf(o))
      case Name(_, _, _) => Some(NameOf(o))
      case InfoValue(_, name, _, _) => Some(InfoOf(o, name))
  }

  /** The values that an entry wants to find and to leave. */
  function Before(d: Entry, reverse: bool): Option<Value> {
    match d
    case Size(_, a, b) => Some(Number(if reverse then b else a))
    case Name(_, a, b) => Some(Text(if reverse then b else a))
    case InfoValue(_, _, a, b) => Some(Text(if reverse then b else a))
    case TooComplex(_) => None
  }

  function After(d: Entry, reverse: bool): Option<Value> {
    Before(d, !reverse)
  }

  function Lookup(infos: seq<Info>, name: string): Option<Value> {
    if infos == [] then None
    else if infos[0].name == name then Some(Text(infos[0].value))
    else Lookup(infos[1..], name)
  }

  /** The value of an attribute; only NUMA nodes have a size that a diff can change. */
  function ValueOf<O>(s: Objects<O>, a: Attribute<O>): Option<Value> {
    if a.o !in s then None
    else
      match a
      case SizeOf(o) => if s[o].numa then Some(Number(s[o].local)) else None
      case NameOf(o) => if s[o].name.Some? then Some(Text(s[o].name.value)) else None
      case InfoOf(o, name) => Lookup(s[o].infos, name)
  }

  lemma {:induction false} LookupAt(infos: seq<Info>, i: nat)
    requires UniqueNames(infos) && i < |infos|
    ensures Lookup(infos, infos[i].name) == Some(Text(infos[i].value))
    decreases |infos|
  {
    if i > 0 {
      LookupAt(infos[1..], i - 1);
    }
  }

  lemma {:induction false} LookupFinds(infos: seq<Info>, name: string)
    ensures Lookup(infos, name) == None <==> forall i :: 0 <= i < |infos| ==> infos[i].name != name
    decreases |infos|
  {
    if infos != [] {
      LookupFinds(infos[1..], name);
      assert forall i :: 1 <= i < |infos| ==> infos[i] == infos[1..][i - 1];
    }
  }

  /** An info is found by name and value exactly when the value is the one of that name. */
  lemma FindIsLookup(infos: seq<Info>, name: string, value: string)
    requires UniqueNames(infos)
    ensures FindInfo(infos, name, value) < |infos| <==> Lookup(infos, name) == Some(Text(value))
  {
    LookupFinds(infos, name);
    var i := FindInfo(infos, name, value);
    if i < |infos| {
      LookupAt(infos, i);
    } else if m :| 0 <= m < |infos| && infos[m].name == name {
      LookupAt(infos, m);
    }
  }

  lemma ReplacedLookup(infos: seq<Info>, name: string, was: string, to: string, other: string)
    requires UniqueNames(infos) && ReplaceInfo(infos, name, was, to).Some?
    ensures
      var infos' := ReplaceInfo(infos, name, was, to).value;
      Lookup(infos', other) == if other == name then Some(Text(to)) else Lookup(infos, other)
  {
    hide Lookup;
    var i, infos' := FindInfo(infos, name, was), ReplaceInfo(infos, name, was, to).value;
    assert UniqueNames(infos');
    if other == name {
      LookupAt(infos', i);
    } else {
      LookupFinds(infos, other);
      LookupFinds(infos', other);
      if m :| 0 <= m < |infos| && infos[m].name == other {
        LookupAt(infos, m);
        LookupAt(infos', m);
      }
    }
  }

  // One entry

  /** An entry applies exactly when its attribute has the value that it wants to find. */
  lemma AppliesExactly<O>(sh: Shape<O>, s: Objects<O>, d: Entry)
    requires Ready(sh, s)
    ensures Forward(sh, s, d).Some? <==> About(sh, d).Some? && ValueOf(s, About(sh, d).value) == Before(d, false)
  {
    hide Lookup, FindInfo;
    if d.InfoValue? && d.place in sh.places {
      FindIsLookup(s[sh.places[d.place]].infos, d.name, d.oldText);
    }
  }

  /** It gives its attribute its new value, and leaves all others alone. */
  lemma ForwardValue<O>(sh: Shape<O>, s: Objects<O>, d: Entry, a: Attribute<O>)
    requires Ready(sh, s) && Forward(sh, s, d).Some?
    ensures ValueOf(Forward(sh, s, d).value, a) == if About(sh, d) == Some(a) then After(d, false) else ValueOf(s, a)
  {
    hide Lookup, FindInfo, ReplaceInfo;
    if d.InfoValue? && a.InfoOf? {
      ReplacedLookup(s[sh.places[d.place]].infos, d.name, d.oldText, d.newText, a.name);
    }
  }

  /** What one entry, applied or left out, makes of the value of an attribute. */
  function Stepped<O>(sh: Shape<O>, a: Attribute<O>, d: Entry, reverse: bool, v: Option<Value>): Option<Value> {
    if About(sh, d) == Some(a) && v == Before(d, reverse) then After(d, reverse) else v
  }

  function Loose<O>(sh: Shape<O>, s: Objects<O>, d: Entry, reverse: bool): Objects<O> {
    var s' := ApplyOne(sh, s, d, reverse);
    if s'.Some? then s'.value else s
  }

  lemma SwappedIs<O>(sh: Shape<O>, d: Entry, reverse: bool)
    ensures About(sh, Swapped(d)) == About(sh, d) && Before(Swapped(d), reverse) == After(d, reverse)
  {
  }

  lemma StepValue<O>(sh: Shape<O>, s: Objects<O>, d: Entry, reverse: bool, a: Attribute<O>)
    requires Ready(sh, s)
    ensures ValueOf(Loose(sh, s, d, reverse), a) == Stepped(sh, a, d, reverse, ValueOf(s, a))
  {
    hide Forward, ValueOf, Ready, About;
    var e := if reverse then Swapped(d) else d;
    SwappedIs(sh, d, false);
    AppliesExactly(sh, s, e);
    if Forward(sh, s, e).Some? {
      ForwardValue(sh, s, e, a);
    }
  }

  // What no entry changes

  /** The same objects, with infos of the same names, and the same memory but for NUMA nodes. */
  ghost predicate Alike<O>(s: Objects<O>, s': Objects<O>) {
    && s.Keys == s'.Keys
    && forall o :: o in s ==>
         && s[o].numa == s'[o].numa && (s[o].numa || s[o].local == s'[o].local)
         && |s[o].infos| == |s'[o].infos|
         && forall i :: 0 <= i < |s[o].infos| ==> s[o].infos[i].name == s'[o].infos[i].name
  }

  lemma ReplaceKeepsNames(infos: seq<Info>, name: string, was: string, to: string)
    requires ReplaceInfo(infos, name, was, to).Some?
    ensures
      var infos' := ReplaceInfo(infos, name, was, to).value;
      |infos'| == |infos| && forall i :: 0 <= i < |infos| ==> infos'[i].name == infos[i].name
  {
  }

  lemma StepIsAlike<O>(sh: Shape<O>, s: Objects<O>, d: Entry, reverse: bool)
    requires Fits(sh, s)
    ensures Alike(s, Loose(sh, s, d, reverse))
  {
    hide ReplaceInfo, FindInfo;
    var e := if reverse then Swapped(d) else d;
    if e.InfoValue? && Forward(sh, s, e).Some? {
      ReplaceKeepsNames(s[sh.places[e.place]].infos, e.name, e.oldText, e.newText);
    }
  }

  lemma LooseReady<O>(sh: Shape<O>, s: Objects<O>, d: Entry, reverse: bool)
    requires Ready(sh, s) && Sized(d)
    ensures Ready(sh, Loose(sh, s, d, reverse))
  {
    hide Forward, Fits;
    if ApplyOne(sh, s, d, reverse).Some? {
      StepKeeps(sh, s, d, reverse);
    }
  }

  lemma AlikeChain<O>(s: Objects<O>, s': Objects<O>, s'': Objects<O>)
    requires Alike(s, s') && Alike(s', s'')
    ensures Alike(s, s'')
  {
  }

  // A whole diff

  /** What a pass over a diff makes of the value of an attribute. */
  function Walk<O>(sh: Shape<O>, a: Attribute<O>, ds: seq<Entry>, reverse: bool, v: Option<Value>): Option<Value> {
    if ds == [] then v
    else
      var n := |ds| - 1;
      Stepped(sh, a, ds[n], reverse, Walk(sh, a, ds[..n], reverse, v))
  }

  lemma {:induction false} LooseWalks<O>(sh: Shape<O>, s: Objects<O>, ds: seq<Entry>, reverse: bool)
    requires Ready(sh, s) && AllSized(ds)
    ensures
      var s' := ApplyLoose(sh, s, ds, reverse);
      Ready(sh, s') && Alike(s, s') && forall a :: ValueOf(s', a) == Walk(sh, a, ds, reverse, ValueOf(s, a))
  {
    if ds != [] {
      hide ApplyOne, Ready, Alike, ValueOf, Stepped, Sized;
      var n := |ds| - 1;
      LooseWalks(sh, s, ds[..n], reverse);
      var s' := ApplyLoose(sh, s, ds[..n], reverse);
      assert ApplyLoose(sh, s, ds, reverse) == Loose(sh, s', ds[n], reverse);
      LooseReady(sh, s', ds[n], reverse);
      AlikeStep(sh, s, s', ds[n], reverse);
      forall a ensures ValueOf(Loose(sh, s', ds[n], reverse), a) == Walk(sh, a, ds, reverse, ValueOf(s, a)) {
        StepValue(sh, s', ds[n], reverse, a);
      }
    } else {
      AlikeSelf(s);
    }
  }

  lemma AlikeSelf<O>(s: Objects<O>)
    ensures Alike(s, s)
  {
  }

  lemma AlikeStep<O>(sh: Shape<O>, s: Objects<O>, s': Objects<O>, d: Entry, reverse: bool)
    requires Alike(s, s') && Ready(sh, s')
    ensures Alike(s, Loose(sh, s', d, reverse))
  {
    hide Alike, Loose;
    StepIsAlike(sh, s', d, reverse);
    AlikeChain(s, s', Loose(sh, s', d, reverse));
  }

  // The values of the attributes say all there is to say

  lemma SameInfos(infos: seq<Info>, infos': seq<Info>)
    requires UniqueNames(infos) && UniqueNames(infos') && |infos| == |infos'|
    requires forall i :: 0 <= i < |infos| ==> infos[i].name == infos'[i].name
    requires forall name :: Lookup(infos, name) == Lookup(infos', name)
    ensures infos == infos'
  {
    hide Lookup;
    forall i | 0 <= i < |infos| ensures infos[i] == infos'[i] {
      LookupAt(infos, i);
      LookupAt(infos', i);
      assert Lookup(infos, infos[i].name) == Lookup(infos', infos[i].name);
    }
  }

  lemma SameButTotals<O>(sh: Shape<O>, s: Objects<O>, s': Objects<O>, o: O)
    requires Ready(sh, s) && Ready(sh, s') && Alike(s, s') && o in s
    requires forall a: Attribute<O> :: ValueOf(s, a) == ValueOf(s', a)
    ensures s'[o] == s[o].(total := s'[o].total)
  {
    hide Lookup;
    assert ValueOf(s, SizeOf(o)) == ValueOf(s', SizeOf(o));
    assert ValueOf(s, NameOf(o)) == ValueOf(s', NameOf(o));
    assert s[o].infos == s'[o].infos by {
      forall name ensures Lookup(s[o].infos, name) == Lookup(s'[o].infos, name) {
        assert ValueOf(s, InfoOf(o, name)) == ValueOf(s', InfoOf(o, name));
      }
      SameInfos(s[o].infos, s'[o].infos);
    }
  }

  lemma SameValues<O>(sh: Shape<O>, s: Objects<O>, s': Objects<O>)
    requires Ready(sh, s) && Ready(sh, s') && Alike(s, s') && Summed(sh, s) && Summed(sh, s')
    requires forall a: Attribute<O> :: ValueOf(s, a) == ValueOf(s', a)
    ensures s == s'
  {
    hide LocalSum, ValueOf, UniqueNames;
    forall o | o in s ensures s[o] == s'[o] {
      SameButTotals(sh, s, s', o);
      var nodes := Below(sh, s, o);
      forall x | x in nodes ensures s[x].local == s'[x].local {
        SameButTotals(sh, s, s', x);
      }
      assert nodes == Below(sh, s', o);
      SameLocals(s, s', nodes);
    }
  }

  // The theorem

  /** The first entry about an attribute wants to find its value before the diff. */
  function Origin<O>(sh: Shape<O>, a: Attribute<O>, ds: seq<Entry>, reverse: bool): Option<Value> {
    if ds == [] then None
    else if About(sh, ds[0]) == Some(a) then Before(ds[0], reverse)
    else Origin(sh, a, ds[1..], reverse)
  }

  /** Read off the entries alone: there and back, by their old and new values, the value of the
      attribute of each of them comes out as it went in. */
  ghost predicate Unwinds<O>(sh: Shape<O>, ds: seq<Entry>, reverse: bool) {
    forall i :: 0 <= i < |ds| && About(sh, ds[i]).Some? ==> ComesBack(sh, About(sh, ds[i]).value, ds, reverse)
  }

  predicate ComesBack<O(==)>(sh: Shape<O>, a: Attribute<O>, ds: seq<Entry>, reverse: bool) {
    var v := Origin(sh, a, ds, reverse);
    Walk(sh, a, ds, !reverse, Walk(sh, a, ds, reverse, v)) == v
  }

  lemma {:induction false} WalkElsewhere<O>(sh: Shape<O>,
      a: Attribute<O>, ds: seq<Entry>, reverse: bool, v: Option<Value>)
    requires forall i :: 0 <= i < |ds| ==> About(sh, ds[i]) != Some(a)
    ensures Walk(sh, a, ds, reverse, v) == v
  {
    if ds != [] {
      WalkElsewhere(sh, a, ds[..|ds| - 1], reverse, v);
    }
  }

  lemma {:induction false} OriginIs<O>(sh: Shape<O>, a: Attribute<O>, ds: seq<Entry>, reverse: bool, i: nat)
    requires i < |ds| && About(sh, ds[i]) == Some(a) && forall j :: 0 <= j < i ==> About(sh, ds[j]) != Some(a)
    ensures Origin(sh, a, ds, reverse) == Before(ds[i], reverse)
    decreases |ds|
  {
    if i > 0 {
      OriginIs(sh, a, ds[1..], reverse, i - 1);
    }
  }

  lemma {:induction false} FirstAbout<O>(sh: Shape<O>, a: Attribute<O>, ds: seq<Entry>, i: nat) returns (f: nat)
    requires i < |ds| && About(sh, ds[i]) == Some(a)
    ensures f <= i && About(sh, ds[f]) == Some(a) && forall j :: 0 <= j < f ==> About(sh, ds[j]) != Some(a)
  {
    if j :| 0 <= j < i && About(sh, ds[j]) == Some(a) {
      f := FirstAbout(sh, a, ds, j);
    } else {
      f := i;
    }
  }

  lemma {:induction false} PrefixesApply<O>(sh: Shape<O>, s: Objects<O>, ds: seq<Entry>, reverse: bool, i: nat)
    requires ApplyMany(sh, s, ds, reverse).1 == |ds| && i < |ds|
    ensures ApplyMany(sh, s, ds[..i], reverse).1 == i
    ensures ApplyOne(sh, ApplyMany(sh, s, ds[..i], reverse).0, ds[i], reverse).Some?
    decreases |ds|
  {
    hide ApplyOne;
    var n := |ds| - 1;
    if i < n {
      PrefixesApply(sh, s, ds[..n], reverse, i);
      assert ds[..n][..i] == ds[..i];
    }
  }

  /** In a diff that applies, each entry finds the value that it wants to find. */
  lemma EntryFinds<O>(sh: Shape<O>, s: Objects<O>, ds: seq<Entry>, reverse: bool, i: nat, a: Attribute<O>)
    requires Ready(sh, s) && AllSized(ds) && ApplyMany(sh, s, ds, reverse).1 == |ds|
    requires i < |ds| && About(sh, ds[i]) == Some(a)
    ensures Walk(sh, a, ds[..i], reverse, ValueOf(s, a)) == Before(ds[i], reverse)
  {
    hide Forward, Ready, ValueOf, About, Walk, Alike, ApplyMany, ApplyLoose;
    var s' := ApplyMany(sh, s, ds[..i], reverse).0;
    PrefixesApply(sh, s, ds, reverse, i);
    LooseIsMany(sh, s, ds[..i], reverse);
    LooseWalks(sh, s, ds[..i], reverse);
    SwappedIs(sh, ds[i], false);
    AppliesExactly(sh, s', if reverse then Swapped(ds[i]) else ds[i]);
  }

  /** The attribute of an entry has its origin as value before the diff. */
  lemma OriginIsValue<O>(sh: Shape<O>, s: Objects<O>, ds: seq<Entry>, reverse: bool, a: Attribute<O>, i: nat)
    requires Ready(sh, s) && AllSized(ds) && ApplyMany(sh, s, ds, reverse).1 == |ds|
    requires i < |ds| && About(sh, ds[i]) == Some(a)
    ensures Origin(sh, a, ds, reverse) == ValueOf(s, a)
  {
    hide ValueOf, ApplyMany, Ready, Sized, Origin;
    var f := FirstAbout(sh, a, ds, i);
    OriginIs(sh, a, ds, reverse, f);
    WalkElsewhere(sh, a, ds[..f], reverse, ValueOf(s, a));
    EntryFinds(sh, s, ds, reverse, f, a);
  }

  lemma PassesWalk<O>(sh: Shape<O>, s: Objects<O>, ds: seq<Entry>, reverse: bool)
    requires Ready(sh, s) && AllSized(ds)
    requires ApplyMany(sh, s, ds, reverse).1 == |ds|
    ensures
      var s' := ApplyLoose(sh, ApplyMany(sh, s, ds, reverse).0, ds, !reverse);
      && Ready(sh, s') && Alike(s, s')
      && forall a :: ValueOf(s', a) == Walk(sh, a, ds, !reverse, Walk(sh, a, ds, reverse, ValueOf(s, a)))
  {
    hide ValueOf, ApplyMany, Ready, Sized, Alike, Walk;
    LooseIsMany(sh, s, ds, reverse);
    LooseWalks(sh, s, ds, reverse);
    var s1 := ApplyMany(sh, s, ds, reverse).0;
    LooseWalks(sh, s1, ds, !reverse);
    AlikeChain(s, s1, ApplyLoose(sh, s1, ds, !reverse));
  }

  /** A diff that fails leaves the objects as they were exactly when the entries applied before the
      failing one unwind, which can be told from the diff alone. */
  lemma FailureRestoresExactly<O>(sh: Shape<O>, s: Objects<O>, ds: seq<Entry>, reverse: bool)
    requires Ready(sh, s) && Summed(sh, s) && AllSized(ds) && Applied(sh, s, ds, reverse).1 != 0
    ensures
      var (s', result) := Applied(sh, s, ds, reverse);
      var k := -result - 1;
      0 <= k < |ds| && (s' == s <==> Unwinds(sh, ds[..k], reverse))
  {
    hide ValueOf, ApplyMany, ApplyLoose, Ready, Sized, Alike, Walk, Origin, Summed, Fits;
    var k := ApplyMany(sh, s, ds, reverse).1;
    var applied := ds[..k];
    var s' := Applied(sh, s, ds, reverse).0;
    PrefixApplies(sh, s, ds, reverse);
    ReadySummed(sh, s, ds, reverse);
    PassesWalk(sh, s, applied, reverse);
    if s' == s {
      forall i | 0 <= i < k && About(sh, applied[i]).Some?
        ensures ComesBack(sh, About(sh, applied[i]).value, applied, reverse)
      {
        OriginIsValue(sh, s, applied, reverse, About(sh, applied[i]).value, i);
      }
    }
    if Unwinds(sh, applied, reverse) {
      forall a ensures ValueOf(s, a) == ValueOf(s', a) {
        if i :| 0 <= i < k && About(sh, applied[i]) == Some(a) {
          assert ComesBack(sh, a, applied, reverse);
          OriginIsValue(sh, s, applied, reverse, a, i);
        } else {
          WalkElsewhere(sh, a, applied, reverse, ValueOf(s, a));
          WalkElsewhere(sh, a, applied, !reverse, ValueOf(s, a));
        }
      }
      SameValues(sh, s, s');
    }
  }

  lemma ReadySummed<O>(sh: Shape<O>, s: Objects<O>, ds: seq<Entry>, reverse: bool)
    requires Ready(sh, s) && Summed(sh, s) && AllSized(ds)
    ensures var s' := Applied(sh, s, ds, reverse).0; sh.above.Keys == s'.Keys && Summed(sh, s')
  {
    hide Summed, Applied;
    TotalsStayRight(sh, s, ds, reverse);
  }

  // An attribute named twice

  /** No value that an entry wants to find is left again, for the same attribute, by it or a later one. */
  ghost predicate NeverRepeats<O>(sh: Shape<O>, ds: seq<Entry>, reverse: bool) {
    forall i, j :: 0 <= i <= j < |ds| && About(sh, ds[i]).Some? && About(sh, ds[i]) == About(sh, ds[j]) ==>
      Before(ds[i], reverse) != After(ds[j], reverse)
  }

  /** Each entry about an attribute finds what the entries before it have left. */
  ghost predicate Chained<O>(sh: Shape<O>, a: Attribute<O>, ds: seq<Entry>, reverse: bool, v: Option<Value>) {
    forall i :: 0 <= i < |ds| && About(sh, ds[i]) == Some(a) ==>
      Walk(sh, a, ds[..i], reverse, v) == Before(ds[i], reverse)
  }

  ghost predicate LastAbout<O>(sh: Shape<O>, a: Attribute<O>, ds: seq<Entry>, i: nat) {
    && i < |ds| && About(sh, ds[i]) == Some(a)
    && forall j :: i < j < |ds| ==> About(sh, ds[j]) != Some(a)
  }

  lemma {:induction false} FindLast<O>(sh: Shape<O>, a: Attribute<O>, ds: seq<Entry>, i: nat) returns (l: nat)
    requires i < |ds| && About(sh, ds[i]) == Some(a)
    ensures i <= l && LastAbout(sh, a, ds, l)
    decreases |ds| - i
  {
    if j :| i < j < |ds| && About(sh, ds[j]) == Some(a) {
      l := FindLast(sh, a, ds, j);
    } else {
      l := i;
    }
  }

  /** The way there ends with what the last entry leaves. */
  lemma {:induction false} WalkEnds<O>(sh: Shape<O>, a: Attribute<O>,
      ds: seq<Entry>, reverse: bool, v: Option<Value>, l: nat)
    requires Chained(sh, a, ds, reverse, v) && LastAbout(sh, a, ds, l)
    ensures Walk(sh, a, ds, reverse, v) == After(ds[l], reverse)
    decreases |ds|
  {
    var n := |ds| - 1;
    if l < n {
      assert Chained(sh, a, ds[..n], reverse, v) by {
        assert forall i :: 0 <= i < n ==> ds[..n][..i] == ds[..i];
      }
      WalkEnds(sh, a, ds[..n], reverse, v, l);
    }
  }

  /** The way back does nothing before the last entry. */
  lemma {:induction false} WalkWaits<O>(sh: Shape<O>, a: Attribute<O>,
      ds: seq<Entry>, reverse: bool, w: Option<Value>, n: nat)
    requires n <= |ds| && forall i :: 0 <= i < n && About(sh, ds[i]) == Some(a) ==> After(ds[i], reverse) != w
    ensures Walk(sh, a, ds[..n], !reverse, w) == w
  {
    if n > 0 {
      assert ds[..n][..n - 1] == ds[..n - 1];
      WalkWaits(sh, a, ds, reverse, w, n - 1);
    }
  }

  lemma {:induction false} WalkRests<O>(sh: Shape<O>, a: Attribute<O>,
      ds: seq<Entry>, reverse: bool, v: Option<Value>, l: nat)
    requires LastAbout(sh, a, ds, l)
    ensures Walk(sh, a, ds, reverse, v) == Walk(sh, a, ds[..l + 1], reverse, v)
    decreases |ds|
  {
    var n := |ds| - 1;
    if l < n {
      assert ds[..n][..l + 1] == ds[..l + 1];
      WalkRests(sh, a, ds[..n], reverse, v, l);
    } else {
      assert ds[..l + 1] == ds;
    }
  }

  /** What one entry leaves, the next one about the same attribute finds. */
  lemma NextFinds<O>(sh: Shape<O>, a: Attribute<O>, ds: seq<Entry>, reverse: bool, v: Option<Value>, i: nat, m: nat)
    requires Chained(sh, a, ds, reverse, v) && i < m < |ds|
      && About(sh, ds[m]) == Some(a) && LastAbout(sh, a, ds[..m], i)
    ensures After(ds[i], reverse) == Before(ds[m], reverse)
  {
    assert Chained(sh, a, ds[..m], reverse, v) by {
      assert forall j :: 0 <= j < m ==> ds[..m][..j] == ds[..j];
    }
    WalkEnds(sh, a, ds[..m], reverse, v, i);
  }

  lemma {:induction false} NextAbout<O>(sh: Shape<O>, a: Attribute<O>, ds: seq<Entry>, i: nat, l: nat) returns (m: nat)
    requires i < l < |ds| && About(sh, ds[i]) == Some(a) && About(sh, ds[l]) == Some(a)
    ensures i < m <= l && About(sh, ds[m]) == Some(a) && LastAbout(sh, a, ds[..m], i)
    decreases l
  {
    if j :| i < j < l && About(sh, ds[j]) == Some(a) {
      m := NextAbout(sh, a, ds, i, j);
    } else {
      m := l;
    }
  }

  /** The way back undoes the last entry alone. */
  lemma WayBack<O>(sh: Shape<O>, a: Attribute<O>, ds: seq<Entry>, reverse: bool, v: Option<Value>, l: nat)
    requires NeverRepeats(sh, ds, reverse) && Chained(sh, a, ds, reverse, v) && LastAbout(sh, a, ds, l)
    ensures Walk(sh, a, ds, !reverse, Walk(sh, a, ds, reverse, v)) == Before(ds[l], reverse)
  {
    hide About, Before;
    var w := After(ds[l], reverse);
    WalkEnds(sh, a, ds, reverse, v, l);
    forall i | 0 <= i < l && About(sh, ds[i]) == Some(a) ensures After(ds[i], reverse) != w {
      var m := NextAbout(sh, a, ds, i, l);
      NextFinds(sh, a, ds, reverse, v, i, m);
    }
    WalkWaits(sh, a, ds, reverse, w, l);
    WalkRests(sh, a, ds, !reverse, w, l);
    assert ds[..l + 1][..l] == ds[..l];
  }

  ghost predicate NamedOnce<O>(sh: Shape<O>, ds: seq<Entry>, i: nat)
    requires i < |ds|
  {
    forall j :: 0 <= j < |ds| && About(sh, ds[j]) == About(sh, ds[i]) ==> j == i
  }

  lemma ComesBackExactly<O>(sh: Shape<O>, a: Attribute<O>, ds: seq<Entry>, reverse: bool, i: nat)
    requires NeverRepeats(sh, ds, reverse) && Chained(sh, a, ds, reverse, Origin(sh, a, ds, reverse))
    requires i < |ds| && About(sh, ds[i]) == Some(a)
    ensures ComesBack(sh, a, ds, reverse) <==> NamedOnce(sh, ds, i)
  {
    hide About, Before, Walk;
    var f := FirstAbout(sh, a, ds, i);
    var l := FindLast(sh, a, ds, i);
    var v := Origin(sh, a, ds, reverse);
    OriginIs(sh, a, ds, reverse, f);
    WayBack(sh, a, ds, reverse, v, l);
    if f < l {
      var p := FindLast(sh, a, ds[..l], f);
      NextFinds(sh, a, ds, reverse, v, p, l);
    } else {
      OneIndex(sh, a, ds, f, l);
    }
  }

  lemma OneIndex<O>(sh: Shape<O>, a: Attribute<O>, ds: seq<Entry>, f: nat, l: nat)
    requires LastAbout(sh, a, ds, l) && f == l && forall j :: 0 <= j < f ==> About(sh, ds[j]) != Some(a)
    ensures NamedOnce(sh, ds, l)
  {
  }

  lemma OnceIsDistinct<O>(sh: Shape<O>, ds: seq<Entry>)
    ensures DistinctAttributes(sh, ds) <==>
            forall i :: 0 <= i < |ds| && About(sh, ds[i]).Some? ==> NamedOnce(sh, ds, i)
  {
    forall i, j | 0 <= i < |ds| && 0 <= j < |ds|
      ensures SameAttribute(sh, ds[i], ds[j]) <==> About(sh, ds[i]).Some? && About(sh, ds[i]) == About(sh, ds[j])
    {
    }
    hide SameAttribute, About;
    if i, j :|
      && 0 <= i < |ds| && 0 <= j < |ds| && i != j
      && About(sh, ds[i]).Some? && About(sh, ds[j]) == About(sh, ds[i])
    {
      assert SameAttribute(sh, ds[i], ds[j]) && SameAttribute(sh, ds[j], ds[i]);
      assert !NamedOnce(sh, ds, i) && !DistinctAttributes(sh, ds);
    } else {
      assert DistinctAttributes(sh, ds);
    }
  }

  /** When no value comes up twice, a diff that fails leaves the objects as they were exactly when
      the entries that were applied are about different attributes. */
  lemma FailureWithoutRepeats<O>(sh: Shape<O>, s: Objects<O>, ds: seq<Entry>, reverse: bool)
    requires Ready(sh, s) && Summed(sh, s) && AllSized(ds) && Applied(sh, s, ds, reverse).1 != 0
    requires NeverRepeats(sh, ds[..ApplyMany(sh, s, ds, reverse).1], reverse)
    ensures Applied(sh, s, ds, reverse).0 == s <==> DistinctAttributes(sh, ds[..ApplyMany(sh, s, ds, reverse).1])
  {
    hide Ready, Summed, Fits, Sized, About, NeverRepeats, ComesBack,
      NamedOnce, DistinctAttributes, ApplyMany, ApplyLoose, Origin;
    var k := ApplyMany(sh, s, ds, reverse).1;
    var applied := ds[..k];
    FailureRestoresExactly(sh, s, ds, reverse);
    PrefixApplies(sh, s, ds, reverse);
    forall i | 0 <= i < k && About(sh, applied[i]).Some?
      ensures ComesBack(sh, About(sh, applied[i]).value, applied, reverse) <==> NamedOnce(sh, applied, i)
    {
      var a := About(sh, applied[i]).value;
      OriginIsValue(sh, s, applied, reverse, a, i);
      AppliedIsChained(sh, s, applied, reverse, a);
      ComesBackExactly(sh, a, applied, reverse, i);
    }
    OnceIsDistinct(sh, applied);
  }

  lemma AppliedIsChained<O>(sh: Shape<O>, s: Objects<O>, ds: seq<Entry>, reverse: bool, a: Attribute<O>)
    requires Ready(sh, s) && AllSized(ds) && ApplyMany(sh, s, ds, reverse).1 == |ds|
    ensures Chained(sh, a, ds, reverse, ValueOf(s, a))
  {
    hide Ready, Sized, ApplyMany, ValueOf, Walk;
    forall i | 0 <= i < |ds| && About(sh, ds[i]) == Some(a) {
      EntryFinds(sh, s, ds, reverse, i, a);
    }
  }
}

/** What applying the entries of a topology diff does to the objects, and how it is undone. */
module Diffs {
  import opened Infos
  import opened Options

  /** 64-bit sizes wrap around. */
  const WIDTH := 0x1_0000_0000_0000_0000

  datatype Attrs = Attrs(numa: bool, local: nat, total: nat, name: Option<string>, infos: seq<Info>)

  /** An object as a diff names it: its depth, and its index there. */
  type Place = (int, nat)

  datatype Entry =
    | Size(place: Place, old64: nat, new64: nat)
    | Name(place: Place, oldText: string, newText: string)
    | InfoValue(place: Place, name: string, oldText: string, newText: string)
    | TooComplex(place: Place)

  predicate Sized(d: Entry) {
    d.Size? ==> d.old64 < WIDTH && d.new64 < WIDTH
  }

  /** What does not change: where the objects are, and for each of them it and those it is in. */
  datatype Shape<!O> = Shape(places: map<Place, O>, above: map<O, set<O>>)

  type Objects<!O> = map<O, Attrs>

  ghost predicate Fits<O>(sh: Shape<O>, s: Objects<O>) {
    && (forall p :: p in sh.places ==> sh.places[p] in s)
    && sh.above.Keys == s.Keys
    && (forall o :: o in s ==> o in sh.above[o] && sh.above[o] <= s.Keys)
    && (forall o :: o in s ==> s[o].local < WIDTH && s[o].total < WIDTH)
  }

  function Shift(total: int, old64: nat, new64: nat): (r: nat)
    ensures r < WIDTH
  {
    (total + new64 - old64) % WIDTH
  }

  /** Memory that changes below an object changes the totals all the way up. */
  function Resized<O>(sh: Shape<O>, s: Objects<O>, o: O, old64: nat, new64: nat): Objects<O>
    requires o in sh.above
  {
    map x | x in s :: s[x].(
      local := if x == o then new64 else s[x].local,
      total := if x in sh.above[o] then Shift(s[x].total, old64, new64) else s[x].total)
  }

  /** The first info with a name and a value. */
  function FindInfo(infos: seq<Info>, name: string, value: string): (i: nat)
    ensures i <= |infos| && (i < |infos| ==> infos[i] == Info(name, value))
    ensures forall k :: 0 <= k < i ==> infos[k] != Info(name, value)
    decreases |infos|
  {
    if infos == [] then 0
    else
      var n := |infos| - 1;
      var i := FindInfo(infos[..n], name, value);
      if i < n || infos[n] == Info(name, value) then i else |infos|
  }

  function ReplaceInfo(infos: seq<Info>, name: string, was: string, to: string): Option<seq<Info>> {
    var i := FindInfo(infos, name, was);
    if i < |infos| then Some(infos[i := Info(name, to)]) else None
  }

  function Swapped(d: Entry): Entry {
    match d
    case Size(place, a, b) => Size(place, b, a)
    case Name(place, a, b) => Name(place, b, a)
    case InfoValue(place, name, a, b) => InfoValue(place, name, b, a)
    case TooComplex(_) => d
  }

  /** One entry, from its old value to its new one; nothing when it does not apply. */
  function Forward<O>(sh: Shape<O>, s: Objects<O>, d: Entry): Option<Objects<O>>
  {
    if d.TooComplex? || d.place !in sh.places || sh.places[d.place] !in s || sh.places[d.place] !in sh.above then None
    else
      var o := sh.places[d.place];
      match d
      case Size(_, old64, new64) =>
        if s[o].numa && s[o].local == old64 then Some(Resized(sh, s, o, old64, new64)) else None
      case Name(_, was, to) =>
        if s[o].name == Some(was) then Some(s[o := s[o].(name := Some(to))]) else None
      case InfoValue(_, name, was, to) =>
        var infos := ReplaceInfo(s[o].infos, name, was, to);
        if infos.Some? then Some(s[o := s[o].(infos := infos.value)]) else None
  }

  function ApplyOne<O>(sh: Shape<O>, s: Objects<O>, d: Entry, reverse: bool): Option<Objects<O>> {
    Forward(sh, s, if reverse then Swapped(d) else d)
  }

  // One entry is undone by applying it in reverse

  lemma ShiftBack(total: nat, a: nat, b: nat)
    requires total < WIDTH
    ensures Shift(Shift(total, a, b), b, a) == total
  {
    var k := (total + b - a) / WIDTH;
    assert Shift(total, a, b) == total + b - a - k * WIDTH;
    assert Shift(Shift(total, a, b), b, a) == (total - k * WIDTH) % WIDTH;
    ModShift(total, -k);
  }

  lemma ModShift(n: int, k: int)
    ensures (n + k * WIDTH) % WIDTH == n % WIDTH
  {
  }

  lemma ShiftsCommute(total: nat, a: nat, b: nat, c: nat, d: nat)
    ensures Shift(Shift(total, a, b), c, d) == Shift(Shift(total, c, d), a, b)
  {
    var k, m := (total + b - a) / WIDTH, (total + d - c) / WIDTH;
    ModShift(total + b - a + d - c, -k);
    ModShift(total + b - a + d - c, -m);
  }

  /** Info names that tell the infos of an object apart. */
  predicate UniqueNames(infos: seq<Info>) {
    forall i, j :: 0 <= i < j < |infos| ==> infos[i].name != infos[j].name
  }

  ghost predicate AllUnique<O>(s: Objects<O>) {
    forall o :: o in s ==> UniqueNames(s[o].infos)
  }

  lemma ReplaceBack(infos: seq<Info>, name: string, was: string, to: string)
    requires UniqueNames(infos) && ReplaceInfo(infos, name, was, to).Some?
    ensures ReplaceInfo(ReplaceInfo(infos, name, was, to).value, name, to, was) == Some(infos)
    ensures UniqueNames(ReplaceInfo(infos, name, was, to).value)
  {
    var i := FindInfo(infos, name, was);
    var changed := infos[i := Info(name, to)];
    assert changed[i] == Info(name, to);
    assert forall m :: 0 <= m < |infos| && changed[m] == Info(name, to) ==> m == i;
    assert changed[i := Info(name, was)] == infos;
  }

  lemma ResizedBack<O>(sh: Shape<O>, s: Objects<O>, o: O, a: nat, b: nat)
    requires Fits(sh, s) && o in s && s[o].local == a
    ensures Resized(sh, Resized(sh, s, o, a, b), o, b, a) == s
  {
    var s1 := Resized(sh, s, o, a, b);
    var s2 := Resized(sh, s1, o, b, a);
    forall x | x in s ensures s2[x] == s[x] {
      ShiftBack(s[x].total, a, b);
    }
    assert s2.Keys == s.Keys;
  }

  lemma RenamedBack<O>(s: Objects<O>, o: O, was: string, to: string)
    requires o in s && s[o].name == Some(was)
    ensures var s1 := s[o := s[o].(name := Some(to))]; s1[o := s1[o].(name := Some(was))] == s
  {
  }

  lemma InfosBack<O>(s: Objects<O>, o: O, infos: seq<Info>)
    requires o in s
    ensures var s1 := s[o := s[o].(infos := infos)]; s1[o := s1[o].(infos := s[o].infos)] == s
  {
  }

  lemma UndoOne<O>(sh: Shape<O>, s: Objects<O>, d: Entry)
    requires Fits(sh, s) && AllUnique(s) && Forward(sh, s, d).Some?
    ensures Forward(sh, Forward(sh, s, d).value, Swapped(d)) == Some(s)
  {
    var o := sh.places[d.place];
    match d
    case Size(_, a, b) => ResizedBack(sh, s, o, a, b);
    case Name(_, was, to) => RenamedBack(s, o, was, to);
    case InfoValue(_, name, was, to) =>
      ReplaceBack(s[o].infos, name, was, to);
      InfosBack(s, o, ReplaceInfo(s[o].infos, name, was, to).value);
  }

  /** What an object is like does not change. */
  lemma ForwardFits<O>(sh: Shape<O>, s: Objects<O>, d: Entry)
    requires Fits(sh, s) && Sized(d) && Forward(sh, s, d).Some?
    ensures Fits(sh, Forward(sh, s, d).value)
    ensures AllUnique(s) ==> AllUnique(Forward(sh, s, d).value)
  {
    var o := sh.places[d.place];
    if d.InfoValue? && UniqueNames(s[o].infos) {
      ReplaceBack(s[o].infos, d.name, d.oldText, d.newText);
    }
  }

  // Entries about different attributes do not get in each other's way

  predicate SameAttribute<O>(sh: Shape<O>, d: Entry, e: Entry) {
    && d.place in sh.places && e.place in sh.places && sh.places[d.place] == sh.places[e.place]
    && match (d, e)
       case (Size(_, _, _), Size(_, _, _)) => true
       case (Name(_, _, _), Name(_, _, _)) => true
       case (InfoValue(_, n, _, _), InfoValue(_, m, _, _)) => n == m
       case _ => false
  }

  lemma ReplacesCommute(infos: seq<Info>, name: string,
      was: string, to: string, name': string, was': string, to': string)
    requires name != name'
    requires ReplaceInfo(infos, name, was, to).Some? && ReplaceInfo(infos, name', was', to').Some?
    ensures var (a, b) := (ReplaceInfo(infos, name, was, to).value, ReplaceInfo(infos, name', was', to').value);
            ReplaceInfo(a, name', was', to').Some? && ReplaceInfo(a, name', was', to') == ReplaceInfo(b, name, was, to)
  {
    var i, j := FindInfo(infos, name, was), FindInfo(infos, name', was');
    var a, b := infos[i := Info(name, to)], infos[j := Info(name', to')];
    FindElsewhere(infos, i, Info(name, to), name', was');
    FindElsewhere(infos, j, Info(name', to'), name, was);
    assert a[j := Info(name', to')] == b[i := Info(name, to)];
  }

  /** Changing an info of another name does not change where one is found. */
  lemma FindElsewhere(infos: seq<Info>, i: nat, info: Info, name: string, value: string)
    requires i < |infos| && infos[i].name == info.name != name && FindInfo(infos, name, value) < |infos|
    ensures FindInfo(infos[i := info], name, value) == FindInfo(infos, name, value)
  {
    var changed := infos[i := info];
    var j, k := FindInfo(infos, name, value), FindInfo(changed, name, value);
    assert forall m :: 0 <= m < |infos| ==> (changed[m] == Info(name, value) <==> infos[m] == Info(name, value));
    assert changed[j] == Info(name, value);
    assert k < |infos| ==> infos[k] == Info(name, value);
  }

  lemma ResizesCommute<O>(sh: Shape<O>, s: Objects<O>, o: O, a: nat, b: nat, p: O, c: nat, d: nat)
    requires Fits(sh, s) && o in s && p in s && o != p
    ensures Resized(sh, Resized(sh, s, o, a, b), p, c, d) == Resized(sh, Resized(sh, s, p, c, d), o, a, b)
  {
    var s1, s2 := Resized(sh, Resized(sh, s, o, a, b), p, c, d), Resized(sh, Resized(sh, s, p, c, d), o, a, b);
    forall x | x in s ensures s1[x] == s2[x] {
      ShiftsCommute(s[x].total, a, b, c, d);
    }
  }

  ghost predicate Commute<O>(sh: Shape<O>, s: Objects<O>, d: Entry, e: Entry) {
    Forward(sh, s, d).Some? && Forward(sh, s, e).Some? ==>
      var t := Forward(sh, Forward(sh, s, d).value, e);
      t.Some? && t == Forward(sh, Forward(sh, s, e).value, d)
  }

  lemma SizesCommute<O>(sh: Shape<O>, s: Objects<O>, d: Entry, e: Entry)
    requires Fits(sh, s) && !SameAttribute(sh, d, e) && d.Size? && e.Size?
    ensures Commute(sh, s, d, e)
  {
    if Forward(sh, s, d).Some? && Forward(sh, s, e).Some? {
      ResizesCommute(sh, s, sh.places[d.place], d.old64, d.new64, sh.places[e.place], e.old64, e.new64);
    }
  }

  lemma ResizeAndRename<O>(sh: Shape<O>, s: Objects<O>, o: O, a: nat, b: nat, p: O, name: Option<string>)
    requires Fits(sh, s) && o in s && p in s
    ensures var r := Resized(sh, s, o, a, b);
            Resized(sh, s[p := s[p].(name := name)], o, a, b) == r[p := r[p].(name := name)]
  {
  }

  lemma ResizeAndReplace<O>(sh: Shape<O>, s: Objects<O>, o: O, a: nat, b: nat, p: O, infos: seq<Info>)
    requires Fits(sh, s) && o in s && p in s
    ensures var r := Resized(sh, s, o, a, b);
            Resized(sh, s[p := s[p].(infos := infos)], o, a, b) == r[p := r[p].(infos := infos)]
  {
  }

  lemma SizeAndTextCommute<O>(sh: Shape<O>, s: Objects<O>, d: Entry, e: Entry)
    requires Fits(sh, s) && d.Size? && !e.Size?
    ensures Commute(sh, s, d, e)
  {
    if Forward(sh, s, d).Some? && Forward(sh, s, e).Some? {
      var o, p := sh.places[d.place], sh.places[e.place];
      if e.Name? {
        ResizeAndRename(sh, s, o, d.old64, d.new64, p, Some(e.newText));
      } else {
        ResizeAndReplace(sh, s, o, d.old64, d.new64, p, ReplaceInfo(s[p].infos, e.name, e.oldText, e.newText).value);
      }
    }
  }

  lemma UpdatesCommute<O>(s: Objects<O>, o: O, x: Attrs, p: O, y: Attrs)
    requires o != p
    ensures s[o := x][p := y] == s[p := y][o := x]
  {
  }

  lemma NamesCommute<O>(sh: Shape<O>, s: Objects<O>, d: Entry, e: Entry)
    requires Fits(sh, s) && !SameAttribute(sh, d, e) && d.Name? && e.Name?
    ensures Commute(sh, s, d, e)
  {
    if Forward(sh, s, d).Some? && Forward(sh, s, e).Some? {
      var o, p := sh.places[d.place], sh.places[e.place];
      UpdatesCommute(s, o, s[o].(name := Some(d.newText)), p, s[p].(name := Some(e.newText)));
    }
  }

  lemma NameAndInfoCommute<O>(sh: Shape<O>, s: Objects<O>, d: Entry, e: Entry)
    requires Fits(sh, s) && d.Name? && e.InfoValue?
    ensures Commute(sh, s, d, e)
  {
    if Forward(sh, s, d).Some? && Forward(sh, s, e).Some? {
      var o, p := sh.places[d.place], sh.places[e.place];
      var infos := ReplaceInfo(s[p].infos, e.name, e.oldText, e.newText).value;
      if o != p {
        UpdatesCommute(s, o, s[o].(name := Some(d.newText)), p, s[p].(infos := infos));
      } else {
        var both := s[o := s[o].(name := Some(d.newText), infos := infos)];
        assert s[o := s[o].(name := Some(d.newText))][o := s[o].(name := Some(d.newText), infos := infos)] == both;
        assert s[o := s[o].(infos := infos)][o := s[o].(name := Some(d.newText), infos := infos)] == both;
      }
    }
  }

  lemma InfosCommute<O>(sh: Shape<O>, s: Objects<O>, d: Entry, e: Entry)
    requires Fits(sh, s) && !SameAttribute(sh, d, e) && d.InfoValue? && e.InfoValue?
    ensures Commute(sh, s, d, e)
  {
    if Forward(sh, s, d).Some? && Forward(sh, s, e).Some? {
      var o, p := sh.places[d.place], sh.places[e.place];
      var a, b := ReplaceInfo(s[o].infos, d.name, d.oldText, d.newText).value,
        ReplaceInfo(s[p].infos, e.name, e.oldText, e.newText).value;
      if o != p {
        UpdatesCommute(s, o, s[o].(infos := a), p, s[p].(infos := b));
      } else {
        ReplacesCommute(s[o].infos, d.name, d.oldText, d.newText, e.name, e.oldText, e.newText);
        var both := s[o].(infos := ReplaceInfo(a, e.name, e.oldText, e.newText).value);
        assert s[o := s[o].(infos := a)][o := both] == s[o := both] == s[o := s[o].(infos := b)][o := both];
      }
    }
  }

  lemma OthersCommute<O>(sh: Shape<O>, s: Objects<O>, d: Entry, e: Entry)
    requires Fits(sh, s) && !SameAttribute(sh, d, e)
    ensures Commute(sh, s, d, e) && Commute(sh, s, e, d)
  {
    hide Commute, SameAttribute;
    CommuteBothWays(sh, s, d, e);
    SameBothWays(sh, d, e);
    match (d, e)
    case (Size(_, _, _), Size(_, _, _)) => SizesCommute(sh, s, d, e);
    case (Size(_, _, _), _) => SizeAndTextCommute(sh, s, d, e);
    case (_, Size(_, _, _)) => SizeAndTextCommute(sh, s, e, d);
    case (Name(_, _, _), Name(_, _, _)) => NamesCommute(sh, s, d, e);
    case (Name(_, _, _), InfoValue(_, _, _, _)) => NameAndInfoCommute(sh, s, d, e);
    case (InfoValue(_, _, _, _), Name(_, _, _)) => NameAndInfoCommute(sh, s, e, d);
    case (InfoValue(_, _, _, _), InfoValue(_, _, _, _)) => InfosCommute(sh, s, d, e);
    case (_, _) => ComplexNever(sh, s, d, e);
  }

  lemma SameBothWays<O>(sh: Shape<O>, d: Entry, e: Entry)
    ensures SameAttribute(sh, d, e) <==> SameAttribute(sh, e, d)
  {
  }

  lemma ComplexNever<O>(sh: Shape<O>, s: Objects<O>, d: Entry, e: Entry)
    requires d.TooComplex? || e.TooComplex?
    ensures Commute(sh, s, d, e)
  {
  }

  lemma CommuteBothWays<O>(sh: Shape<O>, s: Objects<O>, d: Entry, e: Entry)
    ensures Commute(sh, s, d, e) <==> Commute(sh, s, e, d)
  {
    hide Forward;
  }

  // Whole diffs

  /** All entries in order; the objects and how many entries have been applied before one that
      could not be. */
  function ApplyMany<O>(sh: Shape<O>, s: Objects<O>, ds: seq<Entry>, reverse: bool): (r: (Objects<O>, nat))
    ensures r.1 <= |ds|
  {
    if ds == [] then (s, 0)
    else
      var n := |ds| - 1;
      var (s', k) := ApplyMany(sh, s, ds[..n], reverse);
      if k < n then (s', k)
      else
        var s'' := ApplyOne(sh, s', ds[n], reverse);
        if s''.Some? then (s''.value, n + 1) else (s', n)
  }

  /** The entries in order, those that do not apply left out. */
  function ApplyLoose<O>(sh: Shape<O>, s: Objects<O>, ds: seq<Entry>, reverse: bool): Objects<O> {
    if ds == [] then s
    else
      var n := |ds| - 1;
      var s' := ApplyLoose(sh, s, ds[..n], reverse);
      var s'' := ApplyOne(sh, s', ds[n], reverse);
      if s''.Some? then s''.value else s'
  }

  /** What applying a diff leaves behind, and its result: entries that were applied are undone,
      the first one first, when a later one cannot be applied. */
  function Applied<O>(sh: Shape<O>, s: Objects<O>, ds: seq<Entry>, reverse: bool): (Objects<O>, int) {
    var (s', k) := ApplyMany(sh, s, ds, reverse);
    if k == |ds| then (s', 0) else (ApplyLoose(sh, s', ds[..k], !reverse), -(k as int) - 1)
  }

  /** No two entries are about the same attribute. */
  ghost predicate DistinctAttributes<O>(sh: Shape<O>, ds: seq<Entry>) {
    forall i, j :: 0 <= i < j < |ds| ==> !SameAttribute(sh, ds[i], ds[j])
  }

  /** What a loaded topology is like. */
  ghost predicate Ready<O>(sh: Shape<O>, s: Objects<O>) {
    Fits(sh, s) && AllUnique(s)
  }

  ghost predicate AllSized(ds: seq<Entry>) {
    forall i :: 0 <= i < |ds| ==> Sized(ds[i])
  }

  lemma StepKeeps<O>(sh: Shape<O>, s: Objects<O>, d: Entry, reverse: bool)
    requires Ready(sh, s) && Sized(d) && ApplyOne(sh, s, d, reverse).Some?
    ensures Ready(sh, ApplyOne(sh, s, d, reverse).value)
    ensures ApplyOne(sh, ApplyOne(sh, s, d, reverse).value, d, !reverse) == Some(s)
  {
    hide Forward, Fits;
    var e := if reverse then Swapped(d) else d;
    ForwardFits(sh, s, e);
    UndoOne(sh, s, e);
    assert Swapped(Swapped(d)) == d;
  }

  lemma {:induction false} ManyKeeps<O>(sh: Shape<O>, s: Objects<O>, ds: seq<Entry>, reverse: bool)
    requires Ready(sh, s) && AllSized(ds)
    ensures Ready(sh, ApplyMany(sh, s, ds, reverse).0)
  {
    if ds != [] {
      hide ApplyOne, Ready, Sized;
      var n := |ds| - 1;
      ManyKeeps(sh, s, ds[..n], reverse);
      var (s', k) := ApplyMany(sh, s, ds[..n], reverse);
      if k == n && ApplyOne(sh, s', ds[n], reverse).Some? {
        StepKeeps(sh, s', ds[n], reverse);
      }
    }
  }

  /** Entries about two attributes can be applied in either order, in either direction. */
  lemma StepsCommute<O>(sh: Shape<O>, s: Objects<O>, d: Entry, reverseD: bool, e: Entry, reverseE: bool)
    requires Ready(sh, s) && !SameAttribute(sh, d, e)
    requires ApplyOne(sh, s, d, reverseD).Some? && ApplyOne(sh, s, e, reverseE).Some?
    ensures var (a, b) := (ApplyOne(sh, s, d, reverseD).value, ApplyOne(sh, s, e, reverseE).value);
            ApplyOne(sh, a, e, reverseE).Some? && ApplyOne(sh, a, e, reverseE) == ApplyOne(sh, b, d, reverseD)
  {
    hide Forward, Fits;
    OthersCommute(sh, s, if reverseD then Swapped(d) else d, if reverseE then Swapped(e) else e);
  }

  /** An entry can be applied before others instead of after them. */
  lemma {:induction false} PassThrough<O>(sh: Shape<O>,
      s: Objects<O>, ds: seq<Entry>, reverse: bool, d: Entry, reverseD: bool)
    requires Ready(sh, s) && AllSized(ds) && forall i :: 0 <= i < |ds| ==> !SameAttribute(sh, ds[i], d)
    requires ApplyMany(sh, s, ds, reverse).1 == |ds| && ApplyOne(sh, s, d, reverseD).Some?
    ensures var s' := ApplyMany(sh, ApplyOne(sh, s, d, reverseD).value, ds, reverse);
            s'.1 == |ds| && ApplyOne(sh, ApplyMany(sh, s, ds, reverse).0, d, reverseD) == Some(s'.0)
  {
    if ds != [] {
      hide ApplyOne, Ready, Sized, SameAttribute;
      var n := |ds| - 1;
      PassThrough(sh, s, ds[..n], reverse, d, reverseD);
      ManyKeeps(sh, s, ds[..n], reverse);
      StepsCommute(sh, ApplyMany(sh, s, ds[..n], reverse).0, d, reverseD, ds[n], reverse) by {
        SameBothWays(sh, d, ds[n]);
      }
    }
  }

  /** Applying a whole diff in reverse restores what it was applied to. */
  lemma {:induction false} ReverseRestores<O>(sh: Shape<O>, s: Objects<O>, ds: seq<Entry>, reverse: bool)
    requires Ready(sh, s) && AllSized(ds) && DistinctAttributes(sh, ds)
    requires ApplyMany(sh, s, ds, reverse).1 == |ds|
    ensures ApplyMany(sh, ApplyMany(sh, s, ds, reverse).0, ds, !reverse) == (s, |ds|)
  {
    if ds != [] {
      hide ApplyOne, Ready, Sized, SameAttribute;
      var n := |ds| - 1;
      var s' := ApplyMany(sh, s, ds[..n], reverse).0;
      ReverseRestores(sh, s, ds[..n], reverse);
      ManyKeeps(sh, s, ds[..n], reverse);
      PassThrough(sh, s', ds[..n], !reverse, ds[n], reverse);
      StepKeeps(sh, s, ds[n], reverse);
    }
  }

  lemma {:induction false} LooseIsMany<O>(sh: Shape<O>, s: Objects<O>, ds: seq<Entry>, reverse: bool)
    requires ApplyMany(sh, s, ds, reverse).1 == |ds|
    ensures ApplyLoose(sh, s, ds, reverse) == ApplyMany(sh, s, ds, reverse).0
  {
    if ds != [] {
      hide ApplyOne;
      LooseIsMany(sh, s, ds[..|ds| - 1], reverse);
    }
  }

  lemma {:induction false} PrefixApplies<O>(sh: Shape<O>, s: Objects<O>, ds: seq<Entry>, reverse: bool)
    ensures var (s', k) := ApplyMany(sh, s, ds, reverse);
            ApplyMany(sh, s, ds[..k], reverse) == (s', k)
  {
    if ds == [] {
    } else {
      hide ApplyOne;
      var n, k := |ds| - 1, ApplyMany(sh, s, ds, reverse).1;
      PrefixApplies(sh, s, ds[..n], reverse);
      if k <= n {
        assert ds[..n][..k] == ds[..k];
      } else {
        assert ds[..k] == ds;
      }
    }
  }

  /** A diff that fails before an attribute is named twice leaves the objects as they were. */
  lemma FailureRestores<O>(sh: Shape<O>, s: Objects<O>, ds: seq<Entry>, reverse: bool)
    requires Ready(sh, s) && AllSized(ds) && Applied(sh, s, ds, reverse).1 != 0
    ensures
      var (s', result) := Applied(sh, s, ds, reverse);
      var k := -result - 1;
      && 0 <= k < |ds| && ApplyOne(sh, ApplyMany(sh, s, ds[..k], reverse).0, ds[k], reverse).None?
      && (DistinctAttributes(sh, ds[..k]) ==> s' == s)
  {
    hide Ready, SameAttribute, Sized, ApplyOne;
    var (s', k) := ApplyMany(sh, s, ds, reverse);
    PrefixApplies(sh, s, ds, reverse);
    if DistinctAttributes(sh, ds[..k]) {
      ReverseRestores(sh, s, ds[..k], reverse);
      LooseIsMany(sh, s', ds[..k], !reverse);
    }
    StopsWhere(sh, s, ds, reverse);
  }

  lemma {:induction false} StopsWhere<O>(sh: Shape<O>, s: Objects<O>, ds: seq<Entry>, reverse: bool)
    ensures var (s', k) := ApplyMany(sh, s, ds, reverse);
            k < |ds| ==> ApplyOne(sh, s', ds[k], reverse).None?
  {
    if ds != [] {
      hide ApplyOne;
      StopsWhere(sh, s, ds[..|ds| - 1], reverse);
    }
  }

  /** Applying a diff and then applying it in reverse changes nothing. */
  lemma ThereAndBack<O>(sh: Shape<O>, s: Objects<O>, ds: seq<Entry>, reverse: bool)
    requires Ready(sh, s) && AllSized(ds) && DistinctAttributes(sh, ds) && Applied(sh, s, ds, reverse).1 == 0
    ensures Applied(sh, Applied(sh, s, ds, reverse).0, ds, !reverse) == (s, 0)
  {
    ReverseRestores(sh, s, ds, reverse);
  }
}

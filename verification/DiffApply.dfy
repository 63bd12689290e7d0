/** Applying diffs to the objects of a topology in place. */
module DiffApply {
  import opened Diffs
  import opened Infos
  import opened Options

  class Obj {
    const numa: bool
    const parent: Obj?
    /** Parents come before their children. */
    ghost const level: nat
    var local: nat
    var total: nat
    var name: Option<string>
    var infos: seq<Info>

    constructor (numa: bool, parent: Obj?, ghost level: nat,
        local: nat, total: nat, name: Option<string>, infos: seq<Info>)
      ensures this.numa == numa && this.parent == parent && this.level == level
      ensures this.local == local && this.total == total && this.name == name && this.infos == infos
    {
      this.numa, this.parent, this.level := numa, parent, level;
      this.local, this.total, this.name, this.infos := local, total, name, infos;
    }

    ghost predicate Rooted()
      decreases level
    {
      parent != null ==> parent.level < level && parent.Rooted()
    }

    /** The object and those it is in. */
    ghost function Above(): (r: set<Obj>)
      requires Rooted()
      ensures this in r && forall o :: o in r && o != this ==> o.level < level
      decreases level
    {
      if parent == null then {this} else {this} + parent.Above()
    }

    function Value(): Attrs
      reads this
    {
      Attrs(numa, local, total, name, infos)
    }
  }

  class Topology {
    const places: map<Place, Obj>
    ghost const all: set<Obj>
    var loaded: bool
    var adopted: bool

    ghost predicate Formed() {
      && (forall o :: o in all ==> o.Rooted() && o.Above() <= all)
      && (forall p :: p in places ==> places[p] in all)
    }

    ghost function TheShape(): Shape<Obj>
      requires Formed()
    {
      Shape(places, map o | o in all :: o.Above())
    }

    ghost function Value(): Objects<Obj>
      reads all
    {
      map o | o in all :: o.Value()
    }

    constructor (places: map<Place, Obj>, ghost all: set<Obj>)
      ensures this.places == places && this.all == all && loaded && !adopted
    {
      this.places, this.all, loaded, adopted := places, all, true, false;
    }

    /** `while (tmpobj)`: from an object up to the root. */
    method ShiftAbove(obj: Obj, old64: nat, new64: nat)
      requires Formed() && obj in all
      modifies all`total
      ensures forall o :: o in all ==>
        o.total == if o in obj.Above() then Shift(old(o.total), old64, new64) else old(o.total)
    {
      var tmp: Obj? := obj;
      while tmp != null
        invariant tmp != null ==> tmp.Rooted() && tmp.Above() <= obj.Above()
        invariant forall o :: o in all ==>
          o.total == if o in obj.Above() && (tmp == null || o !in tmp.Above())
            then Shift(old(o.total), old64, new64) else old(o.total)
        decreases if tmp == null then 0 else tmp.level + 1
      {
        tmp.total := Shift(tmp.total, old64, new64);
        tmp := tmp.parent;
      }
    }

    method ChangeInfo(obj: Obj, name: string, oldText: string, newText: string) returns (found: bool)
      modifies obj`infos
      ensures found == ReplaceInfo(old(obj.infos), name, oldText, newText).Some?
      ensures obj.infos == if found then ReplaceInfo(old(obj.infos), name, oldText, newText).value else old(obj.infos)
    {
      var i := 0;
      while i < |obj.infos|
        invariant 0 <= i <= |obj.infos| && obj.infos == old(obj.infos)
        invariant forall k :: 0 <= k < i ==> obj.infos[k] != Info(name, oldText)
      {
        if obj.infos[i].name == name && obj.infos[i].value == oldText {
          FirstInfo(obj.infos, name, oldText, i);
          obj.infos := obj.infos[i := obj.infos[i].(value := newText)];
          return true;
        }
        i := i + 1;
      }
      found := false;
    }

    method Resize(obj: Obj, before: nat, after: nat)
      requires Formed() && obj in all
      modifies all`local, all`total
      ensures Value() == Resized(TheShape(), old(Value()), obj, before, after)
    {
      hide Shift, Obj.Above;
      ghost var s := Value();
      obj.local := after;
      ShiftAbove(obj, before, after);
      assert TheShape().above[obj] == obj.Above();
      forall x | x in all ensures Value()[x] == Resized(TheShape(), s, obj, before, after)[x] {
        assert s[x] == old(x.Value());
      }
    }

    /** One entry for an object, from a value to another. */
    method Change(obj: Obj, d: Entry) returns (ok: bool)
      requires Formed() && d.place in places && obj == places[d.place] && !d.TooComplex?
      modifies all`local, all`total, all`name, all`infos
      ensures ok == Forward(TheShape(), old(Value()), d).Some?
      ensures Value() == if ok then Forward(TheShape(), old(Value()), d).value else old(Value())
    {
      hide Resized, ReplaceInfo, Obj.Above, Obj.Rooted;
      ok := true;
      match d
      case Size(_, before, after) =>
        if !obj.numa || obj.local != before {
          return false;
        }
        Resize(obj, before, after);
      case Name(_, before, after) =>
        if obj.name != Some(before) {
          return false;
        }
        obj.name := Some(after);
      case InfoValue(_, name, before, after) =>
        ok := ChangeInfo(obj, name, before, after);
    }

    /** hwloc_apply_diff_one */
    method ApplyEntry(d: Entry, reverse: bool) returns (ok: bool)
      requires Formed()
      modifies all`local, all`total, all`name, all`infos
      ensures ok == ApplyOne(TheShape(), old(Value()), d, reverse).Some?
      ensures Value() == if ok then ApplyOne(TheShape(), old(Value()), d, reverse).value else old(Value())
    {
      hide Value;
      if d.TooComplex? || d.place !in places {
        return false;
      }
      ok := Change(places[d.place], if reverse then Swapped(d) else d);
    }

    /** Undoes entries, the first one first, whether or not each of them can be. */
    method Cancel(ds: seq<Entry>, reverse: bool)
      requires Formed()
      modifies all`local, all`total, all`name, all`infos
      ensures Value() == ApplyLoose(TheShape(), old(Value()), ds, !reverse)
    {
      hide ApplyOne, Value;
      ghost var s := Value();
      var i := 0;
      while i < |ds|
        invariant 0 <= i <= |ds| && ApplyLoose(TheShape(), s, ds[..i], !reverse) == Value()
      {
        assert ds[..i + 1][..i] == ds[..i];
        var _ := ApplyEntry(ds[i], !reverse);
        i := i + 1;
      }
      assert ds[..i] == ds;
    }

    /** hwloc_topology_diff_apply: 0, or minus the number of the entry that could not be applied.
        Flags other than the one for reverse, and topologies that cannot be changed, are refused. */
    method Apply(ds: seq<Entry>, reverse: bool, otherFlags: bool) returns (result: int)
      requires Formed()
      modifies all`local, all`total, all`name, all`infos
      ensures !loaded || adopted || otherFlags ==> result == -1 && Value() == old(Value())
      ensures loaded && !adopted && !otherFlags ==> (Value(), result) == Applied(TheShape(), old(Value()), ds, reverse)
    {
      hide ApplyOne, Value;
      if !loaded || adopted || otherFlags {
        return -1;
      }
      ghost var s := Value();
      var n := 0;
      while n < |ds|
        invariant 0 <= n <= |ds| && ApplyMany(TheShape(), s, ds[..n], reverse) == (Value(), n)
      {
        assert ds[..n + 1][..n] == ds[..n];
        var ok := ApplyEntry(ds[n], reverse);
        if !ok {
          Stopped(TheShape(), s, ds, n, reverse);
          Cancel(ds[..n], reverse);
          return -(n + 1);
        }
        n := n + 1;
      }
      assert ds[..n] == ds;
      result := 0;
    }
  }

  /** The first info that is found is the one. */
  lemma FirstInfo(infos: seq<Info>, name: string, value: string, i: nat)
    requires i < |infos| && infos[i] == Info(name, value) && forall k :: 0 <= k < i ==> infos[k] != Info(name, value)
    ensures FindInfo(infos, name, value) == i
  {
  }

  /** What is applied does not depend on the entries after one that fails. */
  lemma {:induction false} Stopped<O>(sh: Shape<O>, s: Objects<O>, ds: seq<Entry>, n: nat, reverse: bool)
    requires n < |ds| && ApplyMany(sh, s, ds[..n], reverse).1 == n
    requires ApplyOne(sh, ApplyMany(sh, s, ds[..n], reverse).0, ds[n], reverse).None?
    ensures ApplyMany(sh, s, ds, reverse) == ApplyMany(sh, s, ds[..n], reverse)
  {
    hide ApplyOne;
    var last := |ds| - 1;
    if n < last {
      assert ds[..last][..n] == ds[..n];
      Stopped(sh, s, ds[..last], n, reverse);
    }
  }
}

/** The text of the `indexes` attribute: exporting it and importing it. */
module SyntheticText {
  import opened Arithmetic
  import opened CText
  import opened Interleaving
  import opened Synthetic
  import opened Options

  // Importing

  predicate IsDigit(c: char) {
    '0' <= c <= '9'
  }

  /** `strspn(attr, "0123456789,")` from position i on, as a position. */
  function Span(s: string, i: nat): (j: nat)
    requires i <= |s|
    ensures i <= j <= |s|
    decreases |s| - i
  {
    if i < |s| && (IsDigit(s[i]) || s[i] == ',') then Span(s, i + 1) else i
  }

  /** The explicit list: n numbers with commas between them, behind those already read. */
  function ReadList(s: string, pos: nat, n: nat, done: seq<nat>): Option<seq<nat>>
    requires pos <= |s|
    decreases n
  {
    if n == 0 then Some(done)
    else
      var m := Scan(s, pos, 10);
      var done' := done + [U32(ULong(m))];
      if m.digits == [] then None
      else if n == 1 then Some(done')
      else if m.next == |s| || s[m.next] != ',' then None
      else ReadList(s, m.next + 1, n - 1, done')
  }

  /** Loops as `step*nb` with colons between them, up to a parenthesis or a space, behind those
      already read. A text that ends without either is not terminated; the attributes of a level
      always are. */
  function ReadLoops(s: string, pos: nat, done: seq<Loop>): (r: Option<seq<Loop>>)
    requires pos <= |s| && Usable(done)
    ensures r.Some? ==> Usable(r.value)
    decreases |s| - pos
  {
    var m := Scan(s, pos, 0);
    if m.digits == [] || m.next == |s| || s[m.next] != '*' || U32(Long(m)) == 0 then None
    else
      var k := Scan(s, m.next + 1, 0);
      if k.digits == [] || k.next == |s|
        || (s[k.next] != ':' && s[k.next] != ')' && s[k.next] != ' ') || U32(Long(k)) == 0 then None
      else
        var done' := done + [Loop(U32(Long(m)), U32(Long(k)))];
        if s[k.next] != ':' then Some(done') else ReadLoops(s, k.next + 1, done')
  }

  /** What importing makes of a text of a given length: a list, loops, or names of levels. What looking
      up the names comes to is given: the depths of the levels, or nothing if one is not found. */
  ghost function Imported(s: string, length: nat, names: Option<seq<nat>>, w: seq<nat>, total: nat): Option<seq<nat>>
    requires length < |s| && total > 0 && (names.Some? ==> Named(names.value, w, total))
  {
    if Span(s, 0) == length then ReadList(s, 0, total, [])
    else if IsDigit(s[0]) then
      var loops := ReadLoops(s, 0, []);
      if loops.None? then None else Interleaved(loops.value, total)
    else if names.None? || !Distinct(names.value) then None
    else Interleaved(NamedLoops(names.value, w, total), total)
  }

  /** The loop that reads an explicit list. */
  method ImportList(s: string, total: nat) returns (r: array?<nat>)
    requires s != "" && total > 0
    ensures r == null <==> ReadList(s, 0, total, []) == None
    ensures r != null ==> fresh(r) && ReadList(s, 0, total, []) == Some(r[..])
  {
    hide Scan, ULong;
    var a := new nat[total];
    var pos: nat := 0;
    ghost var goal := ReadList(s, 0, total, []);
    for i := 0 to total
      invariant pos <= |s| && (i == total || ReadList(s, pos, total - i, a[..i]) == goal)
        && (i == total ==> goal == Some(a[..]))
    {
      var m := Scan(s, pos, 10);
      if m.digits == [] {
        return null;
      }
      a[i] := U32(ULong(m));
      assert a[..i + 1] == a[..i] + [a[i]] && a[..total] == a[..];
      pos := m.next;
      if i != total - 1 {
        if pos == |s| || s[pos] != ',' {
          return null;
        }
        pos := pos + 1;
      }
    }
    r := a;
  }

  /** The loop that reads `step*nb` fields. */
  method ParseLoops(s: string, total: nat) returns (ok: bool, loops: seq<Loop>, minstep: nat, nbs: nat)
    requires s != ""
    ensures ok <==> ReadLoops(s, 0, []).Some?
    ensures ok ==> ReadLoops(s, 0, []) == Some(loops) && minstep == MinStep(loops, total) && nbs == Product(loops)
  {
    hide MinStep, Product, Scan, Long;
    loops, minstep, nbs := [], total, 1;
    NoLoops(total);
    assert Product([]) == 1 by {
      NoProduct();
    }
    var pos: nat := 0;
    ghost var goal := ReadLoops(s, 0, []);
    while true
      invariant pos <= |s| && Usable(loops) && minstep == MinStep(loops, total) && nbs == Product(loops)
      invariant ReadLoops(s, pos, loops) == goal
      decreases |s| - pos
    {
      var m := Scan(s, pos, 0);
      if m.digits == [] || m.next == |s| || s[m.next] != '*' || U32(Long(m)) == 0 {
        return false, [], 0, 0;
      }
      var k := Scan(s, m.next + 1, 0);
      if k.digits == [] || k.next == |s|
        || (s[k.next] != ':' && s[k.next] != ')' && s[k.next] != ' ') || U32(Long(k)) == 0 {
        return false, [], 0, 0;
      }
      var l := Loop(U32(Long(m)), U32(Long(k)));
      Append(loops, l, total);
      loops := loops + [l];
      if l.step < minstep {
        minstep := l.step;
      }
      nbs := nbs * l.nb;
      if s[k.next] != ':' {
        break;
      }
      pos := k.next + 1;
    }
    ok := true;
  }

  lemma NoProduct()
    ensures Product([]) == 1
  {
  }

  /** hwloc_synthetic_process_indexes */
  method ProcessIndexes(s: string, length: nat, names: Option<seq<nat>>, w: seq<nat>, total: nat)
      returns (r: array?<nat>)
    requires length < |s| && total > 0 && (names.Some? ==> Named(names.value, w, total))
    ensures r == null <==> Imported(s, length, names, w, total) == None
    ensures r != null ==> fresh(r) && Imported(s, length, names, w, total) == Some(r[..])
  {
    hide Interleaved, NamedLoops, Named, ReadList, ReadLoops;
    if Span(s, 0) == length {
      r := ImportList(s, total);
    } else if !IsDigit(s[0]) {
      if names.None? {
        return null;
      }
      r := ImportNamed(names.value, w, total);
    } else {
      var ok, loops, minstep, nbs := ParseLoops(s, total);
      if !ok {
        return null;
      }
      r := Generate(loops, minstep, nbs, total);
    }
  }
}

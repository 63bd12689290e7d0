/** The list text of a bitmap: single indexes and ranges, separated by commas. */
module ListFormat {
  import opened Words
  import opened CText
  import opened Bitmaps
  import opened BitmapQueries
  import opened Options

  /** The number of indexes that a bitmap has words for. */
  function Width(b: Bits): nat {
    |b.words| * BITS
  }

  /** The first index from i on whose membership is `wanted`, or -1. */
  function NextFrom(b: Bits, i: nat, wanted: bool): (r: int)
    ensures r == -1 || i <= r
    ensures r == -1 ==> b.infinite != wanted && forall k: nat :: i <= k ==> Has(b, k) != wanted
    ensures r != -1 ==> Has(b, r) == wanted && forall k: nat :: i <= k < r ==> Has(b, k) != wanted
    ensures i <= Width(b) ==> r <= Width(b)
    decreases Width(b) - i
  {
    if i >= Width(b) then
      assert forall k: nat :: i <= k ==> Has(b, k) == b.infinite by {
        forall k: nat | i <= k ensures Has(b, k) == b.infinite { TailHas(b, k); }
      }
      if b.infinite == wanted then i else -1
    else if Has(b, i) == wanted then i
    else NextFrom(b, i + 1, wanted)
  }

  /** What next and next_unset return is this. */
  lemma NextIsFrom(b: Bits, prev: int, wanted: bool, r: int)
    requires prev >= -1 && r >= -1 && NextIs(b, prev, wanted, r)
    ensures r == NextFrom(b, prev + 1, wanted)
  {
    var s := NextFrom(b, prev + 1, wanted);
    assert s != -1 ==> Has(b, s) == wanted;
    assert r != -1 ==> Has(b, r) == wanted;
  }

  /** A run of members from begin on, up to end, which is not one, or without an end. */
  function Piece(begin: nat, end: int): string
    requires end == -1 || end > begin
  {
    if end == begin + 1 then Dec(begin)
    else if end == -1 then Dec(begin) + "-"
    else Dec(begin) + "-" + Dec(end - 1)
  }

  /** The text for the members above prev. */
  function ListFrom(b: Bits, prev: int, needcomma: bool): string
    requires prev >= -1
    decreases Width(b) - prev
  {
    var begin := NextFrom(b, prev + 1, true);
    if begin == -1 then ""
    else
      var end := NextFrom(b, begin + 1, false);
      var text := (if needcomma then "," else "") + Piece(begin, end);
      if end == -1 then text
      else
        RunInside(b, begin, end);
        text + ListFrom(b, end - 1, true)
  }

  lemma RunInside(b: Bits, begin: nat, end: int)
    requires end == NextFrom(b, begin + 1, false) && end != -1 && Has(b, begin)
    ensures begin < end <= Width(b) && begin < Width(b)
  {
    if begin >= Width(b) {
      TailHas(b, begin);
    }
  }

  function ListText(b: Bits): string {
    ListFrom(b, -1, false)
  }

  /** hwloc_bitmap_list_snprintf, into a buffer that is large enough. */
  method ListSnprintf(set1: Bitmap) returns (text: string)
    requires set1.Valid() && Width(set1.Value()) < 0x8000_0000
    ensures text == ListText(set1.Value())
  {
    hide NextFrom, NextIs, ListFrom, Piece, Width;
    ghost var b := set1.Value();
    var prev, needcomma := -1, false;
    text := "";
    while true
      invariant -1 <= prev && text + ListFrom(b, prev, needcomma) == ListText(b)
      decreases Width(b) - prev
    {
      ListStep(b, prev, needcomma);
      var begin := Next(set1, prev, true);
      NextIsFrom(b, prev, true, begin);
      if begin == -1 {
        break;
      }
      var end := Next(set1, begin, false);
      NextIsFrom(b, begin, false, end);
      var piece := (if needcomma then "," else "") + Piece(begin, end);
      if end == -1 {
        text := text + piece;
        break;
      }
      Associative(text, piece, ListFrom(b, end - 1, true));
      text := text + piece;
      needcomma := true;
      prev := end - 1;
    }
  }

  lemma ListStep(b: Bits, prev: int, needcomma: bool)
    requires prev >= -1
    ensures var begin := NextFrom(b, prev + 1, true);
            if begin == -1 then ListFrom(b, prev, needcomma) == ""
            else
              var end := NextFrom(b, begin + 1, false);
              var piece := (if needcomma then "," else "") + Piece(begin, end);
              if end == -1 then ListFrom(b, prev, needcomma) == piece
              else
                && prev < end - 1 && prev < Width(b)
                && ListFrom(b, prev, needcomma) == piece + ListFrom(b, end - 1, true)
  {
    hide NextFrom, Piece, Width, Has;
    var begin := NextFrom(b, prev + 1, true);
    if begin != -1 && NextFrom(b, begin + 1, false) != -1 {
      RunInside(b, begin, NextFrom(b, begin + 1, false));
    }
  }

  // Reading

  /** The unsigned long that strtoul returns, as the long that it is stored in. */
  function Signed(v: nat): int
    requires v < 0x1_0000_0000_0000_0000
  {
    if v < 0x8000_0000_0000_0000 then v else v - 0x1_0000_0000_0000_0000
  }

  /** A long passed as an unsigned int. */
  function ToUnsigned(v: int): (r: nat)
    ensures r < 0x1_0000_0000
  {
    v % 0x1_0000_0000
  }

  /** A long passed as an int. */
  function ToInt(v: int): (r: int)
    ensures -0x8000_0000 <= r < 0x8000_0000
  {
    var u := ToUnsigned(v);
    if u < 0x8000_0000 then u else u - 0x1_0000_0000
  }

  /** Where the text goes on behind separators. */
  function SkipSeparators(s: string, pos: nat): (r: nat)
    requires pos <= |s|
    ensures pos <= r <= |s| && (r == |s| || (s[r] != ',' && s[r] != ' '))
    decreases |s| - pos
  {
    if pos < |s| && (s[pos] == ',' || s[pos] == ' ') then SkipSeparators(s, pos + 1) else pos
  }

  /** What has been read so far: the set, the words that it has, and whether it is infinite. */
  datatype Scanned = Scanned(members: iset<nat>, count: nat, infinite: bool)

  ghost function Adding(m: Scanned, begin: nat, last: int): Scanned
    requires last >= -1
  {
    Scanned(m.members + Reached(m.infinite, m.count, begin, last),
      Grown(m.infinite, m.count, begin, last), m.infinite || last == -1)
  }

  /** What the text from pos on makes of what has been read so far, with the start of a range that
      is not finished, or -1. Nothing for text that is malformed. */
  ghost function ListScan(s: string, pos: nat, begin: int, m: Scanned): Option<Scanned>
    requires pos <= |s|
    decreases |s| - pos
  {
    if pos == |s| then Some(m)
    else
      var current := SkipSeparators(s, pos);
      var n := Scan(s, current, 0);
      var (val, next) := (Signed(ULong(n)), n.next);
      if next == current then None
      else if begin == -1 && next < |s| && s[next] == '-' && next + 1 == |s| then Some(Adding(m, ToUnsigned(val), -1))
      else
        var (begin', m') :=
          if begin != -1 then (-1, Adding(m, ToUnsigned(begin), Last(ToInt(val))))
          else if next < |s| && s[next] == '-' then (val, m)
          else if next == |s| || s[next] == ',' || s[next] == ' ' then (-1, Adding(m, ToUnsigned(val), ToUnsigned(val)))
          else (-1, m);
        if next == |s| then Some(m') else ListScan(s, next + 1, begin', m')
  }

  function NothingRead(): Scanned {
    Scanned(iset{}, 1, false)
  }

  ghost function Described(b: Bits): Scanned {
    Scanned(Members(b), |b.words|, b.infinite)
  }

  /** What one number does to the set. */
  method ReadOne(set1: Bitmap, s: string, next: nat, begin: int, val: int) returns (begin': int)
    requires set1.Valid() && next <= |s|
    modifies set1, set1.ulongs
    ensures set1.Valid() && (set1.ulongs == old(set1.ulongs) || fresh(set1.ulongs))
    ensures begin' == if begin == -1 && next < |s| && s[next] == '-' && next + 1 != |s| then val else -1
    ensures Described(set1.Value()) ==
      var m := old(Described(set1.Value()));
      if begin != -1 then Adding(m, ToUnsigned(begin), Last(ToInt(val)))
      else if next < |s| && s[next] == '-' then if next + 1 == |s| then Adding(m, ToUnsigned(val), -1) else m
      else if next == |s| || s[next] == ',' || s[next] == ' ' then Adding(m, ToUnsigned(val), ToUnsigned(val))
      else m
  {
    hide Members, Reached, Grown;
    begin' := -1;
    if begin != -1 {
      set1.SetRange(ToUnsigned(begin), ToInt(val));
    } else if next < |s| && s[next] == '-' {
      if next + 1 == |s| {
        set1.SetRange(ToUnsigned(val), -1);
      } else {
        begin' := val;
      }
    } else if next == |s| || s[next] == ',' || s[next] == ' ' {
      set1.Set(ToUnsigned(val));
    }
  }

  method Skip(s: string, pos: nat) returns (current: nat)
    requires pos <= |s|
    ensures current == SkipSeparators(s, pos)
  {
    current := pos;
    while current < |s| && (s[current] == ',' || s[current] == ' ')
      invariant pos <= current <= |s| && SkipSeparators(s, current) == SkipSeparators(s, pos)
    {
      current := current + 1;
    }
  }

  /** hwloc_bitmap_list_sscanf */
  method ListSscanf(set1: Bitmap, s: string) returns (ok: bool)
    requires set1.Valid()
    modifies set1, set1.ulongs
    ensures set1.Valid() && ok == ListScan(s, 0, -1, NothingRead()).Some?
    ensures Described(set1.Value()) == if ok then ListScan(s, 0, -1, NothingRead()).value else NothingRead()
  {
    hide Members, Adding, Scan, ULong, Signed, SkipSeparators, ToInt, ToUnsigned, Last;
    var pos: nat, begin := 0, -1;
    set1.Reset(false);
    NoMembers(set1.Value());
    while pos < |s|
      invariant set1.Valid() && pos <= |s| && (set1.ulongs == old(set1.ulongs) || fresh(set1.ulongs))
      invariant ListScan(s, pos, begin, Described(set1.Value())) == ListScan(s, 0, -1, NothingRead())
      decreases |s| - pos
    {
      var current := Skip(s, pos);
      var n := Scan(s, current, 0);
      var val, next := Signed(ULong(n)), n.next;
      if next == current {
        set1.Reset(false);
        NoMembers(set1.Value());
        return false;
      }
      begin := ReadOne(set1, s, next, begin, val);
      if next == |s| {
        break;
      }
      pos := next + 1;
    }
    ok := true;
  }
}

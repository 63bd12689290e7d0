/** hwloc bitmaps: possibly infinite sets of naturals kept as a growable array of words
    and a flag saying what all the words beyond the array hold. */
module Bitmaps {
  import opened Words

  /** What a bitmap represents, detached from the heap. */
  datatype Bits = Bits(words: seq<Word>, infinite: bool)

  /** The word that fills everything beyond the array. */
  function Tail(infinite: bool): Word {
    if infinite then FULL else ZERO
  }

  /** HWLOC_SUBBITMAP_READULONG: read any word, present or not. */
  function Read(b: Bits, k: nat): Word {
    if k < |b.words| then b.words[k] else Tail(b.infinite)
  }

  predicate Has(b: Bits, i: nat) {
    Read(b, i / BITS)[i % BITS]
  }

  /** The mathematical set that a bitmap denotes. */
  ghost function Members(b: Bits): iset<nat> {
    iset i: nat | Has(b, i)
  }

  lemma HasAt(b: Bits, k: nat, j: nat)
    requires j < BITS
    ensures Has(b, k * BITS + j) == Read(b, k)[j]
  {
    assert (k * BITS + j) / BITS == k && (k * BITS + j) % BITS == j;
  }

  /** Two bitmaps denote the same set exactly when every word reads the same. */
  lemma SameMembers(a: Bits, b: Bits)
    ensures Members(a) == Members(b) <==> forall k: nat :: Read(a, k) == Read(b, k)
  {
    if Members(a) == Members(b) {
      forall k: nat ensures Read(a, k) == Read(b, k) {
        forall j | 0 <= j < BITS ensures Read(a, k)[j] == Read(b, k)[j] {
          HasAt(a, k, j);
          HasAt(b, k, j);
          assert (k * BITS + j in Members(a)) == (k * BITS + j in Members(b));
        }
      }
    }
  }

  lemma NoMembers(b: Bits)
    requires b == Bits([ZERO], false)
    ensures Members(b) == iset{}
  {
  }

  /** The unsigned 32-bit value of a C `int`. */
  function Unsigned(i: int): nat
    requires -0x8000_0000 <= i < 0x8000_0000
  {
    if i < 0 then i + 0x1_0000_0000 else i
  }

  /** The last index that an end argument names; -1 stays and means that there is none. */
  function Last(end: int): (r: int)
    requires -0x8000_0000 <= end < 0x8000_0000
  {
    if end == -1 then -1 else Unsigned(end)
  }

  predicate InRange(i: nat, begin: nat, last: int) {
    begin <= i && (last == -1 || i <= last)
  }

  ghost function Range(begin: nat, last: int): iset<nat> {
    iset i: nat | InRange(i, begin, last)
  }

  /** `ulongs_count * HWLOC_BITS_PER_LONG`, which wraps at 32 bits. */
  function Reach(count: nat): (r: nat)
    ensures r < 0x1_0000_0000 && r <= count * BITS
    ensures r == count * BITS <==> count < 0x400_0000
  {
    count * BITS % 0x1_0000_0000
  }

  /** How much of a range is looked at by an operation that leaves alone what the tail has already:
      for such a tail, nothing from the reach of the words on, unless an open range starts before. */
  ghost function Reached(done: bool, count: nat, begin: nat, last: int): iset<nat> {
    iset i: nat | InRange(i, begin, last) && (!done || i < Reach(count) || (last == -1 && begin < Reach(count)))
  }

  /** The words there are after such an operation. */
  function Grown(done: bool, count: nat, begin: nat, last: int): nat
    requires last >= -1
  {
    var needed := (if last == -1 then begin else last) / BITS + 1;
    if done || (last != -1 && last < begin) || needed <= count then count else needed
  }

  /** A set with a range added or removed. */
  ghost function Changed(b: Bits, range: iset<nat>, add: bool): iset<nat> {
    if add then Members(b) + range else Members(b) - range
  }

  /** An operation does to a bitmap what the whole range would. */
  ghost predicate Whole(b: Bits, begin: nat, last: int, add: bool) {
    Changed(b, Reached(b.infinite == add, |b.words|, begin, last), add) == Changed(b, Range(begin, last), add)
  }

  /** All of a range from the reach of the words on is as wanted. */
  ghost predicate Settled(b: Bits, begin: nat, last: int, add: bool) {
    forall i: nat :: InRange(i, begin, last) && i >= Reach(|b.words|) ==> Has(b, i) == add
  }

  /** What is left out of a range makes no difference exactly when the bitmap has it as wanted. */
  lemma WholeExactly(b: Bits, begin: nat, last: int, add: bool)
    ensures Whole(b, begin, last, add) <==>
      (b.infinite == add && (last != -1 || begin >= Reach(|b.words|)) ==> Settled(b, begin, last, add))
  {
    hide Has;
    var reached := Reached(b.infinite == add, |b.words|, begin, last);
    assert forall i: nat :: i in Range(begin, last) - reached <==>
      && InRange(i, begin, last) && i >= Reach(|b.words|)
      && b.infinite == add && (last != -1 || begin >= Reach(|b.words|));
    if Whole(b, begin, last, add) {
      forall i: nat | i in Range(begin, last) - reached ensures Has(b, i) == add {
        assert (i in Changed(b, reached, add)) == (i in Changed(b, Range(begin, last), add));
      }
    }
  }

  /** Every range is changed as a whole exactly when the tail is not as wanted, or all from the
      reach of the words on is. That is so as long as there are less than 2^26 words. */
  lemma AllWhole(b: Bits, add: bool)
    ensures
      (forall begin: nat, last: int | begin < 0x1_0000_0000 && -1 <= last < 0x1_0000_0000 :: Whole(b, begin, last, add))
      <==> (b.infinite == add ==> Settled(b, 0, -1, add))
    ensures |b.words| < 0x400_0000 && b.infinite == add ==> Settled(b, 0, -1, add)
  {
    hide Whole, Has;
    if b.infinite != add || Settled(b, 0, -1, add) {
      forall begin: nat, last: int ensures Whole(b, begin, last, add) {
        WholeExactly(b, begin, last, add);
      }
    } else {
      WholeExactly(b, Reach(|b.words|), -1, add);
    }
    if |b.words| < 0x400_0000 {
      forall i: nat | i >= Reach(|b.words|) ensures Has(b, i) == b.infinite {
        TailHas(b, i);
      }
    }
  }

  lemma TailHas(b: Bits, i: nat)
    requires i >= |b.words| * BITS
    ensures Has(b, i) == b.infinite
  {
    assert i / BITS >= |b.words|;
    assert FULL[i % BITS] && !ZERO[i % BITS];
  }

  /** With 2^26 words, as index 4294967295 needs them, a finite bitmap cannot be cleared, nor can an
      infinite one be added to. */
  lemma NothingReached(b: Bits, begin: nat, last: int, add: bool)
    requires |b.words| == 0x400_0000 && b.infinite == add
    ensures Changed(b, Reached(b.infinite == add, |b.words|, begin, last), add) == Members(b)
  {
    hide Has;
    assert Reached(true, 0x400_0000, begin, last) == iset{};
  }

  /** `1U << hwloc_flsl(n - 1)`: the smallest power of two that is at least n. */
  function PowerOfTwoAtLeast(n: nat): (p: nat)
    requires n >= 1
    ensures n <= p && (n == 1 || p < 2 * n)
  {
    if n == 1 then 1 else 2 * PowerOfTwoAtLeast((n + 1) / 2)
  }

  datatype Inclusion = Equal | Included | Contains | Intersects | Different

  /** How two sets relate. The empty set is equal to itself and included in all others. */
  ghost function Relation(s: iset<nat>, t: iset<nat>): Inclusion {
    if s == t then Equal
    else if s < t then Included
    else if t < s then Contains
    else if s !! t then Different
    else Intersects
  }

  /** The words that a binary operation leaves, given those of its operands. */
  ghost predicate Combined(r: seq<Word>, f: (Word, Word) -> Word, g1: Word -> Word, g2: Word -> Word,
                           cut1: bool, cut2: bool, a: seq<Word>, b: seq<Word>)
  {
    var min := if |a| < |b| then |a| else |b|;
    && (|r| == if |a| > min then if cut1 then min else |a| else if |b| > min then if cut2 then min else |b| else min)
    && (forall k :: 0 <= k < min ==> r[k] == f(a[k], b[k]))
    && (forall k :: min <= k < |a| && k < |r| ==> r[k] == g1(a[k]))
    && (forall k :: min <= k < |b| && k < |r| ==> r[k] == g2(b[k]))
  }

  lemma OrMembers(r: Bits, a: Bits, b: Bits)
    requires Combined(r.words, Words.Or, w => w, w => w, b.infinite, a.infinite, a.words, b.words)
    requires r.infinite == (a.infinite || b.infinite)
    ensures Members(r) == Members(a) + Members(b)
  {
  }

  lemma AndMembers(r: Bits, a: Bits, b: Bits)
    requires Combined(r.words, Words.And, w => w, w => w, !b.infinite, !a.infinite, a.words, b.words)
    requires r.infinite == (a.infinite && b.infinite)
    ensures Members(r) == Members(a) * Members(b)
  {
  }

  lemma AndNotMembers(r: Bits, a: Bits, b: Bits)
    requires Combined(r.words, (v, w) => Words.And(v, Words.Not(w)),
      w => w, w => Words.Not(w), b.infinite, !a.infinite, a.words, b.words)
    requires r.infinite == (a.infinite && !b.infinite)
    ensures Members(r) == Members(a) - Members(b)
  {
  }

  lemma XorMembers(r: Bits, a: Bits, b: Bits)
    requires Combined(r.words, Words.Xor, w => Words.Xor(w, Tail(b.infinite)),
      w => Words.Xor(w, Tail(a.infinite)), false, false, a.words, b.words)
    requires r.infinite == (a.infinite != b.infinite)
    ensures Members(r) == (Members(a) - Members(b)) + (Members(b) - Members(a))
  {
  }

  /** The bits that a range from begin to last, both included, has in word k. */
  function Mask(k: nat, begin: nat, last: nat): Word {
    var (first, final) := (begin / BITS, last / BITS);
    if k == first == final then Words.And(To(last % BITS), From(begin % BITS))
    else if k == first then From(begin % BITS)
    else if k == final then To(last % BITS)
    else if first < k < final then FULL
    else ZERO
  }

  lemma MaskBit(k: nat, j: nat, begin: nat, last: nat)
    requires begin <= last && j < BITS
    ensures Mask(k, begin, last)[j] <==> begin <= k * BITS + j <= last
  {
  }

  lemma MaskMembers(r: Bits, a: Bits, begin: nat, last: nat, add: bool)
    requires begin <= last
    requires forall k: nat :: Read(r, k) == if add then Words.Or(Read(a, k), Mask(k, begin, last))
                                            else Words.And(Read(a, k), Words.Not(Mask(k, begin, last)))
    ensures Members(r) == if add then Members(a) + Range(begin, last) else Members(a) - Range(begin, last)
  {
    forall i: nat ensures Has(r, i) <==>
      if add then Has(a, i) || InRange(i, begin, last) else Has(a, i) && !InRange(i, begin, last) {
      var (k, j) := (i / BITS, i % BITS);
      MaskBit(k, j, begin, last);
      assert Read(r, k)[j] == if add then Read(a, k)[j] || Mask(k, begin, last)[j]
        else Read(a, k)[j] && !Mask(k, begin, last)[j];
    }
  }

  lemma OpenMembers(r: Bits, a: Bits, begin: nat, add: bool)
    requires forall k: nat | k < begin / BITS :: Read(r, k) == Read(a, k)
    requires Read(r, begin / BITS) == if add then Words.Or(Read(a, begin / BITS), From(begin % BITS))
                                      else Words.And(Read(a, begin / BITS), Words.Not(From(begin % BITS)))
    requires forall k: nat | k > begin / BITS :: Read(r, k) == Tail(add)
    ensures Members(r) == if add then Members(a) + Range(begin, -1) else Members(a) - Range(begin, -1)
  {
    forall i: nat ensures Has(r, i) <==>
      if add then Has(a, i) || InRange(i, begin, -1) else Has(a, i) && !InRange(i, begin, -1) {
      var (k, j) := (i / BITS, i % BITS);
      if k == begin / BITS {
        assert Read(r, k)[j] == if add then Read(a, k)[j] || From(begin % BITS)[j]
          else Read(a, k)[j] && !From(begin % BITS)[j];
      }
    }
  }

  class Bitmap {
    var count: nat          // ulongs_count: how many words are valid
    var ulongs: array<Word> // ulongs.Length is ulongs_allocated
    var infinite: bool

    ghost predicate Valid()
      reads this
    {
      1 <= count <= ulongs.Length
    }

    ghost function Value(): Bits
      requires Valid()
      reads this, ulongs
    {
      Bits(ulongs[..count], infinite)
    }

    /** Two bitmaps never share their word array unless they are the same bitmap. */
    ghost predicate Apart(other: Bitmap)
      reads this, other
    {
      this == other || ulongs != other.ulongs
    }

    /** hwloc_bitmap_alloc, hwloc_bitmap_alloc_full */
    constructor (full: bool)
      ensures Valid() && fresh(ulongs)
      ensures forall i: nat :: i in Members(Value()) <==> full
    {
      count := 1;
      infinite := full;
      ulongs := new Word[8];
      new;
      ulongs[0] := Tail(full);
    }

    /** hwloc_bitmap_enlarge_by_ulongs */
    method EnlargeByUlongs(needed: nat)
      requires Valid() && needed >= 1
      modifies `ulongs
      ensures Valid() && needed <= ulongs.Length
      ensures ulongs == old(ulongs) || fresh(ulongs)
      ensures Value() == old(Value())
    {
      var tmp := PowerOfTwoAtLeast(needed);
      if tmp > ulongs.Length {
        var grown := new Word[tmp];
        for i := 0 to count
          invariant count <= ulongs.Length && ulongs == old(ulongs)
          invariant ulongs[..] == old(ulongs[..])
          invariant grown[..i] == ulongs[..i]
        {
          grown[i] := ulongs[i];
        }
        ulongs := grown;
      }
    }

    /** hwloc_bitmap_realloc_by_ulongs: new words are filled, so the set does not change. */
    method ReallocByUlongs(needed: nat)
      requires Valid()
      modifies this, ulongs
      ensures Valid() && infinite == old(infinite)
      ensures ulongs == old(ulongs) || fresh(ulongs)
      ensures count == if needed <= old(count) then old(count) else needed
      ensures forall k: nat :: Read(Value(), k) == old(Read(Value(), k))
    {
      if needed <= count {
        return;
      }
      EnlargeByUlongs(needed);
      assert old(Value()) == Value();
      label filled:
      var i := count;
      while i < needed
        modifies ulongs
        invariant count <= i <= needed <= ulongs.Length
        invariant ulongs[..count] == old@filled(ulongs[..count])
        invariant forall k :: count <= k < i ==> ulongs[k] == Tail(infinite)
      {
        ulongs[i] := Tail(infinite);
        i := i + 1;
      }
      count := needed;
      forall k: nat ensures Read(Value(), k) == old(Read(Value(), k)) {
        if k < old(count) {
          assert ulongs[..old(count)][k] == old@filled(ulongs[..count])[k];
        }
      }
    }

    /** hwloc_bitmap_reset_by_ulongs: the caller refills the words; those that both sizes
        have are still there, which is what allows a result to be its own operand. */
    method ResetByUlongs(needed: nat)
      requires Valid() && needed >= 1
      modifies `ulongs, `count
      ensures Valid() && count == needed
      ensures ulongs == old(ulongs) || fresh(ulongs)
      ensures forall k :: 0 <= k < old(count) && k < needed ==> ulongs[k] == old(ulongs[k])
    {
      EnlargeByUlongs(needed);
      assert forall k :: 0 <= k < old(count) ==> ulongs[k] == Value().words[k];
      count := needed;
    }

    /** The loop over the words that both operands have. The result may be an operand. */
    method CombinePrefix(f: (Word, Word) -> Word, set1: Bitmap,
        set2: Bitmap, n: nat, ghost a: seq<Word>, ghost b: seq<Word>)
      requires n <= ulongs.Length && n <= |a| <= set1.ulongs.Length && n <= |b| <= set2.ulongs.Length
      requires forall k :: 0 <= k < |a| ==> set1.ulongs[k] == a[k]
      requires forall k :: 0 <= k < |b| ==> set2.ulongs[k] == b[k]
      modifies ulongs
      ensures forall k :: 0 <= k < n ==> ulongs[k] == f(a[k], b[k])
      ensures forall k :: n <= k < |a| ==> set1.ulongs[k] == a[k]
      ensures forall k :: n <= k < |b| ==> set2.ulongs[k] == b[k]
    {
      for i := 0 to n
        invariant forall k :: 0 <= k < i ==> ulongs[k] == f(a[k], b[k])
        invariant forall k :: i <= k < |a| ==> set1.ulongs[k] == a[k]
        invariant forall k :: i <= k < |b| ==> set2.ulongs[k] == b[k]
      {
        ulongs[i] := f(set1.ulongs[i], set2.ulongs[i]);
      }
    }

    /** The loop over the words that only the longer operand has. */
    method CopyTail(f: Word -> Word, src: Bitmap, from: nat, n: nat, ghost a: seq<Word>)
      requires from <= n == |a| <= ulongs.Length && |a| <= src.ulongs.Length
      requires forall k :: from <= k < |a| ==> src.ulongs[k] == a[k]
      modifies ulongs
      ensures forall k :: from <= k < |a| ==> ulongs[k] == f(a[k])
      ensures forall k :: 0 <= k < from ==> ulongs[k] == old(ulongs[k])
    {
      for i := from to n
        invariant forall k :: 0 <= k < from ==> ulongs[k] == old(ulongs[k])
        invariant forall k :: from <= k < i ==> ulongs[k] == f(a[k])
        invariant forall k :: i <= k < n ==> src.ulongs[k] == a[k]
      {
        ulongs[i] := f(src.ulongs[i]);
      }
    }

    /** After the common words: copy the longer operand's other words through g1 or g2, or cut
        them off when the tail of the shorter operand decides them. */
    method Finish(f: (Word, Word) -> Word, g1: Word -> Word, g2: Word -> Word, cut1: bool, cut2: bool,
                  set1: Bitmap, set2: Bitmap, count1: nat, count2: nat, ghost a: seq<Word>, ghost b: seq<Word>)
      requires |a| == count1 >= 1 && |b| == count2 >= 1
      requires count1 <= ulongs.Length && count2 <= ulongs.Length && count == if count1 > count2 then count1 else count2
      requires count1 <= set1.ulongs.Length && count2 <= set2.ulongs.Length
      requires forall k :: count2 <= k < count1 ==> set1.ulongs[k] == a[k]
      requires forall k :: count1 <= k < count2 ==> set2.ulongs[k] == b[k]
      requires forall k :: 0 <= k < count1 && k < count2 ==> ulongs[k] == f(a[k], b[k])
      modifies `count, ulongs
      ensures Valid() && Combined(Value().words, f, g1, g2, cut1, cut2, a, b)
    {
      if count2 < count1 {
        if cut1 {
          count := count2;
        } else {
          CopyTail(g1, set1, count2, count1, a);
        }
      } else if count1 < count2 {
        if cut2 {
          count := count1;
        } else {
          CopyTail(g2, set2, count1, count2, b);
        }
      }
    }

    /** The body that or, and, andnot and xor share. */
    method Combine(f: (Word, Word) -> Word, g1: Word -> Word,
        g2: Word -> Word, cut1: bool, cut2: bool, set1: Bitmap, set2: Bitmap)
      requires Valid() && set1.Valid() && set2.Valid()
      requires Apart(set1) && Apart(set2)
      modifies `count, `ulongs, ulongs
      ensures Valid() && (ulongs == old(ulongs) || fresh(ulongs))
      ensures Combined(Value().words, f, g1, g2, cut1, cut2, old(set1.Value().words), old(set2.Value().words))
    {
      var count1, count2 := set1.count, set2.count;
      ghost var a, b := set1.Value().words, set2.Value().words;
      var max := if count1 > count2 then count1 else count2;
      var min := count1 + count2 - max;
      ResetByUlongs(max);
      CombinePrefix(f, set1, set2, min, a, b);
      Finish(f, g1, g2, cut1, cut2, set1, set2, count1, count2, a, b);
    }

    /** hwloc_bitmap_or */
    method Or(set1: Bitmap, set2: Bitmap)
      requires Valid() && set1.Valid() && set2.Valid()
      requires Apart(set1) && Apart(set2)
      modifies this, ulongs
      ensures Valid() && (ulongs == old(ulongs) || fresh(ulongs))
      ensures Members(Value()) == old(Members(set1.Value())) + old(Members(set2.Value()))
    {
      ghost var a, b := set1.Value(), set2.Value();
      Combine(Words.Or, w => w, w => w, set2.infinite, set1.infinite, set1, set2);
      infinite := set1.infinite || set2.infinite;
      OrMembers(Value(), a, b);
    }

    /** hwloc_bitmap_and */
    method And(set1: Bitmap, set2: Bitmap)
      requires Valid() && set1.Valid() && set2.Valid()
      requires Apart(set1) && Apart(set2)
      modifies this, ulongs
      ensures Valid() && (ulongs == old(ulongs) || fresh(ulongs))
      ensures Members(Value()) == old(Members(set1.Value())) * old(Members(set2.Value()))
    {
      ghost var a, b := set1.Value(), set2.Value();
      Combine(Words.And, w => w, w => w, !set2.infinite, !set1.infinite, set1, set2);
      infinite := set1.infinite && set2.infinite;
      AndMembers(Value(), a, b);
    }

    /** hwloc_bitmap_andnot */
    method AndNot(set1: Bitmap, set2: Bitmap)
      requires Valid() && set1.Valid() && set2.Valid()
      requires Apart(set1) && Apart(set2)
      modifies this, ulongs
      ensures Valid() && (ulongs == old(ulongs) || fresh(ulongs))
      ensures Members(Value()) == old(Members(set1.Value())) - old(Members(set2.Value()))
    {
      ghost var a, b := set1.Value(), set2.Value();
      Combine((v, w) => Words.And(v, Words.Not(w)), w => w,
        w => Words.Not(w), set2.infinite, !set1.infinite, set1, set2);
      infinite := set1.infinite && !set2.infinite;
      AndNotMembers(Value(), a, b);
    }

    /** hwloc_bitmap_xor */
    method Xor(set1: Bitmap, set2: Bitmap)
      requires Valid() && set1.Valid() && set2.Valid()
      requires Apart(set1) && Apart(set2)
      modifies this, ulongs
      ensures Valid() && (ulongs == old(ulongs) || fresh(ulongs))
      ensures Members(Value()) == (old(Members(set1.Value())) - old(Members(set2.Value())))
        + (old(Members(set2.Value())) - old(Members(set1.Value())))
    {
      ghost var a, b := set1.Value(), set2.Value();
      var w1, w2 := Tail(set1.infinite), Tail(set2.infinite);
      Combine(Words.Xor, w => Words.Xor(w, w2), w => Words.Xor(w, w1), false, false, set1, set2);
      infinite := set1.infinite != set2.infinite;
      XorMembers(Value(), a, b);
    }

    /** hwloc_bitmap_not */
    method Not(set1: Bitmap)
      requires Valid() && set1.Valid() && Apart(set1)
      modifies this, ulongs
      ensures Valid() && (ulongs == old(ulongs) || fresh(ulongs))
      ensures forall i: nat :: i in Members(Value()) <==> i !in old(Members(set1.Value()))
    {
      var count1 := set1.count;
      ghost var a := set1.Value();
      ResetByUlongs(count1);
      CopyTail(w => Words.Not(w), set1, 0, count1, a.words);
      infinite := !set1.infinite;
      assert forall k: nat :: Read(Value(), k) == Words.Not(Read(a, k));
    }

    /** Overwrite some words with one value. */
    method FillWords(w: Word, from: nat, n: nat)
      requires from <= n <= ulongs.Length || n < from
      modifies ulongs
      ensures forall k :: 0 <= k < ulongs.Length ==> ulongs[k] == if from <= k < n then w else old(ulongs[k])
    {
      var i := from;
      while i < n
        invariant from <= i && (i <= n || i == from)
        invariant forall k :: 0 <= k < ulongs.Length ==> ulongs[k] == if from <= k < i then w else old(ulongs[k])
      {
        ulongs[i] := w;
        i := i + 1;
      }
    }

    /** hwloc_bitmap_set_range, branch without an end. */
    method SetFrom(begin: nat)
      requires Valid()
      modifies this, ulongs
      ensures Valid() && (ulongs == old(ulongs) || fresh(ulongs))
      ensures Members(Value()) == old(Members(Value())) + Range(begin, -1)
      ensures infinite && count == Grown(false, old(count), begin, -1)
    {
      ghost var a := Value();
      ReallocByUlongs(begin / BITS + 1);
      ghost var b := Value();
      var first := begin / BITS;
      ulongs[first] := Words.Or(ulongs[first], From(begin % BITS));
      FillWords(FULL, first + 1, count);
      infinite := true;
      assert forall k: nat | k < first :: Value().words[k] == b.words[k] && Read(a, k) == Read(b, k);
      OpenMembers(Value(), a, begin, true);
    }

    /** The words at both ends of a range. */
    method SetEnds(begin: nat, last: nat)
      requires begin <= last && last / BITS < ulongs.Length
      modifies ulongs
      ensures forall k :: 0 <= k < ulongs.Length && !(begin / BITS < k < last / BITS) ==>
        ulongs[k] == Words.Or(old(ulongs[k]), Mask(k, begin, last))
    {
      var first, final := begin / BITS, last / BITS;
      if first == final {
        ulongs[first] := Words.Or(ulongs[first], Words.And(To(last % BITS), From(begin % BITS)));
      } else {
        ulongs[first] := Words.Or(ulongs[first], From(begin % BITS));
        ulongs[final] := Words.Or(ulongs[final], To(last % BITS));
      }
    }

    /** hwloc_bitmap_set_range, branch with an end: update the words at both ends, overwrite those between. */
    method SetBetween(begin: nat, last: nat)
      requires Valid() && begin <= last
      modifies this, ulongs
      ensures Valid() && (ulongs == old(ulongs) || fresh(ulongs))
      ensures Members(Value()) == old(Members(Value())) + Range(begin, last)
      ensures infinite == old(infinite) && count == Grown(false, old(count), begin, last)
    {
      ghost var a := Value();
      ReallocByUlongs(last / BITS + 1);
      ghost var b := Value();
      SetEnds(begin, last);
      FillWords(FULL, begin / BITS + 1, last / BITS);
      forall k: nat ensures Read(Value(), k) == Words.Or(Read(a, k), Mask(k, begin, last)) {
        assert Read(b, k) == Read(a, k);
        assert k < count ==> Value().words[k] == Words.Or(b.words[k], Mask(k, begin, last));
      }
      MaskMembers(Value(), a, begin, last, true);
    }

    /** hwloc_bitmap_set_range */
    method SetRange(begin: nat, end: int)
      requires Valid() && begin < 0x1_0000_0000 && -0x8000_0000 <= end < 0x8000_0000
      modifies this, ulongs
      ensures Valid() && (ulongs == old(ulongs) || fresh(ulongs))
      ensures Members(Value()) == old(Members(Value()) + Reached(infinite, count, begin, Last(end)))
      ensures infinite == (old(infinite) || end == -1) && count == Grown(old(infinite), old(count), begin, Last(end))
    {
      hide Members, Reach;
      var last := Unsigned(end);
      if last < begin {
        return;
      }
      if infinite && begin >= Reach(count) {
        return;
      }
      if end == -1 {
        SetFrom(begin);
      } else {
        if infinite && last >= Reach(count) {
          last := Reach(count) - 1;
        }
        SetBetween(begin, last);
      }
    }

    /** hwloc_bitmap_clr_range, branch without an end. */
    method ClrFrom(begin: nat)
      requires Valid()
      modifies this, ulongs
      ensures Valid() && (ulongs == old(ulongs) || fresh(ulongs))
      ensures Members(Value()) == old(Members(Value())) - Range(begin, -1)
      ensures !infinite && count == Grown(false, old(count), begin, -1)
    {
      ghost var a := Value();
      ReallocByUlongs(begin / BITS + 1);
      ghost var b := Value();
      var first := begin / BITS;
      ulongs[first] := Words.And(ulongs[first], Words.Not(From(begin % BITS)));
      FillWords(ZERO, first + 1, count);
      infinite := false;
      assert forall k: nat | k < first :: Value().words[k] == b.words[k] && Read(a, k) == Read(b, k);
      OpenMembers(Value(), a, begin, false);
    }

    /** The words at both ends of a range. */
    method ClrEnds(begin: nat, last: nat)
      requires begin <= last && last / BITS < ulongs.Length
      modifies ulongs
      ensures forall k :: 0 <= k < ulongs.Length && !(begin / BITS < k < last / BITS) ==>
        ulongs[k] == Words.And(old(ulongs[k]), Words.Not(Mask(k, begin, last)))
    {
      var first, final := begin / BITS, last / BITS;
      if first == final {
        ulongs[first] := Words.And(ulongs[first], Words.Not(Words.And(To(last % BITS), From(begin % BITS))));
      } else {
        ulongs[first] := Words.And(ulongs[first], Words.Not(From(begin % BITS)));
        ulongs[final] := Words.And(ulongs[final], Words.Not(To(last % BITS)));
      }
    }

    /** hwloc_bitmap_clr_range, branch with an end: update the words at both ends, overwrite those between. */
    method ClrBetween(begin: nat, last: nat)
      requires Valid() && begin <= last
      modifies this, ulongs
      ensures Valid() && (ulongs == old(ulongs) || fresh(ulongs))
      ensures Members(Value()) == old(Members(Value())) - Range(begin, last)
      ensures infinite == old(infinite) && count == Grown(false, old(count), begin, last)
    {
      ghost var a := Value();
      ReallocByUlongs(last / BITS + 1);
      ghost var b := Value();
      ClrEnds(begin, last);
      FillWords(ZERO, begin / BITS + 1, last / BITS);
      forall k: nat ensures Read(Value(), k) == Words.And(Read(a, k), Words.Not(Mask(k, begin, last))) {
        assert Read(b, k) == Read(a, k);
        assert k < count ==> Value().words[k] == Words.And(b.words[k], Words.Not(Mask(k, begin, last)));
      }
      MaskMembers(Value(), a, begin, last, false);
    }

    /** hwloc_bitmap_clr_range */
    method ClrRange(begin: nat, end: int)
      requires Valid() && begin < 0x1_0000_0000 && -0x8000_0000 <= end < 0x8000_0000
      modifies this, ulongs
      ensures Valid() && (ulongs == old(ulongs) || fresh(ulongs))
      ensures Members(Value()) == old(Members(Value()) - Reached(!infinite, count, begin, Last(end)))
      ensures infinite == (old(infinite) && end != -1) && count == Grown(!old(infinite), old(count), begin, Last(end))
    {
      hide Members, Reach;
      var last := Unsigned(end);
      if last < begin {
        return;
      }
      if !infinite && begin >= Reach(count) {
        return;
      }
      if end == -1 {
        ClrFrom(begin);
      } else {
        if !infinite && last >= Reach(count) {
          last := Reach(count) - 1;
        }
        ClrBetween(begin, last);
      }
    }

    /** hwloc_bitmap_set */
    method Set(cpu: nat)
      requires Valid() && cpu < 0x1_0000_0000
      modifies this, ulongs
      ensures Valid() && (ulongs == old(ulongs) || fresh(ulongs))
      ensures Members(Value()) == old(Members(Value()) + Reached(infinite, count, cpu, cpu))
      ensures infinite == old(infinite) && count == Grown(old(infinite), old(count), cpu, cpu)
    {
      if infinite && cpu >= Reach(count) {
        return;
      }
      ghost var a := Value();
      ReallocByUlongs(cpu / BITS + 1);
      ghost var b := Value();
      ulongs[cpu / BITS] := Words.Or(ulongs[cpu / BITS], Single(cpu % BITS));
      forall i: nat ensures Has(Value(), i) <==> Has(a, i) || i == cpu {
        assert Read(b, i / BITS) == Read(a, i / BITS);
        assert i / BITS < count ==> Value().words[i / BITS] == if i / BITS == cpu / BITS
          then Words.Or(b.words[i / BITS], Single(cpu % BITS)) else b.words[i / BITS];
      }
    }

    /** hwloc_bitmap_zero for full false, hwloc_bitmap_fill for full true. */
    method Reset(full: bool)
      requires Valid()
      modifies this, ulongs
      ensures Valid() && (ulongs == old(ulongs) || fresh(ulongs))
      ensures Value() == Bits([Tail(full)], full)
    {
      ResetByUlongs(1);
      ulongs[0] := Tail(full);
      infinite := full;
    }
  }
}

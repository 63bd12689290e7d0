/** Questions asked of bitmaps: how two of them relate, and which index comes next. */
module BitmapQueries {
  import opened Words
  import opened Bitmaps

  /** Some bit is set in v only. */
  ghost predicate Extra(v: Word, w: Word) {
    exists j :: 0 <= j < BITS && v[j] && !w[j]
  }

  /** Some bit is set in both. */
  ghost predicate Shared(v: Word, w: Word) {
    exists j :: 0 <= j < BITS && v[j] && w[j]
  }

  lemma Classify(v: Word, w: Word)
    ensures v == ZERO <==> !Extra(v, w) && !Shared(v, w)
    ensures v == w <==> !Extra(v, w) && !Extra(w, v)
    ensures Words.And(v, w) == v <==> !Extra(v, w)
    ensures Words.And(v, w) == ZERO <==> !Shared(v, w)
  {
    assert forall j {:trigger v[j]} :: 0 <= j < BITS ==> Words.And(v, w)[j] == (v[j] && w[j]);
  }

  // The same over the first n words of two bitmaps.

  ghost predicate ExtraIn(a: Bits, b: Bits, n: nat) {
    exists k: nat :: k < n && Extra(Read(a, k), Read(b, k))
  }

  ghost predicate SharedIn(a: Bits, b: Bits, n: nat) {
    exists k: nat :: k < n && Shared(Read(a, k), Read(b, k))
  }

  lemma ExtraMembers(a: Bits, b: Bits, n: nat)
    requires n > |a.words| && n > |b.words|
    ensures ExtraIn(a, b, n) <==> !(Members(a) <= Members(b))
  {
    if ExtraIn(a, b, n) {
      var k: nat :| k < n && Extra(Read(a, k), Read(b, k));
      var j :| 0 <= j < BITS && Read(a, k)[j] && !Read(b, k)[j];
      HasAt(a, k, j);
      HasAt(b, k, j);
      assert k * BITS + j in Members(a);
    }
    if !(Members(a) <= Members(b)) {
      var i :| i in Members(a) && i !in Members(b);
      var k := if i / BITS < n then i / BITS else n - 1;
      assert Read(a, k)[i % BITS] && !Read(b, k)[i % BITS];
      assert Extra(Read(a, k), Read(b, k));
    }
  }

  lemma SharedMembers(a: Bits, b: Bits, n: nat)
    requires n > |a.words| && n > |b.words|
    ensures SharedIn(a, b, n) <==> !(Members(a) !! Members(b))
  {
    if SharedIn(a, b, n) {
      var k: nat :| k < n && Shared(Read(a, k), Read(b, k));
      var j :| 0 <= j < BITS && Read(a, k)[j] && Read(b, k)[j];
      HasAt(a, k, j);
      HasAt(b, k, j);
      assert k * BITS + j in Members(a) * Members(b);
    }
    if !(Members(a) !! Members(b)) {
      var i :| i in Members(a) && i in Members(b);
      var k := if i / BITS < n then i / BITS else n - 1;
      assert Read(a, k)[i % BITS] && Read(b, k)[i % BITS];
      assert Shared(Read(a, k), Read(b, k));
    }
  }

  /** The relation that three facts about a pair of sets add up to. */
  function Verdict(extra1: bool, extra2: bool, shared: bool): Inclusion {
    if !extra1 && !extra2 then Equal
    else if !extra1 then Included
    else if !extra2 then Contains
    else if shared then Intersects
    else Different
  }

  lemma VerdictIsRelation(a: Bits, b: Bits, n: nat)
    requires n > |a.words| && n > |b.words|
    ensures Relation(Members(a), Members(b)) == Verdict(ExtraIn(a, b, n), ExtraIn(b, a, n), SharedIn(a, b, n))
  {
    ExtraMembers(a, b, n);
    ExtraMembers(b, a, n);
    SharedMembers(a, b, n);
  }

  /** Once two bitmaps intersect without inclusion, later words cannot change that. */
  lemma IntersectsForGood(a: Bits, b: Bits, n: nat)
    requires ExtraIn(a, b, n) && ExtraIn(b, a, n) && SharedIn(a, b, n)
    ensures Relation(Members(a), Members(b)) == Intersects
  {
    var m := n + |a.words| + |b.words| + 1;
    assert ExtraIn(a, b, m) && ExtraIn(b, a, m) && SharedIn(a, b, m);
    VerdictIsRelation(a, b, m);
  }

  /** What compare_inclusion knows after n words: a verdict that is not Intersects, and whether
      each set is still empty. */
  ghost predicate Tracks(a: Bits, b: Bits, n: nat, result: Inclusion, empty1: bool, empty2: bool) {
    && result != Intersects
    && result == Verdict(ExtraIn(a, b, n), ExtraIn(b, a, n), SharedIn(a, b, n))
    && empty1 == (!ExtraIn(a, b, n) && !SharedIn(a, b, n))
    && empty2 == (!ExtraIn(b, a, n) && !SharedIn(a, b, n))
  }

  lemma NextWord(a: Bits, b: Bits, n: nat)
    ensures ExtraIn(a, b, n + 1) <==> ExtraIn(a, b, n) || Extra(Read(a, n), Read(b, n))
    ensures ExtraIn(b, a, n + 1) <==> ExtraIn(b, a, n) || Extra(Read(b, n), Read(a, n))
    ensures SharedIn(a, b, n + 1) <==> SharedIn(a, b, n) || Shared(Read(a, n), Read(b, n))
    ensures Shared(Read(a, n), Read(b, n)) <==> Shared(Read(b, n), Read(a, n))
  {
  }

  /** The body of the loop of compare_inclusion on one pair of words. */
  method CompareWords(val1: Word, val2: Word, result: Inclusion,
      empty1: bool, empty2: bool, ghost a: Bits, ghost b: Bits, ghost n: nat)
    returns (result': Inclusion, empty1': bool, empty2': bool)
    requires val1 == Read(a, n) && val2 == Read(b, n)
    requires Tracks(a, b, n, result, empty1, empty2)
    ensures result' == Verdict(ExtraIn(a, b, n + 1), ExtraIn(b, a, n + 1), SharedIn(a, b, n + 1))
    ensures result' != Intersects ==> Tracks(a, b, n + 1, result', empty1', empty2')
  {
    Classify(val1, val2);
    Classify(val2, val1);
    NextWord(a, b, n);
    result', empty1', empty2' := result, empty1, empty2;
    if val1 == ZERO {
      if val2 == ZERO {
        return;
      }
      if result == Contains {
        if !empty2 {
          result' := Intersects;
          return;
        }
        result' := Different;
      } else if result == Equal {
        result' := Included;
      }
    } else if val2 == ZERO {
      if result == Included {
        if !empty1 {
          result' := Intersects;
          return;
        }
        result' := Different;
      } else if result == Equal {
        result' := Contains;
      }
    } else if val1 == val2 {
      if result == Different {
        result' := Intersects;
        return;
      }
    } else if Words.And(val1, val2) == val1 {
      if result == Contains || result == Different {
        result' := Intersects;
        return;
      }
      result' := Included;
    } else if Words.And(val1, val2) == val2 {
      if result == Included || result == Different {
        result' := Intersects;
        return;
      }
      result' := Contains;
    } else if Words.And(val1, val2) != ZERO {
      result' := Intersects;
      return;
    } else {
      if (result == Equal && !empty1) || (result == Included && !empty1) || (result == Contains && !empty2) {
        result' := Intersects;
        return;
      }
      result' := Different;
    }
    empty1' := empty1 && val1 == ZERO;
    empty2' := empty2 && val2 == ZERO;
  }

  /** HWLOC_SUBBITMAP_READULONG on a bitmap object. */
  method ReadWord(set1: Bitmap, i: nat) returns (w: Word)
    requires set1.Valid()
    ensures w == Read(set1.Value(), i)
  {
    w := if i < set1.count then set1.ulongs[i] else if set1.infinite then FULL else ZERO;
  }

  /** The step of compare_inclusion past the end of both arrays. */
  method CompareTails(infinite1: bool, infinite2: bool, result: Inclusion,
      empty1: bool, empty2: bool, ghost a: Bits, ghost b: Bits, ghost n: nat)
    returns (result': Inclusion)
    requires n >= |a.words| && n >= |b.words| && infinite1 == a.infinite && infinite2 == b.infinite
    requires Tracks(a, b, n, result, empty1, empty2)
    ensures result' == Relation(Members(a), Members(b))
  {
    assert FULL[0] && !ZERO[0];
    Classify(Tail(infinite1), Tail(infinite2));
    Classify(Tail(infinite2), Tail(infinite1));
    NextWord(a, b, n);
    VerdictIsRelation(a, b, n + 1);
    result' := result;
    if !infinite1 {
      if infinite2 {
        if result == Contains {
          if !empty2 {
            return Intersects;
          }
          result' := Different;
        } else if result == Equal {
          result' := Included;
        }
      }
    } else if !infinite2 {
      if result == Included {
        if !empty1 {
          return Intersects;
        }
        result' := Different;
      } else if result == Equal {
        result' := Contains;
      }
    } else {
      if result == Different {
        return Intersects;
      }
    }
  }

  /** hwloc_bitmap_compare_inclusion */
  method CompareInclusion(set1: Bitmap, set2: Bitmap) returns (result: Inclusion)
    requires set1.Valid() && set2.Valid()
    ensures result == Relation(Members(set1.Value()), Members(set2.Value()))
  {
    ghost var a, b := set1.Value(), set2.Value();
    var max := if set1.count > set2.count then set1.count else set2.count;
    var empty1, empty2 := true, true;
    result := Equal;
    var i := 0;
    while i < max
      invariant i <= max
      invariant Tracks(a, b, i, result, empty1, empty2)
    {
      var val1 := ReadWord(set1, i);
      var val2 := ReadWord(set2, i);
      result, empty1, empty2 := CompareWords(val1, val2, result, empty1, empty2, a, b, i);
      i := i + 1;
      if result == Intersects {
        IntersectsForGood(a, b, i);
        return;
      }
    }
    result := CompareTails(set1.infinite, set2.infinite, result, empty1, empty2, a, b, max);
  }

  /** The least index above prev whose membership is `wanted`. */
  ghost predicate NextIs(b: Bits, prev: int, wanted: bool, r: int) {
    if r == -1 then forall i: nat :: prev < i ==> Has(b, i) != wanted
    else prev < r && r >= 0 && Has(b, r) == wanted && forall i: nat :: prev < i < r ==> Has(b, i) != wanted
  }

  /** The word in which the loops of next and next_unset look for a set bit. */
  function Candidates(w: Word, wanted: bool, prev: int, k: nat): (r: Word)
    ensures forall j {:trigger r[j]} :: 0 <= j < BITS ==>
      r[j] == (w[j] == wanted && (prev / BITS == k && prev >= 0 ==> j > prev % BITS))
  {
    var v := if wanted then w else Words.Not(w);
    if prev >= 0 && prev / BITS == k then Words.And(v, Words.Not(To(prev % BITS))) else v
  }

  /** No index above prev in the words before k has the wanted membership. */
  ghost predicate NoneBefore(b: Bits, prev: int, wanted: bool, k: nat) {
    forall i: nat :: prev < i && i / BITS < k ==> Has(b, i) != wanted
  }

  lemma WordSkipped(b: Bits, prev: int, wanted: bool, k: nat)
    requires prev >= -1 && NoneBefore(b, prev, wanted, k)
    requires Candidates(Read(b, k), wanted, prev, k) == ZERO
    ensures NoneBefore(b, prev, wanted, k + 1)
  {
    forall i: nat | prev < i && i / BITS == k ensures Has(b, i) != wanted {
      assert !Candidates(Read(b, k), wanted, prev, k)[i % BITS];
    }
  }

  lemma WordHit(b: Bits, prev: int, wanted: bool, k: nat, bit: nat)
    requires prev >= -1 && (prev + 1) / BITS <= k && NoneBefore(b, prev, wanted, k) && bit < BITS
    requires Candidates(Read(b, k), wanted, prev, k)[bit]
    requires forall j :: 0 <= j < bit ==> !Candidates(Read(b, k), wanted, prev, k)[j]
    ensures NextIs(b, prev, wanted, bit + BITS * k)
  {
    HasAt(b, k, bit);
    forall i: nat | prev < i < bit + BITS * k ensures Has(b, i) != wanted {
      if i / BITS == k {
        assert !Candidates(Read(b, k), wanted, prev, k)[i % BITS];
      }
    }
  }

  /** Everything that is left lies in the tail. */
  lemma TailReached(b: Bits, prev: int, wanted: bool, next: nat)
    requires prev < next && next / BITS >= |b.words|
    requires forall i: nat :: prev < i < next ==> Has(b, i) != wanted
    ensures NextIs(b, prev, wanted, if b.infinite == wanted then next else -1)
  {
    assert FULL[0] && !ZERO[0];
    forall i: nat | i >= next ensures Has(b, i) == b.infinite {
      assert i / BITS >= |b.words|;
    }
  }

  /** hwloc_bitmap_next for wanted true, hwloc_bitmap_next_unset for wanted false. */
  method Next(set1: Bitmap, prev: int, wanted: bool) returns (r: int)
    requires set1.Valid() && prev >= -1
    ensures r >= -1 && NextIs(set1.Value(), prev, wanted, r)
  {
    ghost var b := set1.Value();
    var i := (prev + 1) / BITS;
    if i >= set1.count {
      TailReached(b, prev, wanted, prev + 1);
      return if set1.infinite == wanted then prev + 1 else -1;
    }
    while i < set1.count
      invariant (prev + 1) / BITS <= i <= set1.count
      invariant NoneBefore(b, prev, wanted, i)
    {
      var w := Candidates(set1.ulongs[i], wanted, prev, i);
      assert set1.ulongs[i] == Read(b, i);
      if w != ZERO {
        var bit := LowestSet(w);
        WordHit(b, prev, wanted, i, bit);
        return bit + BITS * i;
      }
      WordSkipped(b, prev, wanted, i);
      i := i + 1;
    }
    TailReached(b, prev, wanted, set1.count * BITS);
    return if set1.infinite == wanted then set1.count * BITS else -1;
  }
}

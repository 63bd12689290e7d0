/** Facts about products, quotients and remainders, and the pigeonhole principle. */
module Arithmetic {
  lemma Grow(a: int, b: int, c: int)
    requires a <= b && 0 <= c
    ensures a * c <= b * c
  {
  }

  lemma Swap(p: int, a: int, b: int)
    ensures p * a * b == p * b * a
  {
    assert p * a * b == p * (a * b) == p * (b * a);
  }

  /** A number has one quotient and one remainder. */
  lemma Unique(b: int, q: int, r: int, q': int, r': int)
    requires q * b + r == q' * b + r' && 0 <= r < b && 0 <= r' < b
    ensures q == q' && r == r'
  {
    assert (q + 1) * b == q * b + b && (q' + 1) * b == q' * b + b;
    if q < q' {
      Grow(q + 1, q', b);
    } else if q' < q {
      Grow(q' + 1, q, b);
    }
  }

  lemma QuotientUnique(a: int, b: int, q: int, r: int)
    requires b > 0 && a == q * b + r && 0 <= r < b
    ensures a / b == q && a % b == r
  {
    Unique(b, q, r, a / b, a % b);
  }

  lemma ExactQuotient(q: nat, b: nat)
    requires b > 0
    ensures q * b / b == q && q * b % b == 0
  {
    QuotientUnique(q * b, b, q, 0);
  }

  lemma Regroup(p: int, b: int, s: int, a: int, t: int)
    ensures (p * b + s) * a + t == p * (a * b) + (s * a + t)
  {
    assert (p * b + s) * a == p * b * a + s * a;
    assert p * b * a == p * (b * a) == p * (a * b);
  }

  lemma Divide(a: nat, b: nat)
    requires b > 0 && a % b == 0
    ensures b * (a / b) == a
  {
  }

  lemma DivDiv(j: nat, a: nat, b: nat)
    requires a > 0 && b > 0
    ensures a * b > 0 && j / a / b == j / (a * b)
  {
    Euclid(j, a);
    Euclid(j / a, b);
    Nested(j, a, b, j / a, j % a, j / a / b, j / a % b);
  }

  lemma Euclid(y: nat, a: nat)
    requires a > 0
    ensures y == y / a * a + y % a && 0 <= y % a < a && y / a >= 0
  {
  }

  /** A quotient is the greatest number of times that the divisor fits. */
  lemma Fits(u: nat, d: nat, q: nat)
    requires d >= 1
    ensures q <= u / d <==> q * d <= u
  {
    Euclid(u, d);
    if q <= u / d {
      Grow(q, u / d, d);
    } else {
      Grow(u / d + 1, q, d);
      assert (u / d + 1) * d == u / d * d + d;
    }
  }

  lemma Commutes(a: nat, b: nat)
    ensures a * b == b * a
  {
  }

  lemma Nested(j: nat, a: nat, b: nat, q: nat, t: nat, p: nat, s: nat)
    requires j == q * a + t && q == p * b + s && t < a && s < b
    ensures a * b > 0 && j / (a * b) == p && j % (a * b) == s * a + t
  {
    Grow(1, a, b);
    Regroup(p, b, s, a, t);
    Grow(s, b - 1, a);
    assert (b - 1) * a == a * b - a;
    QuotientUnique(j, a * b, p, s * a + t);
  }

  lemma SmallQuotient(j: nat, b: nat)
    requires j < b
    ensures j / b == 0 && j % b == j
  {
    QuotientUnique(j, b, 0, j);
  }

  /** The numbers below n. */
  ghost function Below(n: nat): (s: set<nat>)
    ensures |s| == n && forall i: nat :: i in s <==> i < n
  {
    if n == 0 then {} else Below(n - 1) + {n - 1}
  }

  ghost predicate Distinct<T>(s: seq<T>) {
    forall i, j :: 0 <= i < j < |s| ==> s[i] != s[j]
  }

  lemma {:induction false} DistinctCount<T>(s: seq<T>)
    requires Distinct(s)
    ensures |set x | x in s| == |s|
  {
    if s != [] {
      var front := s[..|s| - 1];
      DistinctCount(front);
      assert (set x | x in s) == (set x | x in front) + {s[|s| - 1]};
    }
  }

  lemma SubsetOfSameSize<T>(a: set<T>, b: set<T>)
    requires a <= b && |a| == |b|
    ensures a == b
  {
    if x :| x in b && x !in a {
      assert a <= b - {x};
      SubsetSize(a, b - {x});
    }
  }

  lemma {:induction false} SubsetSize<T>(a: set<T>, b: set<T>)
    requires a <= b
    ensures |a| <= |b|
    decreases b
  {
    if x :| x in a {
      SubsetSize(a - {x}, b - {x});
    }
  }

  /** n distinct numbers below n are all the numbers below n. */
  lemma Pigeonhole(s: seq<nat>)
    requires forall i :: 0 <= i < |s| ==> s[i] < |s|
    requires Distinct(s)
    ensures forall k :: 0 <= k < |s| ==> k in s
  {
    DistinctCount(s);
    var values := set x | x in s;
    SubsetOfSameSize(values, Below(|s|));
    forall k | 0 <= k < |s| ensures k in s {
      assert k in Below(|s|);
      assert k in values;
    }
  }
}

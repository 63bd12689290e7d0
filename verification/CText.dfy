/** Number text as the C library reads and writes it: strtoul and strtol, and the
    conversions %d, %u and %lx of printf. */
module CText {
  predicate IsSpace(c: char) {
    c == ' ' || '\t' <= c <= '\r'
  }

  /** The value of a digit in a base up to 36; 36 for any other character. */
  function DigitValue(c: char): nat {
    if '0' <= c <= '9' then (c as int) - ('0' as int)
    else if 'a' <= c <= 'z' then (c as int) - ('a' as int) + 10
    else if 'A' <= c <= 'Z' then (c as int) - ('A' as int) + 10
    else 36
  }

  function DigitChar(d: nat): (c: char)
    requires d < 16
    ensures DigitValue(c) == d && (d < 10 <==> '0' <= c <= '9')
    ensures !IsSpace(c) && c != '-' && c != '+' && c != 'x' && c != 'X' && (c == '0' <==> d == 0)
  {
    if d < 10 then ((('0' as int) + d) as char) else ((('a' as int) + d - 10) as char)
  }

  /** The first position from i on that does not hold a space. */
  function Spaces(s: string, i: nat): (j: nat)
    requires i <= |s|
    ensures i <= j <= |s|
    decreases |s| - i
  {
    if i < |s| && IsSpace(s[i]) then Spaces(s, i + 1) else i
  }

  /** The digits that start at position i. */
  function TakeDigits(s: string, i: nat, base: nat): (ds: seq<nat>)
    requires i <= |s|
    ensures i + |ds| <= |s|
    ensures forall k :: 0 <= k < |ds| ==> ds[k] < base
    decreases |s| - i
  {
    if i < |s| && DigitValue(s[i]) < base then [DigitValue(s[i])] + TakeDigits(s, i + 1, base) else []
  }

  /** What strtoul and strtol find at a position: a sign, the digits, and where the text behind
      them starts. Without any digit that is the position itself. */
  datatype Number = Number(negative: bool, base: nat, digits: seq<nat>, next: nat)

  predicate HasHexPrefix(s: string, i: nat) {
    i + 3 <= |s| && s[i] == '0' && (s[i + 1] == 'x' || s[i + 1] == 'X') && DigitValue(s[i + 2]) < 16
  }

  function Scan(s: string, pos: nat, base: nat): (n: Number)
    requires pos <= |s|
    ensures pos <= n.next <= |s| && (n.next == pos <==> n.digits == [])
    ensures (base != 0 ==> n.base == base) && forall k :: 0 <= k < |n.digits| ==> n.digits[k] < n.base
  {
    var i := Spaces(s, pos);
    var signed := i < |s| && (s[i] == '-' || s[i] == '+');
    var j := if signed then i + 1 else i;
    var prefixed := (base == 0 || base == 16) && HasHexPrefix(s, j);
    var b := if base != 0 then base else if prefixed then 16 else if j < |s| && s[j] == '0' then 8 else 10;
    var first := if prefixed then j + 2 else j;
    var digits := TakeDigits(s, first, b);
    if digits == [] then Number(false, b, [], pos)
    else Number(signed && s[i] == '-', b, digits, first + |digits|)
  }

  lemma {:induction false} NoCommaInSpaces(s: string, i: nat)
    requires i <= |s|
    ensures forall k :: i <= k < Spaces(s, i) ==> s[k] != ','
    decreases |s| - i
  {
    if i < |s| && IsSpace(s[i]) {
      NoCommaInSpaces(s, i + 1);
    }
  }

  lemma {:induction false} NoCommaInDigits(s: string, i: nat, base: nat)
    requires i <= |s| && base <= 36
    ensures forall k :: i <= k < i + |TakeDigits(s, i, base)| ==> s[k] != ','
    decreases |s| - i
  {
    if i < |s| && DigitValue(s[i]) < base {
      NoCommaInDigits(s, i + 1, base);
    }
  }

  /** A number does not reach past a comma. */
  lemma NoCommaInNumber(s: string, pos: nat, base: nat)
    requires pos <= |s| && base <= 36
    ensures forall k :: pos <= k < Scan(s, pos, base).next ==> s[k] != ','
  {
    NoCommaInSpaces(s, pos);
    var i := Spaces(s, pos);
    var j := if i < |s| && (s[i] == '-' || s[i] == '+') then i + 1 else i;
    var n := Scan(s, pos, base);
    if n.digits != [] {
      NoCommaInDigits(s, if (base == 0 || base == 16) && HasHexPrefix(s, j) then j + 2 else j, n.base);
    }
  }

  function Horner(digits: seq<nat>, base: nat): nat {
    if digits == [] then 0 else Horner(digits[..|digits| - 1], base) * base + digits[|digits| - 1]
  }

  /** The value that strtoul returns: saturated, and negated modulo 2^64 behind a minus sign. */
  function ULong(n: Number): (r: nat)
    ensures r < 0x1_0000_0000_0000_0000
  {
    var v := Horner(n.digits, n.base);
    if v >= 0x1_0000_0000_0000_0000 then 0xFFFF_FFFF_FFFF_FFFF
    else if n.negative && v != 0 then 0x1_0000_0000_0000_0000 - v
    else v
  }

  /** The value that strtol returns: saturated at both ends. */
  function Long(n: Number): int {
    var v := Horner(n.digits, n.base);
    if n.negative then if v > 0x8000_0000_0000_0000 then -0x8000_0000_0000_0000 else 0 - v as int
    else if v > 0x7FFF_FFFF_FFFF_FFFF then 0x7FFF_FFFF_FFFF_FFFF else v
  }

  // printf

  /** %d and %u of a number that is not negative. */
  function Dec(n: nat): (s: string)
    ensures s != ""
  {
    if n < 10 then [DigitChar(n)] else Dec(n / 10) + [DigitChar(n % 10)]
  }

  /** Hexadecimal digits as text. */
  function Hex(digits: seq<nat>): (s: string)
    requires forall i :: 0 <= i < |digits| ==> digits[i] < 16
    ensures |s| == |digits| && forall i :: 0 <= i < |s| ==> s[i] == DigitChar(digits[i])
  {
    if digits == [] then "" else [DigitChar(digits[0])] + Hex(digits[1..])
  }

  // Reading back what was written

  /** Whether a text has another one at a position. */
  predicate At(s: string, pos: nat, t: string) {
    pos + |t| <= |s| && forall k :: 0 <= k < |t| ==> s[pos + k] == t[k]
  }

  lemma AtParts(s: string, pos: nat, t: string, u: string)
    requires At(s, pos, t + u)
    ensures At(s, pos, t) && At(s, pos + |t|, u)
  {
    assert forall k :: 0 <= k < |t| ==> (t + u)[k] == t[k];
    forall k | 0 <= k < |u| ensures s[pos + |t| + k] == u[k] {
      assert s[pos + (|t| + k)] == (t + u)[|t| + k];
    }
  }

  lemma WholeAt(s: string)
    ensures At(s, 0, s)
  {
  }

  lemma OneCharacter(s: string, pos: nat, c: char)
    requires At(s, pos, [c])
    ensures pos < |s| && s[pos] == c
  {
    assert s[pos + 0] == [c][0];
  }

  lemma Associative(a: string, b: string, c: string)
    ensures (a + b) + c == a + (b + c)
  {
  }

  lemma {:induction false} TakeExactly(s: string, i: nat, t: string, digits: seq<nat>, base: nat)
    requires At(s, i, t) && |t| == |digits|
    requires forall k :: 0 <= k < |digits| ==> DigitValue(t[k]) == digits[k] < base
    requires i + |t| == |s| || DigitValue(s[i + |t|]) >= base
    ensures TakeDigits(s, i, base) == digits
    decreases |digits|
  {
    if digits != [] {
      assert s[i + 0] == t[0];
      assert forall k :: 0 <= k < |t| - 1 ==> s[i + 1 + k] == s[i + (k + 1)] == t[k + 1] == t[1..][k];
      TakeExactly(s, i + 1, t[1..], digits[1..], base);
      assert digits == [digits[0]] + digits[1..];
    }
  }

  function DecDigits(n: nat): (ds: seq<nat>)
    ensures |ds| == |Dec(n)| && forall i :: 0 <= i < |ds| ==> ds[i] < 10 && Dec(n)[i] == DigitChar(ds[i])
    ensures Horner(ds, 10) == n && (ds[0] == 0 <==> n == 0) && (n == 0 ==> ds == [0])
  {
    if n < 10 then [n]
    else
      var front := DecDigits(n / 10);
      assert (front + [n % 10])[..|front|] == front;
      front + [n % 10]
  }

  lemma DigitIsPlain(s: string, pos: nat)
    requires pos < |s| && DigitValue(s[pos]) < 16
    ensures Spaces(s, pos) == pos && s[pos] != '-' && s[pos] != '+'
  {
  }

  /** A number that starts with a digit is read from there on. */
  lemma ScanFrom(s: string, pos: nat, base: nat, digits: seq<nat>)
    requires pos < |s| && DigitValue(s[pos]) < 16 && digits != []
    requires var prefixed := (base == 0 || base == 16) && HasHexPrefix(s, pos);
             var b := if base != 0 then base else if prefixed then 16 else if s[pos] == '0' then 8 else 10;
             TakeDigits(s, if prefixed then pos + 2 else pos, b) == digits
    ensures var n := Scan(s, pos, base);
            !n.negative && n.digits == digits
              && n.next == pos + |digits| + if HasHexPrefix(s, pos) && (base == 0 || base == 16) then 2 else 0
    ensures base == 0 && !HasHexPrefix(s, pos) ==> Scan(s, pos, base).base == if s[pos] == '0' then 8 else 10
  {
    DigitIsPlain(s, pos);
    hide TakeDigits, Spaces, DigitValue, HasHexPrefix;
  }

  /** Whether what comes at a position cannot be part of a number. */
  predicate StopsAt(s: string, pos: nat) {
    pos == |s| || (pos < |s| && (s[pos] == ',' || s[pos] == '-'
      || s[pos] == '*' || s[pos] == ':' || s[pos] == ')' || s[pos] == ' '))
  }

  /** strtoul and strtol, in base 10 or with the base left to the text, read %d and %u back. */
  lemma ScanDec(s: string, pos: nat, n: nat, base: nat)
    requires At(s, pos, Dec(n)) && StopsAt(s, pos + |Dec(n)|) && (base == 0 || base == 10)
    ensures var r := Scan(s, pos, base);
            r.next == pos + |Dec(n)| && r.digits != [] && !r.negative && Horner(r.digits, r.base) == n
  {
    var t, ds := Dec(n), DecDigits(n);
    assert s[pos + 0] == t[0] == DigitChar(ds[0]) && (s[pos] == '0' <==> n == 0);
    TakeExactly(s, pos, t, ds, if base == 0 && n == 0 then 8 else 10);
    ScanFrom(s, pos, base, ds);
    assert n == 0 ==> ds == [0] && Horner([0][..0], 8) == 0 && Horner([0], 8) == 0;
  }

  lemma HexDigits(digits: seq<nat>)
    requires forall k :: 0 <= k < |digits| ==> digits[k] < 16
    ensures forall k :: 0 <= k < |digits| ==> DigitValue(Hex(digits)[k]) == digits[k]
  {
    hide Hex;
    assert forall k :: 0 <= k < |digits| ==> DigitValue(DigitChar(digits[k])) == digits[k];
  }

  lemma HexPrefixAt(s: string, pos: nat, digits: seq<nat>)
    requires digits != [] && forall k :: 0 <= k < |digits| ==> digits[k] < 16
    requires pos + 2 <= |s| && s[pos] == '0' && s[pos + 1] == 'x' && At(s, pos + 2, Hex(digits))
    ensures HasHexPrefix(s, pos)
  {
    assert s[pos + 2 + 0] == Hex(digits)[0] == DigitChar(digits[0]);
  }

  lemma TakeHex(s: string, pos: nat, digits: seq<nat>)
    requires forall k :: 0 <= k < |digits| ==> digits[k] < 16
    requires At(s, pos, Hex(digits)) && StopsAt(s, pos + |digits|)
    ensures TakeDigits(s, pos, 16) == digits
  {
    hide Hex, TakeDigits;
    HexDigits(digits);
    TakeExactly(s, pos, Hex(digits), digits, 16);
  }

  /** strtoul in base 16 reads digits back that were written behind 0x. */
  lemma ScanHex(s: string, pos: nat, digits: seq<nat>)
    requires digits != [] && forall k :: 0 <= k < |digits| ==> digits[k] < 16
    requires pos + 2 <= |s| && s[pos] == '0' && s[pos + 1] == 'x'
    requires At(s, pos + 2, Hex(digits)) && StopsAt(s, pos + 2 + |digits|)
    ensures var r := Scan(s, pos, 16); !r.negative && r.digits == digits && r.next == pos + 2 + |digits|
  {
    hide Hex, TakeDigits, Scan, At, HasHexPrefix, StopsAt;
    HexPrefixAt(s, pos, digits);
    TakeHex(s, pos + 2, digits);
    ScanFrom(s, pos, 16, digits);
  }

  /** The same without 0x, when nothing follows. */
  lemma ScanBareHex(digits: seq<nat>)
    requires digits != [] && forall k :: 0 <= k < |digits| ==> digits[k] < 16
    ensures var r := Scan(Hex(digits), 0, 16); !r.negative && r.digits == digits && r.next == |digits|
  {
    var s := Hex(digits);
    assert s[0] == DigitChar(digits[0]);
    TakeExactly(s, 0, s, digits, 16);
    ScanFrom(s, 0, 16, digits);
  }
}

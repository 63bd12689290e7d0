/** Base64, as in section 4 of RFC 4648: bytes as text and back. */
module Base64 {
  import opened CText
  import opened Options

  const PAD := '='

  /** The character for six bits. */
  function Char(d: nat): (c: char)
    requires d < 64
    ensures Value(c) == Some(d) && c != PAD && !IsSpace(c) && c != '\0'
  {
    if d < 26 then ((('A' as int) + d) as char)
    else if d < 52 then ((('a' as int) + d - 26) as char)
    else if d < 62 then ((('0' as int) + d - 52) as char)
    else if d == 62 then '+'
    else '/'
  }

  /** Where a character is among the 64. */
  function Value(c: char): (r: Option<nat>)
    ensures r.Some? ==> r.value < 64
  {
    if 'A' <= c <= 'Z' then Some((c as int) - ('A' as int))
    else if 'a' <= c <= 'z' then Some((c as int) - ('a' as int) + 26)
    else if '0' <= c <= '9' then Some((c as int) - ('0' as int) + 52)
    else if c == '+' then Some(62)
    else if c == '/' then Some(63)
    else None
  }

  lemma ValueOnce(c: char)
    ensures Value(c).Some? ==> Char(Value(c).value) == c
  {
  }

  predicate Bytes(b: seq<nat>) {
    forall i :: 0 <= i < |b| ==> b[i] < 256
  }

  /** The four characters of three bytes. */
  function Quad(a: nat, b: nat, c: nat): (r: string)
    requires a < 256 && b < 256 && c < 256
    ensures |r| == 4
  {
    [Char(a / 4), Char(a % 4 * 16 + b / 16), Char(b % 16 * 4 + c / 64), Char(c % 64)]
  }

  function Encoded(b: seq<nat>): (s: string)
    requires Bytes(b)
    ensures |s| == (|b| + 2) / 3 * 4
    decreases |b|
  {
    if |b| == 0 then ""
    else if |b| == 1 then [Char(b[0] / 4), Char(b[0] % 4 * 16), PAD, PAD]
    else if |b| == 2 then [Char(b[0] / 4), Char(b[0] % 4 * 16 + b[1] / 16), Char(b[1] % 16 * 4), PAD]
    else Quad(b[0], b[1], b[2]) + Encoded(b[3..])
  }

  /** The number of 24 bits that four characters spell, six bits each; a pad spells zero bits. */
  function Spelled(t: string): nat
    requires |t| == 4
  {
    SixBits(t[0]) * 262144 + SixBits(t[1]) * 4096 + SixBits(t[2]) * 64 + SixBits(t[3])
  }

  function SixBits(c: char): nat {
    if Value(c).Some? then Value(c).value else 0
  }

  lemma QuadSpells(a: nat, b: nat, c: nat)
    requires a < 256 && b < 256 && c < 256
    ensures Spelled(Quad(a, b, c)) == a * 65536 + b * 256 + c
  {
    hide Value, Char;
    assert a == a / 4 * 4 + a % 4 && b == b / 16 * 16 + b % 16 && c == c / 64 * 64 + c % 64;
  }

  lemma RestSpells(a: nat, b: nat)
    requires a < 256 && b < 256
    ensures Spelled([Char(a / 4), Char(a % 4 * 16), PAD, PAD]) == a * 65536
    ensures Spelled([Char(a / 4), Char(a % 4 * 16 + b / 16), Char(b % 16 * 4), PAD]) == a * 65536 + b * 256
  {
    hide Value, Char;
    assert Value(PAD) == None by { PadHasNone(); }
    assert a == a / 4 * 4 + a % 4 && b == b / 16 * 16 + b % 16;
  }

  lemma PadHasNone()
    ensures Value(PAD) == None
  {
  }

  /** A group of four characters spells the 24-bit number of the bytes from j on, with zero bits where
      there are none, and ends with as many pads as bytes are missing. */
  predicate IsGroup(g: string, b: seq<nat>, j: nat)
    requires |g| == 4 && j < |b|
  {
    var (y, z) := (if j + 1 < |b| then b[j + 1] else 0, if j + 2 < |b| then b[j + 2] else 0);
    && Spelled(g) == b[j] * 65536 + y * 256 + z
    && (g[3] == PAD <==> j + 2 >= |b|) && (g[2] == PAD <==> j + 1 >= |b|) && g[0] != PAD && g[1] != PAD
  }

  lemma FirstGroup(b: seq<nat>)
    requires Bytes(b) && b != []
    ensures |Encoded(b)| >= 4 && IsGroup(Encoded(b)[..4], b, 0)
  {
    hide Value, Char, Spelled;
    if |b| >= 3 {
      QuadSpells(b[0], b[1], b[2]);
      assert Encoded(b)[..4] == Quad(b[0], b[1], b[2]);
    } else {
      RestSpells(b[0], if |b| == 2 then b[1] else 0);
      assert Encoded(b)[..4] == Encoded(b);
    }
  }

  lemma LaterGroup(b: seq<nat>, g: string, j: nat)
    requires |g| == 4 && |b| > 3 && j < |b| - 3 && IsGroup(g, b[3..], j)
    ensures IsGroup(g, b, j + 3)
  {
    hide Spelled;
    assert b[3..][j] == b[j + 3];
    assert j + 4 < |b| ==> b[3..][j + 1] == b[j + 4];
    assert j + 5 < |b| ==> b[3..][j + 2] == b[j + 5];
  }

  /** Every three bytes, and the one or two at the end, are spelled by a group. */
  lemma {:induction false} GroupIs(b: seq<nat>, k: nat)
    requires Bytes(b) && 3 * k < |b|
    ensures |Encoded(b)| >= 4 * k + 4 && IsGroup(Encoded(b)[4 * k..4 * k + 4], b, 3 * k)
    decreases |b|
  {
    hide IsGroup, Quad;
    FirstGroup(b);
    if k > 0 {
      GroupIs(b[3..], k - 1);
      assert Encoded(b)[4 * k..4 * k + 4] == Encoded(b[3..])[4 * (k - 1)..4 * (k - 1) + 4];
      LaterGroup(b, Encoded(b)[4 * k..4 * k + 4], 3 * (k - 1));
    }
  }

  // Decoding

  /** Which of the four characters of a group comes next, the bytes that are complete, and the
      bits of the next one. */
  datatype Acc = Acc(state: nat, out: seq<nat>, partial: nat)

  const START := Acc(0, [], 0)

  function Step(a: Acc, v: nat): Acc
    requires a.state < 4
  {
    match a.state
    case 0 => Acc(1, a.out, v * 4)
    case 1 => Acc(2, a.out + [a.partial + v / 16], v % 16 * 16)
    case 2 => Acc(3, a.out + [a.partial + v / 4], v % 4 * 64)
    case _ => Acc(0, a.out + [a.partial + v], 0)
  }

  /** Whether the target has room for what the next character adds; without one there always is. */
  predicate HasRoom(a: Acc, size: Option<nat>) {
    size.None? || if a.state == 0 || a.state == 3 then |a.out| < size.value else |a.out| + 1 < size.value
  }

  /** Behind a pad character: one more after one byte, none after two, and no bits left over. */
  function Finish(rest: string, a: Acc, size: Option<nat>): Option<seq<nat>> {
    if ((a.state == 2 && rest == [PAD]) || (a.state == 3 && rest == ""))
      && (size.None? || a.partial == 0) then Some(a.out) else None
  }

  /** Decoding a text without white space. */
  function Decoded(t: string, a: Acc, size: Option<nat>): Option<seq<nat>>
    requires a.state < 4
    decreases |t|
  {
    if t == "" then if a.state == 0 then Some(a.out) else None
    else if t[0] == PAD then Finish(t[1..], a, size)
    else if Value(t[0]).None? || !HasRoom(a, size) then None
    else Decoded(t[1..], Step(a, Value(t[0]).value), size)
  }

  /** A text from position i on, without its white space. */
  function Stripped(s: string, i: nat): (t: string)
    requires i <= |s|
    ensures forall k :: 0 <= k < |t| ==> !IsSpace(t[k])
    decreases |s| - i
  {
    if i == |s| then "" else if IsSpace(s[i]) then Stripped(s, i + 1) else [s[i]] + Stripped(s, i + 1)
  }

  /** How large a target has to be: a group that is not full writes into one more byte. */
  function Room(n: nat): nat {
    if n % 3 == 0 then n else n + 1
  }

  // Four characters at a time

  lemma OneStep(t: string, a: Acc, size: Option<nat>, v: nat)
    requires a.state < 4 && t != "" && t[0] != PAD && Value(t[0]) == Some(v)
    ensures Decoded(t, a, size) == if HasRoom(a, size) then Decoded(t[1..], Step(a, v), size) else None
  {
  }

  lemma StepsOfFour(a: Acc, p: nat, q: nat, r: nat, s: nat, x: nat, y: nat, z: nat) returns (a1: Acc, a2: Acc, a3: Acc)
    requires a.state == 0 && x == p * 4 + q / 16 && y == q % 16 * 16 + r / 4 && z == r % 4 * 64 + s
    ensures a1.state == 1 && a2.state == 2 && a3.state == 3
    ensures a1.out == a.out && a2.out == a.out + [x] && a3.out == a.out + [x] + [y]
    ensures Step(a, p) == a1 && Step(a1, q) == a2 && Step(a2, r) == a3 && Step(a3, s) == Acc(0, a.out + [x, y, z], 0)
  {
    a1 := Step(a, p);
    a2 := Step(a1, q);
    a3 := Step(a2, r);
    assert a.out + [x] + [y] + [z] == a.out + [x, y, z];
  }

  lemma FourSteps(t: string, a: Acc, size: Option<nat>, p: nat, q: nat, r: nat, s: nat, x: nat, y: nat, z: nat)
    requires a.state == 0 && |t| >= 4 && t[0] != PAD && t[1] != PAD && t[2] != PAD && t[3] != PAD
    requires Value(t[0]) == Some(p) && Value(t[1]) == Some(q) && Value(t[2]) == Some(r) && Value(t[3]) == Some(s)
    requires x == p * 4 + q / 16 && y == q % 16 * 16 + r / 4 && z == r % 4 * 64 + s
    ensures Decoded(t, a, size) ==
      if size.Some? && |a.out| + 3 > size.value then None else Decoded(t[4..], Acc(0, a.out + [x, y, z], 0), size)
  {
    hide Value, Decoded, Step;
    var a1, a2, a3 := StepsOfFour(a, p, q, r, s, x, y, z);
    assert t[1..][1..] == t[2..] && t[2..][1..] == t[3..] && t[3..][1..] == t[4..];
    OneStep(t, a, size, p);
    OneStep(t[1..], a1, size, q);
    OneStep(t[2..], a2, size, r);
    OneStep(t[3..], a3, size, s);
  }

  lemma Parts(high: nat, low: nat, m: nat)
    requires low < m && (m == 4 || m == 16 || m == 64)
    ensures (high * m + low) / m == high && (high * m + low) % m == low
  {
  }

  /** Three bytes are four digits. */
  lemma DigitsOf(p: nat, q: nat, r: nat, s: nat)
    requires p < 64 && q < 64 && r < 64 && s < 64
    ensures var (a, b, c) := (p * 4 + q / 16, q % 16 * 16 + r / 4, r % 4 * 64 + s);
            a < 256 && b < 256 && c < 256 && a / 4 == p
              && a % 4 * 16 + b / 16 == q && b % 16 * 4 + c / 64 == r && c % 64 == s
  {
    Parts(p, q / 16, 4);
    Parts(q % 16, r / 4, 16);
    Parts(r % 4, s, 64);
  }

  lemma BytesOf(a: nat, b: nat, c: nat)
    requires a < 256 && b < 256 && c < 256
    ensures var (p, q, r, s) := (a / 4, a % 4 * 16 + b / 16, b % 16 * 4 + c / 64, c % 64);
            p < 64 && q < 64 && r < 64 && s < 64 && p * 4 + q / 16 == a
              && q % 16 * 16 + r / 4 == b && r % 4 * 64 + s == c
  {
  }

  /** An encoding decodes to its bytes, when there is just enough room or more. */
  lemma {:induction false} EncodedDecodes(b: seq<nat>, a: Acc, size: nat)
    requires Bytes(b) && a.state == 0
    ensures Decoded(Encoded(b), a, Some(size)) == if b == [] || |a.out| + Room(|b|) <= size then Some(a.out + b)
      else None
    decreases |b|
  {
    var t := Encoded(b);
    if |b| == 0 {
      assert a.out + b == a.out && t == "";
    } else if |b| == 1 {
      OneByteDecodes(b, a, size);
    } else if |b| == 2 {
      TwoBytesDecode(b, a, size);
    } else {
      hide Encoded, Decoded, Room;
      FullGroupDecodes(b, a, size);
      var a' := Acc(0, a.out + b[..3], 0);
      EncodedDecodes(b[3..], a', size);
      assert a'.out + b[3..] == a.out + b;
      RoomLess(|b|, |a.out|, size);
    }
  }

  lemma FullGroupDecodes(b: seq<nat>, a: Acc, size: nat)
    requires Bytes(b) && a.state == 0 && |b| >= 3
    ensures Decoded(Encoded(b), a, Some(size)) == if |a.out| + 3 > size then None
      else Decoded(Encoded(b[3..]), Acc(0, a.out + b[..3], 0), Some(size))
  {
    hide Decoded, Char, Value, Encoded;
    QuadIs(b);
    BytesOf(b[0], b[1], b[2]);
    FourSteps(Encoded(b), a, Some(size), b[0] / 4, b[0] % 4 * 16 + b[1] / 16,
      b[1] % 16 * 4 + b[2] / 64, b[2] % 64, b[0], b[1], b[2]);
    assert b[..3] == [b[0], b[1], b[2]];
  }

  lemma RoomLess(n: nat, had: nat, size: nat)
    requires n >= 3
    ensures Room(n) == Room(n - 3) + 3 && Room(n) >= n
  {
  }

  lemma QuadIs(b: seq<nat>)
    requires Bytes(b) && |b| >= 3
    ensures var t := Encoded(b);
            && |t| >= 4 && t[4..] == Encoded(b[3..]) && t[0] != PAD && t[1] != PAD && t[2] != PAD && t[3] != PAD
            && Value(t[0]) == Some(b[0] / 4) && Value(t[1]) == Some(b[0] % 4 * 16 + b[1] / 16)
            && Value(t[2]) == Some(b[1] % 16 * 4 + b[2] / 64) && Value(t[3]) == Some(b[2] % 64)
  {
    hide Char, Value;
    var t := Encoded(b);
    var quad := Quad(b[0], b[1], b[2]);
    assert t == quad + Encoded(b[3..]);
    assert forall k :: 0 <= k < 4 ==> t[k] == quad[k];
  }

  /** A group that ends after two digits. */
  lemma EndsAfterTwo(t: string, a: Acc, size: nat, p: nat, q: nat, x: nat)
    requires a.state == 0 && |t| == 4 && t[2] == PAD && t[3] == PAD && p * 4 + q / 16 == x
    requires t[0] != PAD && t[1] != PAD && Value(t[0]) == Some(p) && Value(t[1]) == Some(q)
    ensures Decoded(t, a, Some(size)) == if |a.out| + 2 <= size && q % 16 == 0 then Some(a.out + [x]) else None
  {
    hide Value;
    var a2 := TwoSteps(t, a, size, p, q);
    assert t[2..] == [PAD, PAD] && [PAD, PAD][1..] == [PAD];
  }

  /** A group that ends after three digits. */
  lemma EndsAfterThree(t: string, a: Acc, size: nat, p: nat, q: nat, r: nat, x: nat, y: nat)
    requires a.state == 0 && |t| == 4 && t[3] == PAD && p * 4 + q / 16 == x && q % 16 * 16 + r / 4 == y
    requires t[0] != PAD && t[1] != PAD && t[2] != PAD
      && Value(t[0]) == Some(p) && Value(t[1]) == Some(q) && Value(t[2]) == Some(r)
    ensures Decoded(t, a, Some(size)) == if |a.out| + 3 <= size && r % 4 == 0 then Some(a.out + [x, y]) else None
  {
    hide Value;
    var a2 := TwoSteps(t, a, size, p, q);
    OneStep(t[2..], a2, Some(size), r);
    assert t[2..][1..] == [PAD] && [PAD][1..] == "";
    assert a2.out + [y] == a.out + [x, y];
  }

  lemma OneByteDecodes(b: seq<nat>, a: Acc, size: nat)
    requires Bytes(b) && a.state == 0 && |b| == 1
    ensures Decoded(Encoded(b), a, Some(size)) == if |a.out| + 2 <= size then Some(a.out + b) else None
  {
    hide Char, Value, Decoded;
    BytesOf(b[0], 0, 0);
    var t, x, p, q := Encoded(b), b[0], b[0] / 4, b[0] % 4 * 16;
    assert t == [Char(p), Char(q), PAD, PAD] && q % 16 == 0;
    EndsAfterTwo(t, a, size, p, q, x);
    assert b == [x];
  }

  lemma TwoBytesDecode(b: seq<nat>, a: Acc, size: nat)
    requires Bytes(b) && a.state == 0 && |b| == 2
    ensures Decoded(Encoded(b), a, Some(size)) == if |a.out| + 3 <= size then Some(a.out + b) else None
  {
    hide Char, Value, Decoded;
    BytesOf(b[0], b[1], 0);
    var t, p, q, r := Encoded(b), b[0] / 4, b[0] % 4 * 16 + b[1] / 16, b[1] % 16 * 4;
    assert t == [Char(p), Char(q), Char(r), PAD] && r % 4 == 0;
    EndsAfterThree(t, a, size, p, q, r, b[0], b[1]);
    assert b == [b[0], b[1]];
  }

  lemma TwoSteps(t: string, a: Acc, size: nat, p: nat, q: nat) returns (a2: Acc)
    requires a.state == 0 && |t| >= 2 && t[0] != PAD && t[1] != PAD && Value(t[0]) == Some(p) && Value(t[1]) == Some(q)
    ensures a2 == Acc(2, a.out + [p * 4 + q / 16], q % 16 * 16)
    ensures Decoded(t, a, Some(size)) == if |a.out| + 2 <= size then Decoded(t[2..], a2, Some(size)) else None
  {
    hide Value, Decoded;
    var a1 := Step(a, p);
    a2 := Step(a1, q);
    assert t[1..][1..] == t[2..];
    OneStep(t, a, Some(size), p);
    OneStep(t[1..], a1, Some(size), q);
  }

  // What is accepted is an encoding

  /** A group starts with two digits. */
  lemma StartsWithTwo(t: string, a: Acc, size: nat) returns (p: nat, q: nat)
    requires a.state == 0 && t != "" && Decoded(t, a, Some(size)).Some?
    ensures p < 64 && q < 64 && |t| >= 3 && t[0] != PAD
      && t[1] != PAD && Value(t[0]) == Some(p) && Value(t[1]) == Some(q)
  {
    hide Value;
    p := Value(t[0]).value;
    assert t[1..] != "" && t[1..][0] == t[1];
    q := Value(t[1]).value;
    assert t[1..][1..] == t[2..];
    var a2 := TwoSteps(t, a, size, p, q);
  }

  lemma TwoDigitsEnd(t: string, a: Acc, size: nat, p: nat, q: nat) returns (x: nat)
    requires a.state == 0 && |t| >= 3 && t[0] != PAD && t[1] != PAD && Value(t[0]) == Some(p) && Value(t[1]) == Some(q)
    requires t[2] == PAD && Decoded(t, a, Some(size)).Some?
    ensures x < 256 && t == Encoded([x]) && Decoded(t, a, Some(size)) == Some(a.out + [x])
  {
    DigitsOf(p, q, 0, 0);
    x := p * 4 + q / 16;
    ValueOnce(t[0]);
    ValueOnce(t[1]);
    hide Value, Char;
    var a2 := TwoSteps(t, a, size, p, q);
    assert t[2..][0] == PAD && t[2..][1..] == t[3..];
    assert |t| == 4 && t[3] == PAD;
    assert t == [t[0], t[1], PAD, PAD];
    assert q % 16 == 0 && x % 4 * 16 == q;
  }

  lemma ThreeDigitsEnd(t: string, a: Acc, size: nat, p: nat, q: nat) returns (x: nat, y: nat)
    requires a.state == 0 && |t| >= 4 && t[0] != PAD && t[1] != PAD && Value(t[0]) == Some(p) && Value(t[1]) == Some(q)
    requires t[2] != PAD && t[3] == PAD && Decoded(t, a, Some(size)).Some?
    ensures x < 256 && y < 256 && t == Encoded([x, y]) && Decoded(t, a, Some(size)) == Some(a.out + [x, y])
  {
    ThirdIsDigit(t, a, size, p, q);
    var r := Value(t[2]).value;
    DigitsOf(p, q, r, 0);
    x, y := p * 4 + q / 16, q % 16 * 16 + r / 4;
    ValueOnce(t[0]);
    ValueOnce(t[1]);
    ValueOnce(t[2]);
    hide Value, Char;
    ThreeDigitsThenPad(t, a, size, p, q, r);
    EndsAfterThree(t, a, size, p, q, r, x, y);
    assert t == [t[0], t[1], t[2], PAD];
    hide Decoded, Step;
    assert y % 16 * 4 == r;
  }

  lemma ThirdIsDigit(t: string, a: Acc, size: nat, p: nat, q: nat)
    requires a.state == 0 && |t| >= 3 && t[0] != PAD && t[1] != PAD && Value(t[0]) == Some(p) && Value(t[1]) == Some(q)
    requires t[2] != PAD && Decoded(t, a, Some(size)).Some?
    ensures Value(t[2]).Some? && |t| >= 4
  {
    hide Value;
    var a2 := TwoSteps(t, a, size, p, q);
    assert t[2..][0] == t[2] && |t[2..][1..]| == |t| - 3;
  }

  lemma ThreeDigitsThenPad(t: string, a: Acc, size: nat, p: nat, q: nat, r: nat)
    requires a.state == 0 && |t| >= 4 && t[0] != PAD && t[1] != PAD && t[2] != PAD && t[3] == PAD
    requires Value(t[0]) == Some(p) && Value(t[1]) == Some(q) && Value(t[2]) == Some(r)
    requires Decoded(t, a, Some(size)).Some?
    ensures |t| == 4 && r % 4 == 0
  {
    hide Value;
    var a2 := TwoSteps(t, a, size, p, q);
    OneStep(t[2..], a2, Some(size), r);
    assert t[2..][1..] == t[3..] && t[3..][1..] == t[4..];
  }

  lemma FourthIsDigit(t: string, a: Acc, size: nat, p: nat, q: nat)
    requires a.state == 0 && |t| >= 4 && t[0] != PAD && t[1] != PAD && Value(t[0]) == Some(p) && Value(t[1]) == Some(q)
    requires t[2] != PAD && t[3] != PAD && Decoded(t, a, Some(size)).Some?
    ensures Value(t[2]).Some? && Value(t[3]).Some?
  {
    hide Value;
    ThirdIsDigit(t, a, size, p, q);
    var a2 := TwoSteps(t, a, size, p, q);
    OneStep(t[2..], a2, Some(size), Value(t[2]).value);
    assert t[2..][1..] == t[3..] && t[3..][0] == t[3];
  }

  /** A full group, and what follows it. */
  lemma FourDigits(t: string, a: Acc, size: nat, p: nat, q: nat) returns (b: seq<nat>)
    requires a.state == 0 && |t| >= 4 && t[0] != PAD && t[1] != PAD && Value(t[0]) == Some(p) && Value(t[1]) == Some(q)
    requires t[2] != PAD && t[3] != PAD && Decoded(t, a, Some(size)).Some?
    ensures |b| == 3 && Bytes(b) && t[..4] == Quad(b[0], b[1], b[2])
    ensures Decoded(t, a, Some(size)) == Decoded(t[4..], Acc(0, a.out + b, 0), Some(size))
  {
    FourthIsDigit(t, a, size, p, q);
    hide Value, Char, Decoded, Quad;
    var r, s := Value(t[2]).value, Value(t[3]).value;
    var x, y, z := p * 4 + q / 16, q % 16 * 16 + r / 4, r % 4 * 64 + s;
    QuadOf(t[0], t[1], t[2], t[3], p, q, r, s);
    FourSteps(t, a, Some(size), p, q, r, s, x, y, z);
    b := [x, y, z];
    assert t[..4] == [t[0], t[1], t[2], t[3]];
  }

  lemma QuadOf(c0: char, c1: char, c2: char, c3: char, p: nat, q: nat, r: nat, s: nat)
    requires Value(c0) == Some(p) && Value(c1) == Some(q) && Value(c2) == Some(r) && Value(c3) == Some(s)
    ensures var (x, y, z) := (p * 4 + q / 16, q % 16 * 16 + r / 4, r % 4 * 64 + s);
            x < 256 && y < 256 && z < 256 && Quad(x, y, z) == [c0, c1, c2, c3]
  {
    hide Value, Char;
    DigitsOf(p, q, r, s);
    ValueOnce(c0);
    ValueOnce(c1);
    ValueOnce(c2);
    ValueOnce(c3);
  }

  /** A text that is accepted is the encoding of the bytes that come out. */
  lemma {:induction false} AcceptedIsEncoded(t: string, a: Acc, size: nat) returns (b: seq<nat>)
    requires a.state == 0 && Decoded(t, a, Some(size)).Some?
    ensures Bytes(b) && t == Encoded(b) && Decoded(t, a, Some(size)) == Some(a.out + b)
    decreases |t|
  {
    hide Decoded, Value, Char, Encoded, Quad;
    NothingDecodes(a, size);
    if t == "" {
      b := [];
    } else {
      var p, q := StartsWithTwo(t, a, size);
      if t[2] == PAD || (|t| >= 4 && t[3] == PAD) {
        b := LastGroup(t, a, size, p, q);
      } else {
        ThirdIsDigit(t, a, size, p, q);
        var three := FourDigits(t, a, size, p, q);
        var rest := AcceptedIsEncoded(t[4..], Acc(0, a.out + three, 0), size);
        b := three + rest;
        QuadThen(t, three, rest);
        assert a.out + three + rest == a.out + b;
      }
    }
  }

  lemma NothingDecodes(a: Acc, size: nat)
    requires a.state == 0
    ensures Encoded([]) == "" && Decoded("", a, Some(size)) == Some(a.out + [])
  {
    assert a.out + [] == a.out;
  }

  lemma LastGroup(t: string, a: Acc, size: nat, p: nat, q: nat) returns (b: seq<nat>)
    requires a.state == 0 && |t| >= 3 && t[0] != PAD && t[1] != PAD && Value(t[0]) == Some(p) && Value(t[1]) == Some(q)
    requires Decoded(t, a, Some(size)).Some? && (t[2] == PAD || (|t| >= 4 && t[3] == PAD))
    ensures Bytes(b) && t == Encoded(b) && Decoded(t, a, Some(size)) == Some(a.out + b)
  {
    hide Decoded, Value, Char, Encoded;
    if t[2] == PAD {
      var x := TwoDigitsEnd(t, a, size, p, q);
      b := [x];
    } else {
      var x, y := ThreeDigitsEnd(t, a, size, p, q);
      b := [x, y];
    }
  }

  lemma QuadThen(t: string, three: seq<nat>, rest: seq<nat>)
    requires |three| == 3 && Bytes(three) && Bytes(rest) && |t| >= 4
    requires t[..4] == Quad(three[0], three[1], three[2]) && t[4..] == Encoded(rest)
    ensures Bytes(three + rest) && t == Encoded(three + rest)
  {
    hide Char;
    var b := three + rest;
    assert b[3..] == rest && t == t[..4] + t[4..];
    assert b[0] == three[0] && b[1] == three[1] && b[2] == three[2];
  }

  /** Decoding gives some bytes exactly when the text, but for its white space, is their encoding
      and the target is large enough. */
  lemma DecodesExactly(src: string, size: nat, b: seq<nat>)
    requires Bytes(b)
    ensures Decoded(Stripped(src, 0), START, Some(size)) == Some(b) <==>
      Stripped(src, 0) == Encoded(b) && Room(|b|) <= size
  {
    var t := Stripped(src, 0);
    hide Stripped, Decoded, Encoded;
    EncodedDecodes(b, START, size);
    assert START.out + b == b;
    if Decoded(t, START, Some(size)) == Some(b) {
      var c := AcceptedIsEncoded(t, START, size);
      assert START.out + c == c;
    }
  }

  lemma {:induction false} StrippedOfNone(s: string, i: nat)
    requires i <= |s| && forall k :: 0 <= k < |s| ==> !IsSpace(s[k])
    ensures Stripped(s, i) == s[i..]
    decreases |s| - i
  {
    if i < |s| {
      StrippedOfNone(s, i + 1);
    }
  }

  lemma {:induction false} EncodedHasNoSpace(b: seq<nat>)
    requires Bytes(b)
    ensures forall k :: 0 <= k < |Encoded(b)| ==> !IsSpace(Encoded(b)[k])
    decreases |b|
  {
    if |b| >= 3 {
      EncodedHasNoSpace(b[3..]);
    }
  }

  /** Decoding an encoding with room for one byte more gives the bytes back. */
  lemma RoundTrip(b: seq<nat>, size: nat)
    requires Bytes(b) && size >= |b| + 1
    ensures Decoded(Stripped(Encoded(b), 0), START, Some(size)) == Some(b)
  {
    EncodedHasNoSpace(b);
    StrippedOfNone(Encoded(b), 0);
    DecodesExactly(Encoded(b), size, b);
  }
}

/** Words as hexadecimal digits: what %08lx, %016lx and %lx print of a word, and the word that
    strtoul makes of digits. */
module HexWords {
  import opened Words
  import opened CText

  /** The value of four bits, least significant first. */
  function Nibble(b: seq<bool>): (d: nat)
    requires |b| == 4
    ensures d < 16 && NibbleBits(d) == b
  {
    (if b[0] then 1 else 0) + (if b[1] then 2 else 0) + (if b[2] then 4 else 0) + (if b[3] then 8 else 0)
  }

  function NibbleBits(d: nat): (b: seq<bool>)
    requires d < 16
    ensures |b| == 4 && (d == 0 ==> b == [false, false, false, false])
  {
    [d % 2 == 1, d / 2 % 2 == 1, d / 4 % 2 == 1, d / 8 == 1]
  }

  /** Bits as digits, most significant digit first. */
  function Digits(b: seq<bool>): (ds: seq<nat>)
    requires |b| % 4 == 0
    ensures 4 * |ds| == |b| && forall i :: 0 <= i < |ds| ==> ds[i] < 16
    ensures DigitBits(ds) == b
  {
    if b == [] then []
    else
      var k := |b| - 4;
      var ds := [Nibble(b[k..])] + Digits(b[..k]);
      assert ds[1..] == Digits(b[..k]) && b[..k] + b[k..] == b;
      ds
  }

  function DigitBits(ds: seq<nat>): (b: seq<bool>)
    requires forall i :: 0 <= i < |ds| ==> ds[i] < 16
    ensures |b| == 4 * |ds|
  {
    if ds == [] then [] else DigitBits(ds[1..]) + NibbleBits(ds[0])
  }

  /** The value of hexadecimal digits as an unsigned long, saturated like strtoul does. */
  function HexValue(ds: seq<nat>): (w: Word)
    requires forall i :: 0 <= i < |ds| ==> ds[i] < 16
    decreases |ds|
  {
    if |ds| <= BITS / 4 then DigitBits(ds) + Repeat(false, BITS - 4 * |ds|)
    else if ds[0] == 0 then HexValue(ds[1..])
    else FULL
  }

  predicate Overflows(ds: seq<nat>) {
    |ds| > BITS / 4 && (ds[0] != 0 || Overflows(ds[1..]))
  }

  /** Two's complement negation. */
  function Negate(w: Word): Word {
    seq(BITS, k requires 0 <= k < BITS => if exists j :: 0 <= j < k && w[j] then !w[k] else w[k])
  }

  /** The word that strtoul in base 16 returns. */
  function HexWord(n: Number): Word
    requires forall i :: 0 <= i < |n.digits| ==> n.digits[i] < 16
  {
    if n.negative && !Overflows(n.digits) then Negate(HexValue(n.digits)) else HexValue(n.digits)
  }
}

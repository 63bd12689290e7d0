/** Share targets as text, and the difficulties that stand for them. */
module Targets {
  import opened Arithmetic
  import opened CText
  import opened Options

  const U32 := 0xFFFF_FFFF
  const U64 := 0xFFFF_FFFF_FFFF_FFFF
  const MIN_DIFFICULTY := 1000
  const MAX_SAFE_INTEGER := 0x1F_FFFF_FFFF_FFFF

  // Numbers as hexadecimal bytes, the lowest byte first

  predicate AllHex(text: string, pos: nat, count: nat) {
    pos + count <= |text| && forall k :: pos <= k < pos + count ==> DigitValue(text[k]) < 16
  }

  function ReadLE(text: string, pos: nat, bytes: nat): (r: nat)
    requires AllHex(text, pos, 2 * bytes)
    decreases bytes
  {
    if bytes == 0 then 0
    else 16 * DigitValue(text[pos]) + DigitValue(text[pos + 1]) + 256 * ReadLE(text, pos + 2, bytes - 1)
  }

  function WriteLE(n: nat, bytes: nat): (text: string)
    ensures |text| == 2 * bytes
  {
    if bytes == 0 then ""
    else [DigitChar(n % 256 / 16), DigitChar(n % 16)] + WriteLE(n / 256, bytes - 1)
  }

  function Pow256(bytes: nat): nat {
    if bytes == 0 then 1 else 256 * Pow256(bytes - 1)
  }

  /** What was written is read back. */
  lemma {:induction false} ReadBack(text: string, pos: nat, n: nat, bytes: nat)
    requires At(text, pos, WriteLE(n, bytes)) && n < Pow256(bytes)
    ensures AllHex(text, pos, 2 * bytes) && ReadLE(text, pos, bytes) == n
    decreases bytes
  {
    if bytes > 0 {
      hide At, WriteLE;
      ByteAt(text, pos, n, bytes);
      ReadBack(text, pos + 2, n / 256, bytes - 1);
      ByteDigits(n, Pow256(bytes - 1));
    }
  }

  lemma ByteAt(text: string, pos: nat, n: nat, bytes: nat)
    requires At(text, pos, WriteLE(n, bytes)) && n < Pow256(bytes) && bytes > 0
    ensures pos + 2 <= |text| && At(text, pos + 2, WriteLE(n / 256, bytes - 1)) && n / 256 < Pow256(bytes - 1)
    ensures DigitValue(text[pos]) == n % 256 / 16 && DigitValue(text[pos + 1]) == n % 16
  {
    var first, rest := [DigitChar(n % 256 / 16), DigitChar(n % 16)], WriteLE(n / 256, bytes - 1);
    AtParts(text, pos, first, rest);
    ByteDigits(n, Pow256(bytes - 1));
    assert text[pos + 0] == first[0] && text[pos + 1] == first[1];
  }

  lemma ByteDigits(n: nat, p: nat)
    requires n < 256 * p
    ensures n % 256 / 16 < 16 && n % 16 < 16 && n / 256 < p
    ensures 16 * (n % 256 / 16) + n % 16 + 256 * (n / 256) == n
  {
  }

  // Targets

  /** The highest hash that meets a target, and the difficulty of the target. */
  datatype Decoded = Decoded(value: nat, difficulty: nat)

  function Wide(value: nat): Decoded {
    if value > 0 then Decoded(value, U64 / value) else Decoded(U64, MIN_DIFFICULTY)
  }

  function Compact(compact: nat): Decoded
    requires compact <= U32
  {
    if compact > 0 then
      QuotientBounds(U32, compact);
      Decoded(U64 / (U32 / compact), U32 / compact)
    else Decoded(U64, MIN_DIFFICULTY)
  }

  /** `target.padEnd(8, "0").substring(0, 8)` */
  function Padded(target: string): (r: string)
    ensures |r| == 8 && forall k :: 0 <= k < 8 ==> r[k] == if k < |target| then target[k] else '0'
  {
    if |target| >= 8 then target[..8] else target + seq(8 - |target|, _ => '0')
  }

  /** Nothing when the text is not hexadecimal, where the read from the buffer fails. */
  function Decode(target: string): (r: Option<Decoded>)
  {
    if |target| >= 16 then
      if AllHex(target, 0, 16) then Some(Wide(ReadLE(target, 0, 8))) else None
    else if AllHex(Padded(target), 0, 8) then
      ReadBelow(Padded(target), 0, 4);
      Some(Compact(ReadLE(Padded(target), 0, 4)))
    else None
  }

  lemma {:induction false} ReadBelow(text: string, pos: nat, bytes: nat)
    requires AllHex(text, pos, 2 * bytes)
    ensures ReadLE(text, pos, bytes) < Pow256(bytes)
    ensures Pow256(4) == U32 + 1
    decreases bytes
  {
    assert Pow256(2) == 65536 && Pow256(3) == 16777216;
    if bytes > 0 {
      ReadBelow(text, pos + 2, bytes - 1);
    }
  }

  /** Whether a target is not the zero that stands for no limit. */
  predicate NonZero(target: string)
    requires Decode(target).Some?
  {
    if |target| >= 16 then ReadLE(target, 0, 8) > 0 else ReadLE(Padded(target), 0, 4) > 0
  }

  function Difficulty(target: string): nat
    requires Decode(target).Some?
  {
    Decode(target).value.difficulty
  }

  function DifficultyTarget(difficulty: nat): (target: string)
    ensures |target| == 8
  {
    WriteLE(CompactOf(difficulty), 4)
  }

  /** Math.max(1, Math.min(U32, Math.floor(U32 / Math.max(1, difficulty)))) */
  function CompactOf(difficulty: nat): (c: nat)
    ensures 1 <= c <= U32
  {
    var quotient := U32 / if difficulty < 1 then 1 else difficulty;
    QuotientAtMost(U32, if difficulty < 1 then 1 else difficulty);
    if quotient < 1 then 1 else quotient
  }

  /** The value that counts of a hash of 64 hexadecimal digits: its last eight bytes. */
  function HashValue(result: string): (r: Option<nat>)
    ensures r.Some? ==> r.value <= U64
  {
    if |result| >= 64 && AllHex(result, 0, 64) then
      assert AllHex(result, 48, 16);
      ReadBelow(result, 48, 8);
      EightBytes();
      Some(ReadLE(result, 48, 8))
    else None
  }

  /** The nonce that a share claims: the first four bytes of the text; nothing when there are fewer. */
  function Claimed(nonce: string): (r: Option<nat>)
    ensures r.Some? ==> r.value <= U32
  {
    if AllHex(nonce, 0, 8) then
      ReadBelow(nonce, 0, 4);
      Some(ReadLE(nonce, 0, 4))
    else None
  }

  lemma EightBytes()
    ensures Pow256(8) == U64 + 1
  {
    assert Pow256(1) == 256 && Pow256(2) == 65536 && Pow256(3) == 16777216 && Pow256(4) == 4294967296;
    assert Pow256(5) == 256 * Pow256(4) && Pow256(6) == 65536 * Pow256(4) && Pow256(7) == 16777216 * Pow256(4);
  }

  predicate Meets(value: Option<nat>, target: string)
    requires Decode(target).Some?
  {
    value.Some? && value.value <= Decode(target).value.value
  }

  function ValueDifficulty(value: Option<nat>): nat {
    if value.None? then 0 else if value.value > 0 then U64 / value.value else MAX_SAFE_INTEGER
  }

  // Quotients

  lemma QuotientAtMost(u: nat, d: nat)
    requires d >= 1
    ensures 0 <= u / d <= u
  {
    Euclid(u, d);
    Grow(1, d, u / d);
  }

  /** Dividing twice does not lose anything, and a third time gives the first quotient. */
  lemma QuotientBounds(u: nat, d: nat)
    requires 1 <= d <= u
    ensures 1 <= u / d <= u && u / (u / d) >= d && u / (u / (u / d)) == u / d
  {
    var c := u / d;
    Fits(u, d, 1);
    QuotientAtMost(u, d);
    Fits(u, d, c);
    Fits(u, c, d);
    var e := u / c;
    Fits(u, c, e);
    Fits(u, e, c);
    Fits(u, d, u / e);
    Fits(u, e, u / e);
    Grow(d, e, u / e);
  }

  lemma SmallIsExact(u: nat, d: nat)
    requires d >= 1 && (d + 1) * d <= u
    ensures u / d > d && u / (u / d) == d
  {
    Fits(u, d, d + 1);
    Euclid(u, d);
    QuotientUnique(u, u / d, d, u % d);
  }

  // What the difficulties and targets say about each other

  lemma {:induction false} DifficultyTargetReads(difficulty: nat)
    ensures Decode(DifficultyTarget(difficulty)) == Some(Compact(CompactOf(difficulty)))
    ensures NonZero(DifficultyTarget(difficulty))
  {
    var target := DifficultyTarget(difficulty);
    assert Pow256(4) == 256 * (256 * (256 * 256)) by {
      assert Pow256(1) == 256 && Pow256(2) == 65536 && Pow256(3) == 16777216;
    }
    ReadBack(target, 0, CompactOf(difficulty), 4);
    assert Padded(target) == target;
  }

  /** From difficulty to target and back is never easier, is exact for small difficulties, and
      once more changes nothing. */
  lemma DifficultyRoundTrip(d: nat)
    requires 1 <= d
    ensures Decode(DifficultyTarget(d)).Some?
    ensures var e := Difficulty(DifficultyTarget(d));
            && (e >= d <==> d <= U32)
            && (d <= 65535 ==> e == d)
            && DifficultyTarget(e) == DifficultyTarget(d)
  {
    DifficultyTargetReads(d);
    if d <= U32 {
      QuotientBounds(U32, d);
      if d <= 65535 {
        Grow(d + 1, 65536, d);
        SmallIsExact(U32, d);
      }
    } else {
      QuotientUnique(U32, d, 0, U32);
    }
  }

  /** 65535 is the last difficulty below which all are exact. */
  lemma NotExactAbove()
    ensures Decode(DifficultyTarget(65536)).Some? && Difficulty(DifficultyTarget(65536)) == 65537
  {
    DifficultyTargetReads(65536);
  }

  /** A hash that meets a target is at least as difficult as the target claims, for exactly the
      targets that are not zero and whose difficulty a double can count. */
  lemma MeetingIsDifficult(target: string)
    requires Decode(target).Some?
    ensures (forall v: nat :: v <= U64 && Meets(Some(v), target) ==> ValueDifficulty(Some(v)) >= Difficulty(target))
       <==> NonZero(target) && Difficulty(target) <= MAX_SAFE_INTEGER
  {
    var limit, difficulty := Decode(target).value.value, Difficulty(target);
    if NonZero(target) {
      ValueOf(target);
      forall v: nat | 0 < v <= limit ensures U64 / v >= difficulty {
        Grow(v, limit, difficulty);
        Fits(U64, v, difficulty);
      }
      assert Meets(Some(0), target);
    } else {
      assert Meets(Some(U64), target) && ValueDifficulty(Some(U64)) == 1;
    }
  }

  /** A hash meets a compact target exactly when it is worth the difficulty of the target. */
  lemma MeetsExactly(target: string, v: nat)
    requires Decode(target).Some? && NonZero(target) && |target| < 16
    ensures Meets(Some(v), target) <==> v * Difficulty(target) <= U64
    ensures Meets(Some(v), target) <==> ValueDifficulty(Some(v)) >= Difficulty(target)
  {
    hide Decode, NonZero;
    ValueOf(target);
    var d := Difficulty(target);
    Fits(U64, d, v);
    if v > 0 {
      Fits(U64, v, d);
      assert v * d == d * v;
    }
  }

  /** A wide target is the highest hash that meets it. */
  lemma WideIs(n: nat, v: nat)
    requires 0 < n <= U64
    ensures Decode(WriteLE(n, 8)).Some? && Difficulty(WriteLE(n, 8)) == U64 / n
    ensures Meets(Some(v), WriteLE(n, 8)) <==> v <= n
  {
    EightBytes();
    ReadBack(WriteLE(n, 8), 0, n, 8);
  }

  lemma WideDecodes(n: nat)
    requires 0 < n <= U64
    ensures Decode(WriteLE(n, 8)) == Some(Decoded(n, U64 / n)) && NonZero(WriteLE(n, 8))
  {
    EightBytes();
    ReadBack(WriteLE(n, 8), 0, n, 8);
  }

  /** Of two targets the one of the lower difficulty lets more hashes pass. */
  lemma HarderIsLess(easy: string, hard: string)
    requires Decode(easy).Some? && Decode(hard).Some? && NonZero(easy) && NonZero(hard)
    requires Difficulty(easy) < Difficulty(hard)
    ensures Decode(easy).value.value >= Decode(hard).value.value
  {
    hide Decode, NonZero;
    ValueOf(easy);
    ValueOf(hard);
    var (e, h) := (Decode(easy).value.value, Decode(hard).value.value);
    if |easy| < 16 {
      Grow(Difficulty(easy), Difficulty(hard), h);
      Commutes(h, Difficulty(hard));
      Commutes(h, Difficulty(easy));
      Fits(U64, Difficulty(easy), h);
    } else if e < h {
      Fits(U64, e, Difficulty(hard));
      Grow(e, h, Difficulty(hard));
      Commutes(e, Difficulty(hard));
    }
  }

  /** Of the compact targets that are at least as hard as a difficulty, its own is the easiest. */
  lemma EasiestTarget(d: nat, other: string)
    requires 1 <= d <= U32 && Decode(other).Some? && NonZero(other) && |other| < 16
    ensures Decode(DifficultyTarget(d)).Some?
    ensures Difficulty(other) >= d ==> Difficulty(other) >= Difficulty(DifficultyTarget(d)) >= d
  {
    hide DifficultyTarget;
    DifficultyTargetReads(d);
    DifficultyRoundTrip(d);
    QuotientBounds(U32, d);
    var compact := ReadLE(Padded(other), 0, 4);
    ReadBelow(Padded(other), 0, 4);
    EasiestQuotient(U32, d, compact);
  }

  lemma EasiestQuotient(u: nat, d: nat, c: nat)
    requires 1 <= d <= u && 1 <= c
    ensures 1 <= u / d && (u / c >= d ==> u / c >= u / (u / d))
  {
    QuotientBounds(u, d);
    if u / c >= d {
      Fits(u, c, d);
      Commutes(d, c);
      Fits(u, d, c);
      Smaller(u, c, u / d);
    }
  }

  lemma Smaller(u: nat, a: nat, b: nat)
    requires 1 <= a <= b
    ensures u / b <= u / a
  {
    var q := u / b;
    Fits(u, b, q);
    Grow(a, b, q);
    Commutes(a, q);
    Commutes(b, q);
    Fits(u, a, q);
  }

  /** A hash of 64 hexadecimal digits has the value that its last eight bytes spell, the lowest one
      first; nothing else has one. */
  lemma HashReads(result: string, n: nat)
    ensures HashValue(result).Some? <==> |result| >= 64 && AllHex(result, 0, 64)
    ensures n <= U64 && HashValue(result).Some? && At(result, 48, WriteLE(n, 8)) ==> HashValue(result) == Some(n)
  {
    EightBytes();
    if n <= U64 && HashValue(result).Some? && At(result, 48, WriteLE(n, 8)) {
      ReadBack(result, 48, n, 8);
    }
  }

  /** A nonce is claimed by the number that the first four bytes spell; nothing is by fewer. */
  lemma ClaimReads(nonce: string, n: nat)
    ensures Claimed(nonce).Some? <==> AllHex(nonce, 0, 8)
    ensures n <= U32 && At(nonce, 0, WriteLE(n, 4)) ==> Claimed(nonce) == Some(n)
  {
    if n <= U32 && At(nonce, 0, WriteLE(n, 4)) {
      assert Pow256(1) == 256 && Pow256(2) == 65536 && Pow256(3) == 16777216 && Pow256(4) == 4294967296;
      ReadBack(nonce, 0, n, 4);
    }
  }

  /** The difficulty is how often the highest hash that meets a target fits into all hashes. */
  lemma ValueOf(target: string)
    requires Decode(target).Some? && NonZero(target)
    ensures var r := Decode(target).value;
            1 <= r.difficulty && 1 <= r.value && r.value * r.difficulty <= U64
    ensures |target| < 16 ==> Difficulty(target) <= U32 && Decode(target).value.value == U64 / Difficulty(target)
    ensures |target| >= 16 ==>
      Decode(target).value.value <= U64 && Difficulty(target) == U64 / Decode(target).value.value
  {
    if |target| >= 16 {
      var value := ReadLE(target, 0, 8);
      WideBelow(target);
      Fits(U64, value, 1);
      Fits(U64, value, U64 / value);
    } else {
      var compact := ReadLE(Padded(target), 0, 4);
      ReadBelow(Padded(target), 0, 4);
      QuotientBounds(U32, compact);
      var difficulty := U32 / compact;
      Fits(U64, difficulty, 1);
      Fits(U64, difficulty, U64 / difficulty);
    }
  }

  lemma WideBelow(target: string)
    requires AllHex(target, 0, 16)
    ensures ReadLE(target, 0, 8) <= U64
  {
    ReadBelow(target, 0, 8);
    EightBytes();
  }

  /** A compact target that is no more difficult lets every hash pass that passes the other. */
  lemma EasierPasses(easy: string, hard: string, v: Option<nat>)
    requires Decode(easy).Some? && Decode(hard).Some? && NonZero(easy) && NonZero(hard)
    requires |easy| < 16 && Difficulty(easy) <= Difficulty(hard) && Meets(v, hard)
    ensures Meets(v, easy)
  {
    hide Decode, NonZero, ReadLE, Padded;
    ValueOf(easy);
    ValueOf(hard);
    var limit := Decode(hard).value.value;
    Grow(Difficulty(easy), Difficulty(hard), limit);
    Fits(U64, Difficulty(easy), limit);
  }
}

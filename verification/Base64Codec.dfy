/** The loops that encode and decode base64 in place. */
module Base64Codec {
  import opened CText
  import opened Base64
  import opened Options

  /** The bits of two bytes together. */
  function Or(a: nat, b: nat): nat
    decreases a + b
  {
    if a == 0 then b else if b == 0 then a
    else 2 * Or(a / 2, b / 2) + if a % 2 == 1 || b % 2 == 1 then 1 else 0
  }

  function Pow2(k: nat): nat {
    if k == 0 then 1 else 2 * Pow2(k - 1)
  }

  /** Bits that do not meet add up. */
  lemma {:induction false} OrAdds(high: nat, k: nat, low: nat)
    requires low < Pow2(k)
    ensures Or(high * Pow2(k), low) == high * Pow2(k) + low
  {
    if k > 0 {
      var a := high * Pow2(k);
      assert a == 2 * (high * Pow2(k - 1));
      OrAdds(high, k - 1, low / 2);
    }
  }

  lemma OrParts(high: nat, low: nat)
    ensures low < 4 ==> Or(high * 4, low) == high * 4 + low
    ensures low < 16 ==> Or(high * 16, low) == high * 16 + low
    ensures low < 64 ==> Or(high * 64, low) == high * 64 + low
  {
    assert Pow2(2) == 4 && Pow2(4) == 16 && Pow2(6) == 64 by {
      assert Pow2(1) == 2 && Pow2(3) == 8 && Pow2(5) == 32;
    }
    if low < 4 { OrAdds(high, 2, low); }
    if low < 16 { OrAdds(high, 4, low); }
    if low < 64 { OrAdds(high, 6, low); }
  }

  method Put(target: array<char>, at: nat, s: string)
    requires |s| == 4 && at + 4 <= target.Length
    modifies target
    ensures target[..] == old(target[..at]) + s + old(target[at + 4..])
  {
    target[at] := s[0];
    target[at + 1] := s[1];
    target[at + 2] := s[2];
    target[at + 3] := s[3];
  }

  /** A target that has the first d characters of a text, and after them is as it was. */
  ghost predicate Begun(now: string, was: string, d: nat, rest: string, text: string) {
    d <= |now| && |now| == |was| && now[..d] + rest == text && now[d..] == was[d..]
  }

  lemma PutMore(now: string, was: string, d: nat, s: string, rest: string, text: string)
    requires Begun(now, was, d, s + rest, text) && d + |s| <= |now|
    ensures Begun(now[..d] + s + now[d + |s|..], was, d + |s|, rest, text)
  {
    var more := now[..d] + s + now[d + |s|..];
    assert more[..d + |s|] == now[..d] + s;
    assert now[..d] + s + rest == now[..d] + (s + rest);
    assert now[d + |s|..] == now[d..][|s|..] == was[d..][|s|..] == was[d + |s|..];
  }

  lemma EncodedMore(b: seq<nat>, i: nat)
    requires Bytes(b) && i + 3 <= |b|
    ensures Encoded(b[i..]) == Quad(b[i], b[i + 1], b[i + 2]) + Encoded(b[i + 3..])
  {
    assert b[i..][3..] == b[i + 3..];
  }

  /** hwloc_encode_to_base64: the text and a NUL behind it, or -1 when there is no room for both. */
  method Encode(src: seq<nat>, target: array<char>, targsize: nat) returns (n: int)
    requires Bytes(src) && targsize <= target.Length
    modifies target
    ensures n == if |Encoded(src)| < targsize then |Encoded(src)| else -1
    ensures n >= 0 ==> target[..n] == Encoded(src) && target[n] == '\0' && target[n + 1..] == old(target[n + 1..])
  {
    hide Encoded, Begun, Quad;
    var i, datalength: nat := 0, 0;
    ghost var was, text := target[..], Encoded(src);
    EncodedLength(src);
    BegunIs(was, text);
    while 2 < |src| - i
      invariant i <= |src| && datalength <= targsize
      invariant Begun(target[..], was, datalength, Encoded(src[i..]), text)
    {
      EncodedMore(src, i);
      if datalength + 4 > targsize {
        Longer(target[..], was, datalength, Encoded(src[i..]), text);
        return -1;
      }
      PutMore(target[..], was, datalength, Quad(src[i], src[i + 1], src[i + 2]), Encoded(src[i + 3..]), text);
      Put(target, datalength, Quad(src[i], src[i + 1], src[i + 2]));
      i, datalength := i + 3, datalength + 4;
    }
    if i != |src| {
      var last := Last(src[i..]);
      Longer(target[..], was, datalength, Encoded(src[i..]), text);
      if datalength + 4 > targsize {
        return -1;
      }
      assert last + [] == last;
      PutMore(target[..], was, datalength, last, "", text);
      Put(target, datalength, last);
      i, datalength := |src|, datalength + 4;
    }
    Longer(target[..], was, datalength, "", text);
    if datalength >= targsize {
      return -1;
    }
    target[datalength] := '\0';
    n := datalength;
  }

  lemma BegunIs(was: string, text: string)
    ensures Begun(was, was, 0, text, text)
  {
    assert was[..0] == "" && "" + text == text;
  }

  lemma Longer(now: string, was: string, d: nat, rest: string, text: string)
    requires Begun(now, was, d, rest, text)
    ensures |text| == d + |rest| && d <= |now| && (rest == "" ==> now[..d] == text && now[d..] == was[d..])
  {
    assert rest == "" ==> now[..d] + rest == now[..d];
  }

  lemma EncodedLength(src: seq<nat>)
    requires Bytes(src)
    ensures src[0..] == src && Encoded([]) == ""
  {
  }

  /** The group for what is left. */
  method Last(rest: seq<nat>) returns (s: string)
    requires Bytes(rest) && 1 <= |rest| <= 2
    ensures s == Encoded(rest) && |s| == 4
  {
    var b1 := if |rest| == 2 then rest[1] else 0;
    hide Char;
    s := [Char(rest[0] / 4), Char(rest[0] % 4 * 16 + b1 / 16)];
    s := s + [if |rest| == 1 then PAD else Char(b1 % 16 * 4)];
    s := s + [PAD];
  }

  // Decoding

  function SizeOf(stored: bool, targsize: nat): Option<nat> {
    if stored then Some(targsize) else None
  }

  /** The target holds the complete bytes, and the bits of the next one. */
  ghost predicate Holds(target: array?<nat>, targsize: nat, a: Acc)
    reads target
  {
    && a.state < 4
    && (target != null ==>
         && |a.out| + (if a.state == 0 then 0 else 1) <= targsize <= target.Length
         && target[..|a.out|] == a.out
         && (a.state != 0 ==> target[|a.out|] == a.partial))
    && (a.state == 1 ==> a.partial % 4 == 0)
    && (a.state == 2 ==> a.partial % 16 == 0)
    && (a.state == 3 ==> a.partial % 64 == 0)
  }

  /** The byte that a digit completes. */
  lemma Joined(a: Acc, v: nat)
    requires v < 64
    ensures a.state == 1 && a.partial % 4 == 0 ==> Or(a.partial, v / 16) == a.partial + v / 16
    ensures a.state == 2 && a.partial % 16 == 0 ==> Or(a.partial, v / 4) == a.partial + v / 4
    ensures a.state == 3 && a.partial % 64 == 0 ==> Or(a.partial, v) == a.partial + v
  {
    OrParts(a.partial / 4, v / 16);
    OrParts(a.partial / 16, v / 4);
    OrParts(a.partial / 64, v);
  }

  /** The switch over the states, when there is a target. */
  method Store(target: array<nat>, targsize: nat, tarindex: nat, state: nat, v: nat, ghost a: Acc) returns (ok: bool)
    requires Holds(target, targsize, a) && a.state == state && |a.out| == tarindex && v < 64
    modifies target
    ensures ok == HasRoom(a, Some(targsize))
    ensures ok ==> Holds(target, targsize, Step(a, v))
  {
    hide Or;
    Joined(a, v);
    if state == 0 || state == 3 {
      if tarindex >= targsize {
        return false;
      }
    } else if tarindex + 1 >= targsize {
      return false;
    }
    ok := true;
    match state {
      case 0 =>
        target[tarindex] := v * 4;
      case 1 =>
        target[tarindex] := Or(target[tarindex], v / 16);
        target[tarindex + 1] := v % 16 * 16;
      case 2 =>
        target[tarindex] := Or(target[tarindex], v / 4);
        target[tarindex + 1] := v % 4 * 64;
      case _ =>
        target[tarindex] := Or(target[tarindex], v);
    }
    assert target[..tarindex] == a.out;
    if state != 0 {
      assert target[..tarindex + 1] == a.out + [target[tarindex]];
    }
  }

  method SkipSpaces(src: string, i: nat) returns (j: nat)
    requires i <= |src|
    ensures i <= j <= |src| && Stripped(src, j) == Stripped(src, i)
    ensures j == |src| || !IsSpace(src[j])
  {
    j := i;
    while j < |src| && IsSpace(src[j])
      invariant i <= j <= |src| && Stripped(src, j) == Stripped(src, i)
    {
      j := j + 1;
    }
  }

  /** What follows the first pad character, and the bits that are left over. */
  method Ends(src: string, i: nat, state: nat, leftOver: bool, ghost a: Acc, ghost size: Option<nat>) returns (ok: bool)
    requires i <= |src| && a.state == state
    requires (state == 2 || state == 3) ==> leftOver == (size.Some? && a.partial != 0)
    ensures ok == Finish(Stripped(src, i), a, size).Some?
  {
    var j := i;
    if state == 0 || state == 1 {
      return false;
    }
    if state == 2 {
      j := SkipSpaces(src, i);
      assert j < |src| ==> Stripped(src, j)[0] == src[j];
      if j == |src| || src[j] != PAD {
        return false;
      }
      j := j + 1;
    } else if state != 3 {
      return false;
    }
    j := SkipSpaces(src, j);
    if j != |src| {
      return false;
    }
    ok := !leftOver;
  }

  lemma DigitNext(src: string, i: nat, a: Acc, size: Option<nat>, v: nat)
    requires i < |src| && !IsSpace(src[i]) && src[i] != PAD && Value(src[i]) == Some(v) && a.state < 4
    ensures Decoded(Stripped(src, i), a, size) == if HasRoom(a, size)
      then Decoded(Stripped(src, i + 1), Step(a, v), size) else None
  {
    hide Value;
    assert Stripped(src, i)[1..] == Stripped(src, i + 1);
    OneStep(Stripped(src, i), a, size, v);
  }

  lemma PadNext(src: string, i: nat, a: Acc, size: Option<nat>)
    requires i < |src| && !IsSpace(src[i]) && a.state < 4
    ensures src[i] == PAD ==> Decoded(Stripped(src, i), a, size) == Finish(Stripped(src, i + 1), a, size)
    ensures src[i] != PAD && Value(src[i]).None? ==> Decoded(Stripped(src, i), a, size) == None
  {
    hide Value;
    assert Stripped(src, i)[1..] == Stripped(src, i + 1);
  }

  lemma SpaceNext(src: string, i: nat)
    requires i < |src| && IsSpace(src[i])
    ensures Stripped(src, i) == Stripped(src, i + 1)
  {
  }

  lemma AtEnd(src: string, a: Acc, size: Option<nat>)
    requires a.state < 4
    ensures Decoded(Stripped(src, |src|), a, size) == if a.state == 0 then Some(a.out) else None
  {
  }

  /** Without a target, only the state and the number of bytes are kept. */
  lemma StepCounts(a: Acc, v: nat)
    requires a.state < 4 && v < 64
    ensures var b := Step(a, v); b.state == (a.state + 1) % 4 && |b.out| == |a.out| + if a.state == 0 then 0 else 1
    ensures a.state == 0 ==> Step(a, v).partial % 4 == 0
    ensures a.state == 1 ==> Step(a, v).partial % 16 == 0
    ensures a.state == 2 ==> Step(a, v).partial % 64 == 0
  {
  }

  /** hwloc_decode_from_base64: the number of bytes, or -1. */
  method Decode(src: string, target: array?<nat>, targsize: nat) returns (n: int)
    requires target != null ==> targsize <= target.Length
    modifies target
    ensures var r := Decoded(Stripped(src, 0), START, SizeOf(target != null, targsize));
            && n == (if r.Some? then |r.value| else -1)
            && (r.Some? && target != null ==> n <= target.Length && target[..n] == r.value)
  {
    hide Decoded, Stripped, Value, Step, Finish, HasRoom;
    var state: nat, tarindex: nat, i: nat := 0, 0, 0;
    ghost var a, size := START, SizeOf(target != null, targsize);
    ghost var result := Decoded(Stripped(src, 0), START, size);
    while i < |src|
      invariant i <= |src| && a.state == state && |a.out| == tarindex && Holds(target, targsize, a)
      invariant Decoded(Stripped(src, i), a, size) == result
    {
      var ch := src[i];
      if IsSpace(ch) {
        SpaceNext(src, i);
        i := i + 1;
        continue;
      }
      PadNext(src, i, a, size);
      if ch == PAD {
        var leftOver := (state == 2 || state == 3) && target != null && target[tarindex] != 0;
        var ok := Ends(src, i + 1, state, leftOver, a, size);
        FinishIs(Stripped(src, i + 1), a, size);
        return if ok then tarindex else -1;
      }
      var v := Value(ch);
      if v.None? {
        return -1;
      }
      DigitNext(src, i, a, size, v.value);
      StepCounts(a, v.value);
      if target != null {
        var ok := Store(target, targsize, tarindex, state, v.value, a);
        if !ok {
          return -1;
        }
      } else {
        RoomWithout(a);
      }
      a := Step(a, v.value);
      tarindex := tarindex + if state == 0 then 0 else 1;
      state := (state + 1) % 4;
      i := i + 1;
    }
    AtEnd(src, a, size);
    n := if state != 0 then -1 else tarindex;
  }

  lemma FinishIs(rest: string, a: Acc, size: Option<nat>)
    ensures Finish(rest, a, size).Some? ==> Finish(rest, a, size) == Some(a.out)
  {
  }

  lemma RoomWithout(a: Acc)
    ensures HasRoom(a, None)
  {
  }
}

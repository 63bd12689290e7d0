/** Packets as text: a kind, the number in base 36, and behind a colon the payload. */
module DatagramText {
  import opened CText
  import opened Datagrams
  import opened Options

  const DATA := '3'
  const ACK := '4'

  function Base36Char(d: nat): (c: char)
    requires d < 36
    ensures DigitValue(c) == d && !IsSpace(c) && c != '-' && c != '+' && c != ':'
  {
    if d < 10 then (('0' as int) + d) as char else (('a' as int) + d - 10) as char
  }

  /** `seq.toString(36)` */
  function Base36(n: nat): (s: string)
    ensures s != ""
  {
    if n < 36 then [Base36Char(n)] else Base36(n / 36) + [Base36Char(n % 36)]
  }

  function Render(p: Packet): string {
    match p
    case Data(number, payload) => [DATA] + Base36(number) + [':'] + payload
    case Ack(number) => [ACK] + Base36(number)
  }

  /** `text.indexOf(":")`, from a position on; the length if there is none. */
  function Colon(s: string, i: nat): (k: nat)
    requires i <= |s|
    ensures i <= k <= |s| && (k < |s| ==> s[k] == ':')
    decreases |s| - i
  {
    if i < |s| && s[i] != ':' then Colon(s, i + 1) else i
  }

  /** What a text stands for, if it is a packet. A number that does not parse, or is negative,
      cannot be one that was sent, and is left out here. */
  function Parse(s: string): Option<Packet> {
    if s == "" then None
    else if s[0] == ACK then
      var n := Scan(s, 1, 36);
      if n.digits == [] || n.negative then None else Some(Ack(Horner(n.digits, 36)))
    else if s[0] != DATA then None
    else
      var k := Colon(s, 0);
      if k == |s| then None
      else
        var n := Scan(s[..k], 1, 36);
        if n.digits == [] || n.negative then None else Some(Data(Horner(n.digits, 36), s[k + 1..]))
  }

  function Base36Digits(n: nat): (ds: seq<nat>)
    ensures |ds| == |Base36(n)| && forall i :: 0 <= i < |ds| ==> ds[i] < 36 && Base36(n)[i] == Base36Char(ds[i])
    ensures Horner(ds, 36) == n
  {
    if n < 36 then
      assert Horner([n][..0], 36) == 0;
      [n]
    else
      var front := Base36Digits(n / 36);
      assert (front + [n % 36])[..|front|] == front;
      front + [n % 36]
  }

  /** parseInt in base 36 reads a number behind one character back. */
  lemma ScanBase36(c: char, n: nat)
    ensures var r := Scan([c] + Base36(n), 1, 36); r.digits != [] && !r.negative && Horner(r.digits, 36) == n
  {
    hide Horner;
    var t, ds := Base36(n), Base36Digits(n);
    var s := [c] + t;
    assert forall k :: 0 <= k < |t| ==> s[1 + k] == t[k];
    TakeExactly(s, 1, t, ds, 36);
    assert s[1] == Base36Char(ds[0]);
    assert Spaces(s, 1) == 1;
  }

  lemma {:induction false} FirstColon(s: string, i: nat, k: nat)
    requires i <= k < |s| && s[k] == ':' && forall m :: i <= m < k ==> s[m] != ':'
    ensures Colon(s, i) == k
    decreases k - i
  {
    if i < k {
      FirstColon(s, i + 1, k);
    }
  }

  /** A packet is read back from its text, whatever its payload. */
  lemma TextRoundTrip(p: Packet)
    ensures Parse(Render(p)) == Some(p)
  {
    hide Scan, Horner, Base36;
    if p.Data? {
      var head := [DATA] + Base36(p.number);
      var s := Render(p);
      var ds := Base36Digits(p.number);
      assert s == head + [':'] + p.payload;
      assert s[..|head|] == head && s[|head| + 1..] == p.payload && s[0] == DATA;
      forall m | 0 <= m < |head| ensures s[m] != ':' {
        assert s[m] == head[m];
        assert m > 0 ==> head[m] == Base36(p.number)[m - 1] == Base36Char(ds[m - 1]);
      }
      FirstColon(s, 0, |head|);
      ScanBase36(DATA, p.number);
    } else {
      ScanBase36(ACK, p.number);
    }
  }
}

/**
 * IPv4 addresses in dotted-quad text, read as Rust's `IpAddr` parser reads
 * them: four decimal octets separated by `.`, each one to three digits,
 * no leading zero, at most 255, and nothing after the last one.
 */
module Address {
  import opened Bytes
  import Decimal

  datatype Ipv4 = Ipv4(a: u8, b: u8, c: u8, d: u8)

  /** Length of the run of ASCII digits that starts `s`. */
  function DigitRun(s: seq<u8>): (n: nat)
    ensures n <= |s| && AllDigits(s[..n]) && (n < |s| ==> !IsDigit(s[n]))
    decreases |s|
  {
    if |s| == 0 || !IsDigit(s[0]) then 0
    else
      var n := 1 + DigitRun(s[1..]);
      assert s[..n] == [s[0]] + s[1..][..n - 1];
      n
  }

  /** One octet at the front of `s`, with what follows it. */
  function ReadOctet(s: seq<u8>): (r: Option<(u8, seq<u8>)>)
    ensures r.Some? ==> s == Decimal.Text(r.value.0 as nat) + r.value.1
    ensures r.Some? ==> r.value.1 == [] || !IsDigit(r.value.1[0])
  {
    var n := DigitRun(s);
    if n == 0 || n > 3 || (n > 1 && s[0] == ZERO) then None
    else
      var v := Decimal.Value(s[..n]);
      if v > 255 then None
      else
        Decimal.CanonicalIsText(s[..n]);
        assert s == s[..n] + s[n..];
        Some((v as u8, s[n..]))
  }

  /** A `.` and then an octet. */
  function ReadDotOctet(s: seq<u8>): (r: Option<(u8, seq<u8>)>)
    ensures r.Some? ==> s == [DOT] + Decimal.Text(r.value.0 as nat) + r.value.1
    ensures r.Some? ==> r.value.1 == [] || !IsDigit(r.value.1[0])
  {
    if |s| == 0 || s[0] != DOT then None
    else
      match ReadOctet(s[1..])
      case None => None
      case Some(o) =>
        assert s == [DOT] + s[1..];
        Some(o)
  }

  /**
   * `IpAddr::from_str` on an IPv4 address. Only canonical text is accepted:
   * what parses is the dotted-quad text of its result.
   */
  function ParseIpv4(s: seq<u8>): (r: Option<Ipv4>)
    ensures r.Some? ==> s == FormatIpv4(r.value)
  {
    var o1 := ReadOctet(s);
    if o1.None? then None else
    var o2 := ReadDotOctet(o1.value.1);
    if o2.None? then None else
    var o3 := ReadDotOctet(o2.value.1);
    if o3.None? then None else
    var o4 := ReadDotOctet(o3.value.1);
    if o4.None? || o4.value.1 != [] then None
    else
      var td := Decimal.Text(o4.value.0 as nat);
      assert o3.value.1 == [DOT] + td + [];
      JoinQuad(s, o1.value.1, o2.value.1, o3.value.1, Decimal.Text(o1.value.0 as nat),
               Decimal.Text(o2.value.0 as nat), Decimal.Text(o3.value.0 as nat), td);
      Some(Ipv4(o1.value.0, o2.value.0, o3.value.0, o4.value.0))
  }

  /** The dotted-quad text of an address. */
  function FormatIpv4(ip: Ipv4): seq<u8> {
    Decimal.Text(ip.a as nat) + [DOT] + Decimal.Text(ip.b as nat) + [DOT]
      + Decimal.Text(ip.c as nat) + [DOT] + Decimal.Text(ip.d as nat)
  }

  lemma DigitRunOfText(t: seq<u8>, rest: seq<u8>)
    requires AllDigits(t)
    requires rest == [] || !IsDigit(rest[0])
    ensures DigitRun(t + rest) == |t|
    decreases |t|
  {
    if |t| > 0 {
      assert (t + rest)[1..] == t[1..] + rest;
      DigitRunOfText(t[1..], rest);
    }
  }

  lemma ReadOctetOfText(v: u8, rest: seq<u8>)
    requires rest == [] || !IsDigit(rest[0])
    ensures ReadOctet(Decimal.Text(v as nat) + rest) == Some((v, rest))
  {
    var t := Decimal.Text(v as nat);
    Decimal.TextIsCanonical(v as nat);
    DigitRunOfText(t, rest);
    assert (t + rest)[..|t|] == t;
    assert (t + rest)[|t|..] == rest;
  }

  lemma ReadDotOctetOfText(v: u8, rest: seq<u8>)
    requires rest == [] || !IsDigit(rest[0])
    ensures ReadDotOctet([DOT] + Decimal.Text(v as nat) + rest) == Some((v, rest))
  {
    var s := [DOT] + Decimal.Text(v as nat) + rest;
    assert s[1..] == Decimal.Text(v as nat) + rest;
    ReadOctetOfText(v, rest);
  }

  /** Parsing the dotted-quad text of an address gives the address back. */
  lemma ParseFormat(ip: Ipv4)
    ensures ParseIpv4(FormatIpv4(ip)) == Some(ip)
  {
    var ta, tb, tc, td := Decimal.Text(ip.a as nat), Decimal.Text(ip.b as nat),
                          Decimal.Text(ip.c as nat), Decimal.Text(ip.d as nat);
    var r3 := [DOT] + td;
    var r2 := [DOT] + tc + r3;
    var r1 := [DOT] + tb + r2;
    assert FormatIpv4(ip) == ta + r1;
    ReadOctetOfText(ip.a, r1);
    ReadDotOctetOfText(ip.b, r2);
    ReadDotOctetOfText(ip.c, r3);
    ReadDotOctetOfText(ip.d, []);
    assert r3 == [DOT] + td + [];
  }

  lemma JoinQuad(s: seq<u8>, r1: seq<u8>, r2: seq<u8>, r3: seq<u8>,
                 ta: seq<u8>, tb: seq<u8>, tc: seq<u8>, td: seq<u8>)
    requires s == ta + r1 && r1 == [DOT] + tb + r2 && r2 == [DOT] + tc + r3 && r3 == [DOT] + td
    ensures s == ta + [DOT] + tb + [DOT] + tc + [DOT] + td
  {
  }

  /** The dotted-quad text is ASCII digits and dots, so it holds no space, quote or line break. */
  lemma FormatIsAscii(ip: Ipv4)
    ensures IsAscii(FormatIpv4(ip)) && SP !in FormatIpv4(ip)
    ensures |FormatIpv4(ip)| > 0 && IsDigit(FormatIpv4(ip)[0])
  {
    Decimal.TextIsCanonical(ip.a as nat);
    Decimal.TextIsCanonical(ip.b as nat);
    Decimal.TextIsCanonical(ip.c as nat);
    Decimal.TextIsCanonical(ip.d as nat);
  }
}

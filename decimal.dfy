/**
 * Unsigned decimal integers as Rust's `str::parse::<u16>()` and
 * `str::parse::<u32>()` read them, and the canonical text of a number.
 */
module Decimal {
  import opened Bytes

  const U16_MAX: nat := 0xFFFF
  const U32_MAX: nat := 0xFFFF_FFFF

  /** The number a string of digits denotes, most significant digit first. */
  function Value(d: seq<u8>): nat
    requires AllDigits(d)
    decreases |d|
  {
    if d == [] then 0 else Value(d[..|d| - 1]) * 10 + DigitValue(d[|d| - 1])
  }

  /** The shortest decimal text of `v`. */
  function Text(v: nat): seq<u8>
    decreases v
  {
    if v < 10 then [Digit(v)] else Text(v / 10) + [Digit(v % 10)]
  }

  /** Appending a digit never makes the value smaller. */
  lemma ValueGrows(d: seq<u8>, x: u8)
    requires AllDigits(d) && IsDigit(x)
    ensures AllDigits(d + [x]) && Value(d + [x]) >= Value(d)
  {
    assert (d + [x])[..|d|] == d;
  }

  /**
   * Rust's digit loop: left to right, failing on the first byte that is
   * not a digit or on the first step whose value would exceed `max`.
   * `acc` is the value of the digits before `i`.
   */
  function Accumulate(d: seq<u8>, i: nat, acc: nat, max: nat): (r: Option<nat>)
    requires i <= |d| && AllDigits(d[..i]) && acc == Value(d[..i]) && acc <= max
    ensures r.Some? <==> AllDigits(d) && Value(d) <= max
    ensures r.Some? ==> r.value == Value(d)
    decreases |d| - i
  {
    if i == |d| then
      assert d[..i] == d;
      Some(acc)
    else if !IsDigit(d[i]) then
      None
    else
      assert d[..i + 1] == d[..i] + [d[i]];
      assert d[..i + 1][..i] == d[..i];
      var next := acc * 10 + DigitValue(d[i]);
      if next > max then
        // every later prefix has at least this value, so the whole text overflows too
        assert !AllDigits(d) || Value(d) > max by {
          if AllDigits(d) {
            ValueOfPrefixes(d, i + 1);
          }
        }
        None
      else
        Accumulate(d, i + 1, next, max)
  }

  /** The value of a digit string is at least that of each of its prefixes. */
  lemma {:induction false} ValueOfPrefixes(d: seq<u8>, k: nat)
    requires AllDigits(d) && k <= |d|
    ensures Value(d[..k]) <= Value(d)
    decreases |d| - k
  {
    if k < |d| {
      assert d[..k + 1] == d[..k] + [d[k]];
      ValueGrows(d[..k], d[k]);
      assert (d[..k] + [d[k]])[..k] == d[..k];
      ValueOfPrefixes(d, k + 1);
    } else {
      assert d[..k] == d;
    }
  }

  /** The digits after Rust's optional leading `+`. */
  function Unsigned(text: seq<u8>): seq<u8> {
    if |text| > 0 && text[0] == PLUS then text[1..] else text
  }

  /**
   * `str::parse` for an unsigned type whose largest value is `max`: an
   * optional `+`, then at least one ASCII digit; `-`, any other byte, an
   * empty text and a value above `max` are errors.
   */
  function ParseUnsigned(text: seq<u8>, max: nat): (r: Option<nat>)
    ensures r.Some? <==> |Unsigned(text)| > 0 && AllDigits(Unsigned(text)) && Value(Unsigned(text)) <= max
    ensures r.Some? ==> r.value == Value(Unsigned(text)) && r.value <= max
  {
    var digits := Unsigned(text);
    if |digits| == 0 then None
    else
      assert digits[..0] == [];
      Accumulate(digits, 0, 0, max)
  }

  /** The canonical text is digits only, without a leading zero, and denotes `v`. */
  lemma {:induction false} TextIsCanonical(v: nat)
    ensures |Text(v)| > 0 && AllDigits(Text(v)) && Value(Text(v)) == v
    ensures |Text(v)| > 1 ==> Text(v)[0] != ZERO
    ensures v < 10 <==> |Text(v)| == 1
    ensures v < 100 ==> |Text(v)| <= 2
    ensures v < 1000 ==> |Text(v)| <= 3
    decreases v
  {
    if v >= 10 {
      TextIsCanonical(v / 10);
      var t := Text(v / 10);
      assert Text(v) == t + [Digit(v % 10)];
      assert Text(v)[..|Text(v)| - 1] == t;
    }
  }

  /** Parsing the canonical text gives the number back, with or without a `+`; a number above `max` is refused. */
  lemma ParseText(v: nat, max: nat)
    ensures ParseUnsigned(Text(v), max) == (if v <= max then Some(v) else None)
    ensures ParseUnsigned([PLUS] + Text(v), max) == (if v <= max then Some(v) else None)
  {
    TextIsCanonical(v);
    assert Unsigned(Text(v)) == Text(v);
    assert Unsigned([PLUS] + Text(v)) == Text(v);
  }

  /** Leading zeros are accepted and change nothing. */
  lemma ParseWithLeadingZeros(z: seq<u8>, v: nat, max: nat)
    requires forall i | 0 <= i < |z| :: z[i] == ZERO
    ensures ParseUnsigned(z + Text(v), max) == (if v <= max then Some(v) else None)
  {
    var t := Text(v);
    TextIsCanonical(v);
    LeadingZeros(z, t);
    var s := z + t;
    assert IsDigit(s[0]);
    assert Unsigned(s) == s;
  }

  lemma {:induction false} LeadingZeros(z: seq<u8>, d: seq<u8>)
    requires forall i | 0 <= i < |z| :: z[i] == ZERO
    requires AllDigits(d)
    ensures AllDigits(z + d) && Value(z + d) == Value(d)
    decreases |d|
  {
    if d == [] {
      assert z + d == z;
      ZerosValue(z);
    } else {
      LeadingZeros(z, d[..|d| - 1]);
      assert (z + d)[..|z + d| - 1] == z + d[..|d| - 1];
    }
  }

  lemma {:induction false} ZerosValue(z: seq<u8>)
    requires forall i | 0 <= i < |z| :: z[i] == ZERO
    ensures AllDigits(z) && Value(z) == 0
    decreases |z|
  {
    if z != [] {
      ZerosValue(z[..|z| - 1]);
    }
  }

  /** A digit string without a leading zero (unless it is the single digit `0`) is the canonical text of its value. */
  lemma {:induction false} CanonicalIsText(t: seq<u8>)
    requires |t| > 0 && AllDigits(t) && (|t| > 1 ==> t[0] != ZERO)
    ensures Text(Value(t)) == t
    decreases |t|
  {
    if |t| > 1 {
      var front := t[..|t| - 1];
      assert front[0] == t[0];
      CanonicalIsText(front);
      NonzeroLeadIsPositive(front);
    }
  }

  lemma {:induction false} NonzeroLeadIsPositive(t: seq<u8>)
    requires |t| > 0 && AllDigits(t) && t[0] != ZERO
    ensures Value(t) >= 1
    decreases |t|
  {
    if |t| > 1 {
      var front := t[..|t| - 1];
      assert front[0] == t[0];
      NonzeroLeadIsPositive(front);
    }
  }
}

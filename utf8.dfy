/**
 * Well-formed UTF-8, the check behind `str::from_utf8`: every field the
 * reader hands out as text must pass it. The shapes are those of the
 * Unicode standard's table of well-formed byte sequences (Table 3-7).
 */
module Utf8 {
  import opened Bytes

  predicate InRange(b: u8, lo: int, hi: int) {
    lo <= b as int <= hi
  }

  predicate IsContinuation(b: u8) {
    InRange(b, 0x80, 0xBF)
  }

  /** Length of the well-formed sequence that starts `s`, or 0 when `s` does not start with one. */
  function LeadLength(s: seq<u8>): (n: nat)
    requires |s| > 0
    ensures n <= 4 && n <= |s|
    ensures n > 0 ==> (s[0] < 128 <==> n == 1)
    ensures n > 0 ==> forall i | 0 <= i < n :: !NeverInText(s[i])
  {
    var b := s[0];
    if b < 0x80 then 1
    else if InRange(b, 0xC2, 0xDF) then
      (if |s| >= 2 && IsContinuation(s[1]) then 2 else 0)
    else if b == 0xE0 then
      (if |s| >= 3 && InRange(s[1], 0xA0, 0xBF) && IsContinuation(s[2]) then 3 else 0)
    else if InRange(b, 0xE1, 0xEC) || InRange(b, 0xEE, 0xEF) then
      (if |s| >= 3 && IsContinuation(s[1]) && IsContinuation(s[2]) then 3 else 0)
    else if b == 0xED then
      (if |s| >= 3 && InRange(s[1], 0x80, 0x9F) && IsContinuation(s[2]) then 3 else 0)
    else if b == 0xF0 then
      (if |s| >= 4 && InRange(s[1], 0x90, 0xBF) && IsContinuation(s[2]) && IsContinuation(s[3]) then 4 else 0)
    else if InRange(b, 0xF1, 0xF3) then
      (if |s| >= 4 && IsContinuation(s[1]) && IsContinuation(s[2]) && IsContinuation(s[3]) then 4 else 0)
    else if b == 0xF4 then
      (if |s| >= 4 && InRange(s[1], 0x80, 0x8F) && IsContinuation(s[2]) && IsContinuation(s[3]) then 4 else 0)
    else 0
  }

  /** The bytes no well-formed sequence holds: `C0`, `C1` and `F5` to `FF`. */
  predicate NeverInText(b: u8) {
    b == 0xC0 || b == 0xC1 || b >= 0xF5
  }

  /** `s` is a concatenation of well-formed sequences; none of them holds a byte that never occurs in text. */
  predicate ValidUtf8(s: seq<u8>)
    ensures ValidUtf8(s) ==> forall i | 0 <= i < |s| :: !NeverInText(s[i])
    decreases |s|
  {
    |s| == 0 || (LeadLength(s) > 0 && ValidUtf8(s[LeadLength(s)..]))
  }

  /** Every ASCII byte string is valid text. */
  lemma {:induction false} AsciiIsValid(s: seq<u8>)
    requires IsAscii(s)
    ensures ValidUtf8(s)
    decreases |s|
  {
    if |s| > 0 {
      assert LeadLength(s) == 1;
      AsciiIsValid(s[1..]);
    }
  }

  /** The sequence at the front of `a` is read the same once `b` is appended. */
  lemma LeadLengthAppend(a: seq<u8>, b: seq<u8>)
    requires |a| > 0 && LeadLength(a) > 0
    ensures LeadLength(a + b) == LeadLength(a)
  {
    var n := LeadLength(a);
    assert (a + b)[..n] == a[..n];
  }

  /** Valid text joined to valid text is valid text. */
  lemma {:induction false} ConcatIsValid(a: seq<u8>, b: seq<u8>)
    requires ValidUtf8(a) && ValidUtf8(b)
    ensures ValidUtf8(a + b)
    decreases |a|
  {
    if |a| > 0 {
      var n := LeadLength(a);
      LeadLengthAppend(a, b);
      ConcatIsValid(a[n..], b);
      assert (a + b)[n..] == a[n..] + b;
    } else {
      assert a + b == b;
    }
  }

  /** A well-formed sequence is never cut: a valid text that contains a byte below 0x80 splits there into two valid texts. */
  lemma {:induction false} SplitAtAscii(s: seq<u8>, k: nat)
    requires ValidUtf8(s) && k < |s| && s[k] < 128
    ensures ValidUtf8(s[..k]) && ValidUtf8(s[k..])
    decreases |s|
  {
    var n := LeadLength(s);
    if k == 0 {
      assert s[..k] == [];
      assert s[k..] == s;
    } else {
      // no continuation byte is below 0x80, so the front sequence ends at or before k
      assert n <= k;
      SplitAtAscii(s[n..], k - n);
      assert s[n..][..k - n] == s[n..k];
      assert s[n..][k - n..] == s[k..];
      assert s[..k][..n] == s[..n];
      LeadLengthPrefix(s, k);
      assert s[..k][n..] == s[n..k];
    }
  }

  lemma LeadLengthPrefix(s: seq<u8>, k: nat)
    requires 0 < k <= |s| && LeadLength(s) > 0 && LeadLength(s) <= k
    ensures LeadLength(s[..k]) == LeadLength(s)
  {
    var n := LeadLength(s);
    assert s[..k][..n] == s[..n];
  }
}

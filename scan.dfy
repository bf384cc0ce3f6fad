/**
 * What the reader's two scanning primitives consume, as functions of the
 * input and the position they start from. A scan reads byte after byte;
 * the position it returns is the one just after its last byte.
 */
module Scan {
  import opened Bytes

  /**
   * `scan_until(b)`: read up to and including the first `b`. `None` means
   * the input ended first (every byte up to the end was consumed).
   */
  function ScanByteEnd(src: seq<u8>, pos: nat, b: u8): (r: Option<nat>)
    requires pos <= |src|
    ensures r.Some? ==> pos < r.value <= |src|
    decreases |src| - pos
  {
    if pos == |src| then None
    else if src[pos] == b then Some(pos + 1)
    else ScanByteEnd(src, pos + 1, b)
  }

  /** A byte scan stops at the first occurrence of its byte, and fails only when there is none. */
  lemma {:induction false} ScanByteFound(src: seq<u8>, pos: nat, b: u8)
    requires pos <= |src|
    ensures var r := ScanByteEnd(src, pos, b);
      && (r.Some? ==> src[r.value - 1] == b && b !in src[pos..r.value - 1])
      && (r.None? ==> b !in src[pos..])
    decreases |src| - pos
  {
    if pos < |src| && src[pos] != b {
      ScanByteFound(src, pos + 1, b);
      var r := ScanByteEnd(src, pos + 1, b);
      if r.Some? {
        assert src[pos..r.value - 1] == [src[pos]] + src[pos + 1..r.value - 1];
      } else {
        assert src[pos..] == [src[pos]] + src[pos + 1..];
      }
    }
  }

  /** How reading the rest of a delimiter ended. */
  datatype Attempt =
    | Matched(end: nat)       // every byte agreed; `end` is just after the last one
    | Mismatched(next: nat)   // a byte disagreed and was consumed; `next` is just after it
    | Exhausted               // the input ended first

  /** The inner loop of `scan_until_slice`: compare `s[j..]` with the bytes from `pos` on, one byte read per delimiter byte. */
  function MatchRest(src: seq<u8>, pos: nat, s: seq<u8>, j: nat): (r: Attempt)
    requires pos <= |src| && j <= |s|
    ensures r.Matched? ==> r.end == pos + |s| - j <= |src|
    ensures r.Mismatched? ==> pos < r.next <= |src| && r.next - pos <= |s| - j
    ensures r.Exhausted? ==> |src| - pos < |s| - j
    decreases |s| - j
  {
    if j == |s| then Matched(pos)
    else if pos == |src| then Exhausted
    else if src[pos] != s[j] then Mismatched(pos + 1)
    else MatchRest(src, pos + 1, s, j + 1)
  }

  /** What an attempt read: all of `s[j..]`; an agreeing part and then a disagreeing byte; or an agreeing part and the end of the input. */
  predicate AttemptRead(src: seq<u8>, pos: nat, s: seq<u8>, j: nat, r: Attempt)
    requires pos <= |src| && j <= |s|
  {
    match r
    case Matched(e) => e == pos + |s| - j <= |src| && src[pos..e] == s[j..]
    case Mismatched(n) =>
      && pos < n <= |src| && n - pos <= |s| - j
      && src[pos..n - 1] == s[j..j + n - 1 - pos] && src[n - 1] != s[j + n - 1 - pos]
    case Exhausted => |src| - pos < |s| - j && src[pos..] == s[j..j + |src| - pos]
  }

  lemma {:induction false} MatchRestRead(src: seq<u8>, pos: nat, s: seq<u8>, j: nat)
    requires pos <= |src| && j <= |s|
    ensures AttemptRead(src, pos, s, j, MatchRest(src, pos, s, j))
    decreases |s| - j
  {
    if j < |s| && pos < |src| && src[pos] == s[j] {
      MatchRestRead(src, pos + 1, s, j + 1);
      match MatchRest(src, pos + 1, s, j + 1) {
        case Matched(e) => MatchedAfterAgreeing(src, pos, s, j, e);
        case Mismatched(n) => MismatchedAfterAgreeing(src, pos, s, j, n);
        case Exhausted => ExhaustedAfterAgreeing(src, pos, s, j);
      }
    } else if j < |s| && pos == |src| {
      assert src[pos..] == [];
    }
  }

  // One agreeing byte in front of what the rest of an attempt read.

  lemma MatchedAfterAgreeing(src: seq<u8>, pos: nat, s: seq<u8>, j: nat, e: nat)
    requires pos < |src| && j < |s| && src[pos] == s[j]
    requires AttemptRead(src, pos + 1, s, j + 1, Matched(e))
    ensures AttemptRead(src, pos, s, j, Matched(e))
  {
    assert src[pos..e] == [src[pos]] + src[pos + 1..e];
    assert s[j..] == [s[j]] + s[j + 1..];
  }

  lemma MismatchedAfterAgreeing(src: seq<u8>, pos: nat, s: seq<u8>, j: nat, n: nat)
    requires pos < |src| && j < |s| && src[pos] == s[j]
    requires AttemptRead(src, pos + 1, s, j + 1, Mismatched(n))
    ensures AttemptRead(src, pos, s, j, Mismatched(n))
  {
    var k := n - 1 - pos;
    assert src[pos..n - 1] == [src[pos]] + src[pos + 1..n - 1];
    assert s[j..j + k] == [s[j]] + s[j + 1..j + k];
  }

  lemma ExhaustedAfterAgreeing(src: seq<u8>, pos: nat, s: seq<u8>, j: nat)
    requires pos < |src| && j < |s| && src[pos] == s[j]
    requires AttemptRead(src, pos + 1, s, j + 1, Exhausted)
    ensures AttemptRead(src, pos, s, j, Exhausted)
  {
    var k := |src| - pos;
    assert src[pos..] == [src[pos]] + src[pos + 1..];
    assert s[j..j + k] == [s[j]] + s[j + 1..j + k];
  }

  /**
   * `scan_until_slice(s)`: find the first byte of `s`, then read the rest
   * of `s` byte by byte; on a mismatch start over from the byte after the
   * one that disagreed, which is never itself taken as a new start.
   */
  function ScanSliceEnd(src: seq<u8>, pos: nat, s: seq<u8>): (r: Option<nat>)
    requires pos <= |src| && |s| > 0
    ensures r.Some? ==> pos + |s| <= r.value <= |src|
    decreases |src| - pos
  {
    match ScanByteEnd(src, pos, s[0])
    case None => None
    case Some(p) =>
      match MatchRest(src, p, s, 1)
      case Matched(e) => Some(e)
      case Exhausted => None
      case Mismatched(next) => ScanSliceEnd(src, next, s)
  }

  /** A delimiter scan that succeeds stops just after an occurrence of the delimiter. */
  lemma {:induction false} ScanSliceFound(src: seq<u8>, pos: nat, s: seq<u8>)
    requires pos <= |src| && |s| > 0 && ScanSliceEnd(src, pos, s).Some?
    ensures var e := ScanSliceEnd(src, pos, s).value; src[e - |s|..e] == s
    decreases |src| - pos
  {
    var p := ScanByteEnd(src, pos, s[0]).value;
    match MatchRest(src, p, s, 1)
    case Matched(e) =>
      ScanByteFound(src, pos, s[0]);
      MatchRestRead(src, p, s, 1);
      assert src[p - 1..e] == [src[p - 1]] + src[p..e];
    case Mismatched(next) =>
      ScanSliceFound(src, next, s);
  }

  /** The steps of a delimiter scan, one unfolding at a time. */
  lemma ScanSliceSteps(src: seq<u8>, pos: nat, s: seq<u8>, p: nat)
    requires pos <= |src| && |s| > 0 && ScanByteEnd(src, pos, s[0]) == Some(p)
    ensures MatchRest(src, p, s, 1).Matched? ==> ScanSliceEnd(src, pos, s) == Some(MatchRest(src, p, s, 1).end)
    ensures MatchRest(src, p, s, 1).Exhausted? ==> ScanSliceEnd(src, pos, s) == None
    ensures MatchRest(src, p, s, 1).Mismatched? ==>
              ScanSliceEnd(src, pos, s) == ScanSliceEnd(src, MatchRest(src, p, s, 1).next, s)
  {
  }

  lemma ScanSliceNoStart(src: seq<u8>, pos: nat, s: seq<u8>)
    requires pos <= |src| && |s| > 0 && ScanByteEnd(src, pos, s[0]) == None
    ensures ScanSliceEnd(src, pos, s) == None
  {
  }

  /** One byte of a delimiter's rest read: it agrees and the comparison goes on, or it ends the attempt. */
  lemma MatchRestByte(src: seq<u8>, pos: nat, s: seq<u8>, j: nat)
    requires pos < |src| && j < |s|
    ensures src[pos] == s[j] ==> MatchRest(src, pos, s, j) == MatchRest(src, pos + 1, s, j + 1)
    ensures src[pos] != s[j] ==> MatchRest(src, pos, s, j) == Mismatched(pos + 1)
  {
  }

  // ---------------------------------------------------------------------
  // Where a scan stops on input laid out as field, delimiter, remainder

  /** A byte scan stops just after the first occurrence of its byte. */
  lemma {:induction false} ScanByteOver(src: seq<u8>, pos: nat, piece: seq<u8>, b: u8, tail: seq<u8>)
    requires pos <= |src| && src[pos..] == piece + [b] + tail && b !in piece
    ensures ScanByteEnd(src, pos, b) == Some(|src| - |tail|)
    decreases |piece|
  {
    assert src[pos] == (piece + [b] + tail)[0];
    if |piece| > 0 {
      assert src[pos + 1..] == piece[1..] + [b] + tail;
      ScanByteOver(src, pos + 1, piece[1..], b, tail);
    }
  }

  /** Reading the rest of a delimiter that is there consumes exactly it. */
  lemma {:induction false} MatchRestOver(src: seq<u8>, pos: nat, s: seq<u8>, j: nat)
    requires j <= |s| && pos + |s| - j <= |src| && src[pos..pos + |s| - j] == s[j..]
    ensures MatchRest(src, pos, s, j) == Matched(pos + |s| - j)
    decreases |s| - j
  {
    if j < |s| {
      assert src[pos] == src[pos..pos + |s| - j][0];
      assert src[pos + 1..pos + |s| - j] == src[pos..pos + |s| - j][1..];
      MatchRestOver(src, pos + 1, s, j + 1);
    }
  }

  /**
   * A delimiter scan stops just after the delimiter that follows a field
   * in which the delimiter's first byte does not occur.
   */
  lemma ScanSliceOver(src: seq<u8>, pos: nat, piece: seq<u8>, s: seq<u8>, tail: seq<u8>)
    requires pos <= |src| && |s| > 0 && src[pos..] == piece + s + tail && s[0] !in piece
    ensures ScanSliceEnd(src, pos, s) == Some(|src| - |tail|)
    ensures src[pos..|src| - |tail| - |s|] == piece && src[|src| - |tail|..] == tail
  {
    var p := pos + |piece| + 1;
    assert src[pos..] == piece + [s[0]] + (s[1..] + tail);
    ScanByteOver(src, pos, piece, s[0], s[1..] + tail);
    assert src[p..p + |s| - 1] == s[1..];
    MatchRestOver(src, p, s, 1);
  }

  /** A byte that cannot start the delimiter is passed over. */
  lemma ScanSliceSkip(src: seq<u8>, pos: nat, s: seq<u8>)
    requires pos < |src| && |s| > 0 && src[pos] != s[0]
    ensures ScanSliceEnd(src, pos, s) == ScanSliceEnd(src, pos + 1, s)
  {
  }

  /** A start of the delimiter followed by a byte that breaks it: both are passed over. */
  lemma ScanSliceRestart(src: seq<u8>, pos: nat, s: seq<u8>)
    requires pos + 1 < |src| && |s| > 1 && src[pos] == s[0] && src[pos + 1] != s[1]
    ensures ScanSliceEnd(src, pos, s) == ScanSliceEnd(src, pos + 2, s)
  {
    assert ScanByteEnd(src, pos, s[0]) == Some(pos + 1);
    MatchRestByte(src, pos + 1, s, 1);
  }

  /** `s` does not occur in `piece`. */
  predicate NoPair(piece: seq<u8>, s: seq<u8>)
    requires |s| == 2
  {
    forall i | 0 <= i < |piece| - 1 :: !(piece[i] == s[0] && piece[i + 1] == s[1])
  }

  /**
   * A two-byte delimiter is found right after a field that does not hold
   * it and does not end with its first byte, even where the field holds
   * the first byte: the naive restart loses nothing then. (A field ending
   * with the first byte is the case `NaiveRestartMisses` shows.)
   */
  lemma {:induction false} ScanPairOver(src: seq<u8>, pos: nat, piece: seq<u8>, s: seq<u8>, tail: seq<u8>)
    requires |s| == 2 && pos <= |src| && src[pos..] == piece + s + tail
    requires NoPair(piece, s) && (piece == [] || piece[|piece| - 1] != s[0])
    ensures ScanSliceEnd(src, pos, s) == Some(|src| - |tail|)
    decreases |piece|
  {
    if piece == [] {
      ScanSliceOver(src, pos, piece, s, tail);
    } else if piece[0] != s[0] {
      assert src[pos] == piece[0];
      assert src[pos + 1..] == piece[1..] + s + tail;
      ScanSliceSkip(src, pos, s);
      ScanPairOver(src, pos + 1, piece[1..], s, tail);
    } else {
      assert src[pos] == piece[0] && src[pos + 1] == piece[1];
      assert src[pos + 2..] == piece[2..] + s + tail;
      ScanSliceRestart(src, pos, s);
      ScanPairOver(src, pos + 2, piece[2..], s, tail);
    }
  }

  /**
   * The restart never re-examines the byte that broke a partial match: in
   * `""` followed by a line break, the search for `"` and a line break
   * takes the first `"` as a start, rejects the second `"`, and runs out
   * of input, although the delimiter occurs at offset 1.
   */
  lemma NaiveRestartMisses()
    ensures var src, s := [QUOTE, QUOTE, NL], [QUOTE, NL];
      src[1..] == s && ScanSliceEnd(src, 0, s) == None
  {
    var src, s := [QUOTE, QUOTE, NL], [QUOTE, NL];
    assert ScanByteEnd(src, 0, QUOTE) == Some(1);
    assert MatchRest(src, 1, s, 1) == Mismatched(2);
    assert ScanByteEnd(src, 2, QUOTE) == None;
  }

  // ---------------------------------------------------------------------
  // A scan reads no further than it must

  /** The result of a scan over the whole input, as seen by a scan over its first `k` bytes. */
  function Cut(r: Option<nat>, k: nat): Option<nat> {
    if r.Some? && r.value <= k then r else None
  }

  function CutAttempt(a: Attempt, k: nat): Attempt {
    match a
    case Matched(e) => if e <= k then a else Exhausted
    case Mismatched(n) => if n <= k then a else Exhausted
    case Exhausted => Exhausted
  }

  lemma {:induction false} ScanBytePrefix(src: seq<u8>, pos: nat, b: u8, k: nat)
    requires pos <= k <= |src|
    ensures ScanByteEnd(src[..k], pos, b) == Cut(ScanByteEnd(src, pos, b), k)
    decreases |src| - pos
  {
    if pos < k && src[pos] != b {
      ScanBytePrefix(src, pos + 1, b, k);
    }
  }

  lemma {:induction false} MatchRestPrefix(src: seq<u8>, pos: nat, s: seq<u8>, j: nat, k: nat)
    requires pos <= k <= |src| && j <= |s|
    ensures MatchRest(src[..k], pos, s, j) == CutAttempt(MatchRest(src, pos, s, j), k)
    decreases |s| - j
  {
    if j < |s| && pos < k && src[pos] == s[j] {
      MatchRestPrefix(src, pos + 1, s, j + 1, k);
    }
  }

  /** A delimiter scan over the first `k` bytes finds what the full scan finds within them, and otherwise runs out. */
  lemma {:induction false} ScanSlicePrefix(src: seq<u8>, pos: nat, s: seq<u8>, k: nat)
    requires pos <= k <= |src| && |s| > 0
    ensures ScanSliceEnd(src[..k], pos, s) == Cut(ScanSliceEnd(src, pos, s), k)
    decreases |src| - pos
  {
    ScanBytePrefix(src, pos, s[0], k);
    var full := ScanByteEnd(src, pos, s[0]);
    if full.Some? && full.value <= k {
      var p := full.value;
      MatchRestPrefix(src, p, s, 1, k);
      var m := MatchRest(src, p, s, 1);
      if m.Mismatched? && m.next <= k {
        ScanSlicePrefix(src, m.next, s, k);
      }
    }
  }
}

/**
 * `LogReader`: a byte source read one byte at a time and a scratch buffer
 * that collects the bytes read since it was last cleared. Records are
 * found by scanning for their delimiters and then cut out of the scratch
 * buffer.
 *
 * The source is the whole input and a cursor into it; reading past the
 * end is `UnexpectedEof`, the only failure the source has here.
 */
module Reader {
  import opened Bytes
  import opened Utf8
  import opened Decimal
  import opened Address
  import opened LogDate
  import opened Scan
  import opened Records

  /** The result of reading from the source. */
  datatype Io<+T> = Got(value: T) | UnexpectedEof

  class LogReader {
    const source: seq<u8>
    var pos: nat             // bytes of `source` consumed so far
    var scratch: seq<u8>
    ghost var mark: nat      // where in `source` the scratch buffer's bytes start

    /** The scratch buffer holds the bytes read since it was last cleared. */
    ghost predicate Valid()
      reads this
    {
      mark <= pos <= |source| && scratch == source[mark..pos]
    }

    /** `LogReader::new`: nothing read, an empty scratch buffer. */
    constructor (source: seq<u8>)
      ensures Valid() && this.source == source && pos == 0 && scratch == []
    {
      this.source := source;
      pos := 0;
      scratch := [];
      mark := 0;
    }

    /** `scratch.clear()` */
    method Clear()
      requires Valid()
      modifies this
      ensures Valid() && pos == old(pos) && scratch == [] && mark == pos
    {
      scratch := [];
      mark := pos;
    }

    /** `read_byte`: take the next byte of the source and append it to the scratch buffer. */
    method ReadByte() returns (r: Io<u8>)
      requires Valid()
      modifies this
      ensures Valid() && mark == old(mark)
      ensures old(pos) < |source| ==> r == Got(source[old(pos)]) && pos == old(pos) + 1
                                      && scratch == old(scratch) + [r.value]
      ensures old(pos) == |source| ==> r == UnexpectedEof && pos == old(pos) && scratch == old(scratch)
    {
      if pos == |source| {
        return UnexpectedEof;
      }
      var b := source[pos];
      pos := pos + 1;
      scratch := scratch + [b];
      return Got(b);
    }

    /**
     * `scan_until(b)`: read up to and including the next `b` and return
     * its index in the scratch buffer. What was in the buffer before stays.
     */
    method ScanUntil(b: u8) returns (r: Io<nat>)
      requires Valid()
      modifies this
      ensures Valid() && mark == old(mark) && old(pos) <= pos
      ensures scratch == old(scratch) + source[old(pos)..pos]
      ensures r.Got? ==> && ScanByteEnd(source, old(pos), b) == Some(pos)
                         && r.value == |scratch| - 1 && scratch[r.value] == b
                         && b !in scratch[|old(scratch)|..r.value]
      ensures r.UnexpectedEof? ==> ScanByteEnd(source, old(pos), b) == None && pos == |source|
    {
      while true
        invariant Valid() && mark == old(mark) && old(pos) <= pos
        invariant ScanByteEnd(source, pos, b) == ScanByteEnd(source, old(pos), b)
        decreases |source| - pos
      {
        var read := ReadByte();
        if read.UnexpectedEof? {
          Appended(source, mark, old(pos), pos, old(scratch), scratch);
          return UnexpectedEof;
        }
        if read == Got(b) {
          Appended(source, mark, old(pos), pos, old(scratch), scratch);
          ScanByteFound(source, old(pos), b);
          assert scratch[|old(scratch)|..|scratch| - 1] == source[old(pos)..pos - 1];
          return Got(|scratch| - 1);
        }
      }
    }

    /**
     * `scan_until_slice(s)`: read until the scratch buffer ends with `s`
     * and return the index where `s` starts. On a mismatch the search
     * starts over with the byte after the one that disagreed.
     */
    method ScanUntilSlice(s: seq<u8>) returns (r: Io<nat>)
      requires Valid() && |s| > 0
      modifies this
      ensures Valid() && mark == old(mark) && old(pos) <= pos
      ensures scratch == old(scratch) + source[old(pos)..pos]
      ensures r.Got? ==> && ScanSliceEnd(source, old(pos), s) == Some(pos)
                         && |old(scratch)| <= r.value == |scratch| - |s| && scratch[r.value..] == s
      ensures r.UnexpectedEof? ==> ScanSliceEnd(source, old(pos), s) == None && pos == |source|
    {
      while true
        invariant Valid() && mark == old(mark) && old(pos) <= pos
        invariant ScanSliceEnd(source, pos, s) == ScanSliceEnd(source, old(pos), s)
        decreases |source| - pos
      {
        ghost var restart := pos;
        var first := ScanUntil(s[0]);
        if first.UnexpectedEof? {
          ScanSliceNoStart(source, restart, s);
          Appended(source, mark, old(pos), pos, old(scratch), scratch);
          return UnexpectedEof;
        }
        ScanSliceSteps(source, restart, s, pos);
        var rest := ReadRest(s);
        if rest.UnexpectedEof? {
          Appended(source, mark, old(pos), pos, old(scratch), scratch);
          return UnexpectedEof;
        }
        if rest == Got(true) {
          Appended(source, mark, old(pos), pos, old(scratch), scratch);
          ScanSliceFound(source, old(pos), s);
          EndsWith(source, mark, pos, scratch, s);
          return Got(|scratch| - |s|);
        }
      }
    }

    /**
     * The inner loop of `scan_until_slice`: read one byte per remaining
     * delimiter byte, stopping at the first that disagrees. `Got(true)`:
     * all agreed; `Got(false)`: one disagreed, and the search starts over.
     */
    method ReadRest(s: seq<u8>) returns (r: Io<bool>)
      requires Valid() && |s| > 0
      modifies this
      ensures Valid() && mark == old(mark) && old(pos) <= pos
      ensures r.UnexpectedEof? ==> pos == |source|
      ensures MatchRest(source, old(pos), s, 1) == (match r
                                                     case Got(true) => Matched(pos)
                                                     case Got(false) => Mismatched(pos)
                                                     case UnexpectedEof => Exhausted)
    {
      for j := 1 to |s|
        invariant Valid() && mark == old(mark) && pos == old(pos) + j - 1 <= |source|
        invariant MatchRest(source, pos, s, j) == MatchRest(source, old(pos), s, 1)
      {
        ghost var before := pos;
        var read := ReadByte();
        if read.UnexpectedEof? {
          return UnexpectedEof;
        }
        MatchRestByte(source, before, s, j);
        if read != Got(s[j]) {
          return Got(false);
        }
      }
      return Got(true);
    }

    /**
     * `&scratch[a..b]`: the bytes the scratch buffer holds at `a..b`,
     * which are those of the source at `from..to`.
     */
    method Text(a: nat, b: nat, ghost from: nat, ghost to: nat) returns (t: seq<u8>)
      requires Valid() && a <= b <= |scratch| && from == mark + a && to == mark + b
      ensures t == Field(source, from, to)
    {
      t := scratch[a..b];
      Window(source, mark, pos, scratch, a, b);
    }

    /**
     * The entry put together from the scratch buffer, which holds the
     * source from `e3` on: the request line at `0..requestEnd`, the
     * referrer at `referrerStart..referrerEnd` and the user agent at
     * `agentStart..agentEnd`, which end at `e4`, `e7` and `e8` with their
     * delimiters.
     */
    method Entry(requestEnd: nat, referrerStart: nat, referrerEnd: nat, agentStart: nat, agentEnd: nat,
                 ghost e3: nat, ghost e4: nat, ghost e6: nat, ghost e7: nat, ghost e8: nat,
                 requestor: Ipv4, time: DateTime, status: nat, bytesSent: nat) returns (r: ReadOutcome)
      requires Valid() && e3 == mark && e4 == e3 + requestEnd + |REQUEST_END| <= e6
      requires e6 + |REFERRER_END| <= e7 && e7 + |AGENT_END| <= e8 <= |source|
      requires e6 == e3 + referrerStart && e7 - |REFERRER_END| == e3 + referrerEnd
      requires e7 == e3 + agentStart && e8 - |AGENT_END| == e3 + agentEnd && agentEnd <= |scratch|
      ensures Done(Step(r, e8, e3)) == Line(source, e3, e4, e6, e7, e8, requestor, time, status, bytesSent)
    {
      var request := Text(0, requestEnd, e3, e4 - |REQUEST_END|);
      var referrer := Text(referrerStart, referrerEnd, e6, e7 - |REFERRER_END|);
      var userAgent := Text(agentStart, agentEnd, e7, e8 - |AGENT_END|);
      r := Finish(request, requestor, time, status, bytesSent, referrer, userAgent);
      LineOf(source, e3, e4, e6, e7, e8, requestor, time, status, bytesSent, request, referrer, userAgent);
    }

    /**
     * `read_one`: the next record, the clean end of the stream, or an
     * error; lone line breaks are skipped. The fields are copies of the
     * scratch buffer's bytes.
     */
    method ReadOne() returns (r: ReadOutcome)
      requires Valid()
      modifies this
      ensures Valid()
      ensures ReadOneSpec(source, old(pos)) == Step(r, pos, mark)
    {
      while true
        invariant Valid() && old(pos) <= pos
        invariant SkipBlank(source, old(pos)) == SkipBlank(source, pos)
        decreases |source| - pos
      {
        Clear();
        var first := ReadByte();
        if first.UnexpectedEof? {
          return EndOfStream;
        }
        if first.value != NL {
          r := ReadRecord();
          return;
        }
      }
    }

    /** The requestor, up to ` - `, once the record's first byte is in the scratch buffer. */
    method ReadRecord() returns (r: ReadOutcome)
      requires Valid() && pos == mark + 1
      modifies this
      ensures Valid()
      ensures Run(source, AtRequestor(old(mark))) == Step(r, pos, mark)
    {
      ghost var ph := AtRequestor(mark);
      var requestorEnd := ScanUntilSlice(REQUESTOR_END);
      if requestorEnd.UnexpectedEof? {
        RequestorMissing(source, mark);
        RunDone(source, ph, Truncated(source, mark));
        return Failed(StreamTruncated);
      }
      ghost var e1 := pos;
      assert ScanSliceEnd(source, mark + 1, REQUESTOR_END) == Some(e1);
      var requestorText := Text(0, requestorEnd.value, mark, e1 - |REQUESTOR_END|);
      RequestorRead(source, mark, e1, requestorText);
      if !ValidUtf8(requestorText) {
        RunDone(source, ph, Step(Failed(InvalidText), pos, mark));
        return Failed(InvalidText);
      }
      var requestor := ParseIpv4(requestorText);
      if requestor.None? {
        RunDone(source, ph, Step(Failed(InvalidAddress), pos, mark));
        return Failed(InvalidAddress);
      }
      RunContinue(source, ph, AtTimestamp(mark, pos, requestor.value));
      r := ReadTimestamp(requestor.value);
    }

    /** Skip to `[`, clear the scratch buffer and read the timestamp up to `] "`. */
    method ReadTimestamp(requestor: Ipv4) returns (r: ReadOutcome)
      requires Valid()
      modifies this
      ensures Valid()
      ensures Run(source, AtTimestamp(old(mark), old(pos), requestor)) == Step(r, pos, mark)
    {
      ghost var start, e1 := mark, pos;
      ghost var ph := AtTimestamp(start, e1, requestor);
      var bracket := ScanUntil(LBRACKET);
      if bracket.UnexpectedEof? {
        BracketMissing(source, start, e1, requestor);
        RunDone(source, ph, Truncated(source, start));
        return Failed(StreamTruncated);
      }
      ghost var e2 := pos;
      assert ScanByteEnd(source, e1, LBRACKET) == Some(e2);
      Clear();
      var timeEnd := ScanUntilSlice(TIME_END);
      if timeEnd.UnexpectedEof? {
        TimestampMissing(source, start, e1, requestor, e2);
        RunDone(source, ph, Truncated(source, e2));
        return Failed(StreamTruncated);
      }
      ghost var e3 := pos;
      assert ScanSliceEnd(source, e2, TIME_END) == Some(e3);
      var timeText := Text(0, timeEnd.value, e2, e3 - |TIME_END|);
      TimestampRead(source, start, e1, requestor, e2, e3, timeText);
      var time := ParseLogDate(timeText);
      if !time.Ok? {
        RunDone(source, ph, Step(Aborted, pos, mark));
        return Aborted;
      }
      RunContinue(source, ph, AtRequest(pos, requestor, time.value));
      Clear();
      r := ReadRequest(requestor, time.value);
    }

    /** The request line up to `" ` and the status up to the next space. */
    method ReadRequest(requestor: Ipv4, time: DateTime) returns (r: ReadOutcome)
      requires Valid() && mark == pos
      modifies this
      ensures Valid()
      ensures Run(source, AtRequest(old(pos), requestor, time)) == Step(r, pos, mark)
    {
      ghost var e3 := pos;
      ghost var ph := AtRequest(e3, requestor, time);
      var requestEnd := ScanUntilSlice(REQUEST_END);
      if requestEnd.UnexpectedEof? {
        RequestMissing(source, e3, requestor, time);
        RunDone(source, ph, Truncated(source, e3));
        return Failed(StreamTruncated);
      }
      ghost var e4 := pos;
      assert ScanSliceEnd(source, e3, REQUEST_END) == Some(e4);
      var statusStart := |scratch|;
      var statusEnd := ScanUntil(SP);
      if statusEnd.UnexpectedEof? {
        StatusMissing(source, e3, e4, requestor, time);
        RunDone(source, ph, Truncated(source, e3));
        return Failed(StreamTruncated);
      }
      ghost var e5 := pos;
      assert ScanByteEnd(source, e4, SP) == Some(e5);
      var statusText := Text(statusStart, statusEnd.value, e4, e5 - 1);
      StatusRead(source, e3, e4, e5, requestor, time, statusText);
      if !ValidUtf8(statusText) {
        RunDone(source, ph, Step(Failed(InvalidText), pos, e3));
        return Failed(InvalidText);
      }
      var status := ParseUnsigned(statusText, U16_MAX);
      if status.None? {
        RunDone(source, ph, Step(Failed(InvalidInteger), pos, e3));
        return Failed(InvalidInteger);
      }
      RunContinue(source, ph, AtBytes(e3, e4, pos, requestor, time, status.value));
      assert mark + requestEnd.value + |REQUEST_END| == e4;
      r := ReadBytes(requestEnd.value, e4, requestor, time, status.value);
    }

    /**
     * The byte count up to ` "`; the scratch buffer's first `requestEnd`
     * bytes are the request line.
     */
    method ReadBytes(requestEnd: nat, ghost e4: nat, requestor: Ipv4, time: DateTime, status: nat)
      returns (r: ReadOutcome)
      requires Valid() && e4 == mark + requestEnd + |REQUEST_END| <= pos
      modifies this
      ensures Valid()
      ensures Run(source, AtBytes(old(mark), e4, old(pos), requestor, time, status)) == Step(r, pos, mark)
    {
      ghost var e3, e5 := mark, pos;
      ghost var ph := AtBytes(e3, e4, e5, requestor, time, status);
      var bytesStart := |scratch|;
      var bytesEnd := ScanUntilSlice(BYTES_END);
      if bytesEnd.UnexpectedEof? {
        BytesMissing(source, e3, e4, e5, requestor, time, status);
        RunDone(source, ph, Truncated(source, e3));
        return Failed(StreamTruncated);
      }
      ghost var e6 := pos;
      assert ScanSliceEnd(source, e5, BYTES_END) == Some(e6);
      var bytesText := Text(bytesStart, bytesEnd.value, e5, e6 - |BYTES_END|);
      BytesRead(source, e3, e4, e5, requestor, time, status, e6, bytesText);
      if !ValidUtf8(bytesText) {
        RunDone(source, ph, Step(Failed(InvalidText), pos, e3));
        return Failed(InvalidText);
      }
      var bytesSent := ParseUnsigned(bytesText, U32_MAX);
      if bytesSent.None? {
        RunDone(source, ph, Step(Failed(InvalidInteger), pos, e3));
        return Failed(InvalidInteger);
      }
      RunContinue(source, ph, AtReferrer(e3, e4, pos, requestor, time, status, bytesSent.value));
      r := ReadLineEnd(requestEnd, e4, requestor, time, status, bytesSent.value);
    }

    /**
     * The referrer up to `" "` and the user agent up to `"` and a line
     * break; then the entry is put together from the scratch buffer.
     */
    method ReadLineEnd(requestEnd: nat, ghost e4: nat, requestor: Ipv4, time: DateTime, status: nat, bytesSent: nat)
      returns (r: ReadOutcome)
      requires Valid() && e4 == mark + requestEnd + |REQUEST_END| <= pos
      modifies this
      ensures Valid()
      ensures Run(source, AtReferrer(old(mark), e4, old(pos), requestor, time, status, bytesSent)) == Step(r, pos, mark)
    {
      ghost var e3, e6 := mark, pos;
      ghost var ph := AtReferrer(e3, e4, e6, requestor, time, status, bytesSent);
      var referrerStart := |scratch|;
      var referrerEnd := ScanUntilSlice(REFERRER_END);
      if referrerEnd.UnexpectedEof? {
        ReferrerMissing(source, e3, e4, e6, requestor, time, status, bytesSent);
        RunDone(source, ph, Truncated(source, e3));
        return Failed(StreamTruncated);
      }
      ghost var e7 := pos;
      var agentStart := |scratch|;
      var agentEnd := ScanUntilSlice(AGENT_END);
      if agentEnd.UnexpectedEof? {
        AgentMissing(source, e3, e4, e6, requestor, time, status, bytesSent, e7);
        RunDone(source, ph, Truncated(source, e3));
        return Failed(StreamTruncated);
      }
      ghost var e8 := pos;
      assert ScanSliceEnd(source, e6, REFERRER_END) == Some(e7) && ScanSliceEnd(source, e7, AGENT_END) == Some(e8);
      r := Entry(requestEnd, referrerStart, referrerEnd.value, agentStart, agentEnd.value,
                 e3, e4, e6, e7, e8, requestor, time, status, bytesSent);
      LineRead(source, e3, e4, e6, requestor, time, status, bytesSent, e7, e8);
    }
  }

  /** The bytes at `a..b` of a scratch buffer holding `source[mark..pos]`. */
  lemma Window(source: seq<u8>, mark: nat, pos: nat, window: seq<u8>, a: nat, b: nat)
    requires mark <= pos <= |source| && window == source[mark..pos] && a <= b <= |window|
    ensures window[a..b] == Field(source, mark + a, mark + b)
  {
    FieldIsSlice(source, mark + a, mark + b);
    forall k | 0 <= k < b - a
      ensures window[a..b][k] == source[mark + a..mark + b][k]
    {
      assert window[a..b][k] == window[a + k] == source[mark + a + k];
    }
  }

  /** A scratch buffer whose start did not move only had bytes appended. */
  lemma Appended(source: seq<u8>, mark: nat, before: nat, after: nat, prior: seq<u8>, now: seq<u8>)
    requires mark <= before <= after <= |source|
    requires prior == source[mark..before] && now == source[mark..after]
    ensures now == prior + source[before..after]
  {
  }

  lemma EndsWith(source: seq<u8>, mark: nat, pos: nat, window: seq<u8>, s: seq<u8>)
    requires mark + |s| <= pos <= |source| && window == source[mark..pos] && source[pos - |s|..pos] == s
    ensures window[|window| - |s|..] == s
  {
  }
}

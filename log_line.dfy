/**
 * A combined-format line as the web server writes it, and what reading it
 * gives: every delimiter the reader scans for is found right where the
 * writer put it, so the fields come back as they were written.
 */
module LogLine {
  import opened Bytes
  import opened Utf8
  import opened Decimal
  import opened Address
  import opened LogDate
  import opened Scan
  import opened Records

  /**
   * The fields of one line: `identity` is everything between the
   * requestor's ` - ` and the `[` of the timestamp (the identity and user
   * columns, which the reader skips).
   */
  datatype Written = Written(requestor: Ipv4, identity: seq<u8>, time: DateTime, request: seq<u8>,
                             status: nat, bytesSent: nat, referrer: seq<u8>, userAgent: seq<u8>)

  // The line followed by `rest`, from each delimiter the reader scans for on, last to first.

  function AfterReferrer(w: Written, rest: seq<u8>): seq<u8> {
    w.userAgent + AGENT_END + rest
  }

  function AfterBytes(w: Written, rest: seq<u8>): seq<u8> {
    w.referrer + REFERRER_END + AfterReferrer(w, rest)
  }

  function AfterStatus(w: Written, rest: seq<u8>): seq<u8> {
    Text(w.bytesSent) + BYTES_END + AfterBytes(w, rest)
  }

  function AfterRequest(w: Written, rest: seq<u8>): seq<u8> {
    Text(w.status) + [SP] + AfterStatus(w, rest)
  }

  function AfterTime(w: Written, rest: seq<u8>): seq<u8> {
    w.request + REQUEST_END + AfterRequest(w, rest)
  }

  function AfterBracket(w: Written, rest: seq<u8>): seq<u8>
    requires 1 <= w.time.month <= 12
  {
    FormatLogDate(w.time) + TIME_END + AfterTime(w, rest)
  }

  function AfterRequestor(w: Written, rest: seq<u8>): seq<u8>
    requires 1 <= w.time.month <= 12
  {
    w.identity + [LBRACKET] + AfterBracket(w, rest)
  }

  /**
   * `ADDR - IDENT [TIMESTAMP] "REQUEST" STATUS BYTES "REFERRER" "AGENT"`
   * and a line break, followed by `rest`.
   */
  function WriteLine(w: Written, rest: seq<u8>): seq<u8>
    requires 1 <= w.time.month <= 12
  {
    FormatIpv4(w.requestor) + REQUESTOR_END + AfterRequestor(w, rest)
  }

  lemma Extend(a: seq<u8>, b: seq<u8>, x: seq<u8>, y: seq<u8>, r: seq<u8>)
    requires x == y + r
    ensures a + b + x == (a + b + y) + r
  {
  }

  /** What follows a written line is appended to it unchanged. */
  lemma WriteLineAppends(w: Written, rest: seq<u8>)
    requires 1 <= w.time.month <= 12
    ensures WriteLine(w, rest) == WriteLine(w, []) + rest
  {
    Extend(w.userAgent, AGENT_END, rest, [], rest);
    Extend(w.referrer, REFERRER_END, AfterReferrer(w, rest), AfterReferrer(w, []), rest);
    Extend(Text(w.bytesSent), BYTES_END, AfterBytes(w, rest), AfterBytes(w, []), rest);
    Extend(Text(w.status), [SP], AfterStatus(w, rest), AfterStatus(w, []), rest);
    Extend(w.request, REQUEST_END, AfterRequest(w, rest), AfterRequest(w, []), rest);
    Extend(FormatLogDate(w.time), TIME_END, AfterTime(w, rest), AfterTime(w, []), rest);
    Extend(w.identity, [LBRACKET], AfterBracket(w, rest), AfterBracket(w, []), rest);
    Extend(FormatIpv4(w.requestor), REQUESTOR_END, AfterRequestor(w, rest), AfterRequestor(w, []), rest);
  }

  /**
   * A line whose fields do not hide the delimiters the reader scans for:
   * no `[` before the timestamp, no `"` inside the quoted fields, and a
   * timestamp, status and byte count the reader can represent.
   */
  predicate Readable(w: Written) {
    && LBRACKET !in w.identity
    && LogDate.Valid(w.time)
    && QUOTE !in w.request && QUOTE !in w.referrer && QUOTE !in w.userAgent
    && w.status <= U16_MAX && w.bytesSent <= U32_MAX
  }

  // ---------------------------------------------------------------------
  // The checks each stage makes on the text it cut out, on written text

  lemma RequestorOfText(ip: Ipv4, start: nat, e1: nat)
    ensures Requestor(FormatIpv4(ip), start, e1) == Continue(AtTimestamp(start, e1, ip))
  {
    FormatIsAscii(ip);
    AsciiIsValid(FormatIpv4(ip));
    Address.ParseFormat(ip);
  }

  lemma TimestampOfText(t: DateTime, e2: nat, e3: nat, ip: Ipv4)
    requires LogDate.Valid(t)
    ensures Timestamp(FormatLogDate(t), e2, e3, ip) == Continue(AtRequest(e3, ip, t))
  {
    LogDate.ParseFormat(t);
  }

  lemma StatusOfText(n: nat, e3: nat, e4: nat, e5: nat, ip: Ipv4, time: DateTime)
    requires n <= U16_MAX
    ensures Status(Text(n), e3, e4, e5, ip, time) == Continue(AtBytes(e3, e4, e5, ip, time, n))
  {
    TextIsCanonical(n);
    AsciiIsValid(Text(n));
    ParseText(n, U16_MAX);
  }

  lemma CountOfText(n: nat, e3: nat, e4: nat, e6: nat, ip: Ipv4, time: DateTime, status: nat)
    requires n <= U32_MAX
    ensures ByteCount(Text(n), e3, e4, e6, ip, time, status) == Continue(AtReferrer(e3, e4, e6, ip, time, status, n))
  {
    TextIsCanonical(n);
    AsciiIsValid(Text(n));
    ParseText(n, U32_MAX);
  }

  // ---------------------------------------------------------------------
  // Which stage function each phase runs

  lemma StageRequestor(src: seq<u8>, p: nat)
    requires p < |src|
    ensures Stage(src, AtRequestor(p)) == RequestorStage(src, p)
  {
  }

  lemma StageTimestamp(src: seq<u8>, start: nat, p: nat, ip: Ipv4)
    requires start <= p <= |src|
    ensures Stage(src, AtTimestamp(start, p, ip)) == TimestampStage(src, start, p, ip)
  {
  }

  lemma StageRequest(src: seq<u8>, e3: nat, ip: Ipv4, time: DateTime)
    requires e3 <= |src|
    ensures Stage(src, AtRequest(e3, ip, time)) == RequestStage(src, e3, ip, time)
  {
  }

  lemma StageBytes(src: seq<u8>, e3: nat, e4: nat, e5: nat, ip: Ipv4, time: DateTime, status: nat)
    requires e3 + |REQUEST_END| <= e4 <= e5 <= |src|
    ensures Stage(src, AtBytes(e3, e4, e5, ip, time, status)) == BytesStage(src, e3, e4, e5, ip, time, status)
  {
  }

  /** The entry is made from the texts the last three scans cut out. */
  lemma LineOfTexts(src: seq<u8>, e3: nat, e4: nat, e6: nat, e7: nat, e8: nat, ip: Ipv4, time: DateTime,
                    status: nat, bytesSent: nat, request: seq<u8>, referrer: seq<u8>, userAgent: seq<u8>)
    requires e3 + |REQUEST_END| <= e4 <= e6 && e6 + |REFERRER_END| <= e7 && e7 + |AGENT_END| <= e8 <= |src|
    requires Field(src, e3, e4 - |REQUEST_END|) == request && Field(src, e6, e7 - |REFERRER_END|) == referrer
    requires Field(src, e7, e8 - |AGENT_END|) == userAgent
    ensures Line(src, e3, e4, e6, e7, e8, ip, time, status, bytesSent).step
              == Step(Finish(request, ip, time, status, bytesSent, referrer, userAgent), e8, e3)
  {
  }

  // ---------------------------------------------------------------------
  // Each stage on the scans that found its delimiters

  lemma RequestorStep(src: seq<u8>, p: nat, e1: nat, ip: Ipv4)
    requires p < |src| && ScanSliceEnd(src, p + 1, REQUESTOR_END) == Some(e1)
    requires Field(src, p, e1 - |REQUESTOR_END|) == FormatIpv4(ip)
    ensures Stage(src, AtRequestor(p)) == Continue(AtTimestamp(p, e1, ip))
  {
    RequestorRead(src, p, e1, FormatIpv4(ip));
    RequestorOfText(ip, p, e1);
    StageRequestor(src, p);
  }

  lemma TimestampStep(src: seq<u8>, start: nat, e1: nat, e2: nat, e3: nat, ip: Ipv4, t: DateTime)
    requires LogDate.Valid(t) && start <= e1 <= |src| && ScanByteEnd(src, e1, LBRACKET) == Some(e2)
    requires ScanSliceEnd(src, e2, TIME_END) == Some(e3) && Field(src, e2, e3 - |TIME_END|) == FormatLogDate(t)
    ensures Stage(src, AtTimestamp(start, e1, ip)) == Continue(AtRequest(e3, ip, t))
  {
    TimestampRead(src, start, e1, ip, e2, e3, FormatLogDate(t));
    TimestampOfText(t, e2, e3, ip);
    StageTimestamp(src, start, e1, ip);
  }

  lemma StatusStep(src: seq<u8>, e3: nat, e4: nat, e5: nat, ip: Ipv4, time: DateTime, n: nat)
    requires n <= U16_MAX && e3 <= |src| && ScanSliceEnd(src, e3, REQUEST_END) == Some(e4)
    requires ScanByteEnd(src, e4, SP) == Some(e5) && Field(src, e4, e5 - 1) == Text(n)
    ensures Stage(src, AtRequest(e3, ip, time)) == Continue(AtBytes(e3, e4, e5, ip, time, n))
  {
    StatusRead(src, e3, e4, e5, ip, time, Text(n));
    StatusOfText(n, e3, e4, e5, ip, time);
    StageRequest(src, e3, ip, time);
  }

  lemma ByteCountStep(src: seq<u8>, e3: nat, e4: nat, e5: nat, e6: nat, ip: Ipv4, time: DateTime, status: nat, n: nat)
    requires n <= U32_MAX && e3 + |REQUEST_END| <= e4 <= e5 <= |src|
    requires ScanSliceEnd(src, e5, BYTES_END) == Some(e6) && Field(src, e5, e6 - |BYTES_END|) == Text(n)
    ensures Stage(src, AtBytes(e3, e4, e5, ip, time, status)) == Continue(AtReferrer(e3, e4, e6, ip, time, status, n))
  {
    BytesRead(src, e3, e4, e5, ip, time, status, e6, Text(n));
    CountOfText(n, e3, e4, e6, ip, time, status);
    StageBytes(src, e3, e4, e5, ip, time, status);
  }

  /** The last two scans found their delimiters and cut out these texts: the entry is made of them. */
  lemma Finished(src: seq<u8>, e3: nat, e4: nat, e6: nat, e7: nat, e8: nat, ip: Ipv4, time: DateTime, status: nat,
                 bytesSent: nat, request: seq<u8>, referrer: seq<u8>, userAgent: seq<u8>)
    requires e3 + |REQUEST_END| <= e4 <= e6 <= |src|
    requires ScanSliceEnd(src, e6, REFERRER_END) == Some(e7) && ScanSliceEnd(src, e7, AGENT_END) == Some(e8)
    requires Field(src, e3, e4 - |REQUEST_END|) == request && Field(src, e6, e7 - |REFERRER_END|) == referrer
    requires Field(src, e7, e8 - |AGENT_END|) == userAgent
    ensures Run(src, AtReferrer(e3, e4, e6, ip, time, status, bytesSent))
              == Step(Finish(request, ip, time, status, bytesSent, referrer, userAgent), e8, e3)
  {
    LineRead(src, e3, e4, e6, ip, time, status, bytesSent, e7, e8);
    LineOfTexts(src, e3, e4, e6, e7, e8, ip, time, status, bytesSent, request, referrer, userAgent);
  }

  // ---------------------------------------------------------------------
  // Where each scan stops on a written line

  /** A scan for `s` over a field that does not hold `s[0]` ends right after it and cuts out the field. */
  lemma CutOut(src: seq<u8>, pos: nat, piece: seq<u8>, s: seq<u8>, tail: seq<u8>, end: nat)
    requires pos <= |src| && |s| > 0 && src[pos..] == piece + s + tail && s[0] !in piece
    requires end == pos + |piece| + |s|
    ensures end <= |src| && src[end..] == tail
    ensures ScanSliceEnd(src, pos, s) == Some(end) && Field(src, pos, end - |s|) == piece
  {
    ScanSliceOver(src, pos, piece, s, tail);
    FieldIsSlice(src, pos, end - |s|);
  }


  /** The same for a scan for one byte. */
  lemma CutOutByte(src: seq<u8>, pos: nat, piece: seq<u8>, b: u8, tail: seq<u8>, end: nat)
    requires pos <= |src| && src[pos..] == piece + [b] + tail && b !in piece && end == pos + |piece| + 1
    ensures end <= |src| && src[end..] == tail
    ensures ScanByteEnd(src, pos, b) == Some(end) && Field(src, pos, end - 1) == piece
  {
    ScanByteOver(src, pos, piece, b, tail);
    FieldIsSlice(src, pos, end - 1);
    assert src[pos..end - 1] == (piece + [b] + tail)[..|piece|];
  }


  /** The text at the front of what follows `pos` is cut out by `Field`. */
  lemma FrontField(src: seq<u8>, pos: nat, piece: seq<u8>, s: seq<u8>, tail: seq<u8>, end: nat)
    requires pos <= |src| && src[pos..] == piece + s + tail && end == pos + |piece|
    ensures end <= |src| && Field(src, pos, end) == piece
  {
    FieldIsSlice(src, pos, end);
    assert src[pos..end] == (piece + s + tail)[..|piece|];
  }



  /** After the first byte of a text: the rest of the text, without that byte. */
  lemma AfterFirst(src: seq<u8>, pos: nat, piece: seq<u8>, s: seq<u8>, tail: seq<u8>)
    requires |piece| > 0 && |s| > 0 && s[0] !in piece && pos <= |src| && src[pos..] == piece + s + tail
    ensures pos < |src| && src[pos] == piece[0] && src[pos + 1..] == piece[1..] + s + tail && s[0] !in piece[1..]
  {
    assert src[pos] == (piece + s + tail)[0];
    assert src[pos + 1..] == (piece + s + tail)[1..] == piece[1..] + s + tail;
    forall i | 0 <= i < |piece| - 1
      ensures piece[1..][i] != s[0]
    {
      assert piece[1..][i] == piece[i + 1];
    }
  }

  /** A line that does not open with a line break starts a record right away. */
  lemma StartsRecord(src: seq<u8>, p: nat, text: seq<u8>, s: seq<u8>, tail: seq<u8>)
    requires |text| > 0 && text[0] != NL && p <= |src| && src[p..] == text + s + tail
    ensures p < |src| && ReadOneSpec(src, p) == Run(src, AtRequestor(p))
  {
    assert src[p] == (text + s + tail)[0];
  }

  lemma RequestorScans(src: seq<u8>, p: nat, ipt: seq<u8>, tail: seq<u8>, e1: nat)
    requires |ipt| > 0 && ipt[0] != NL && SP !in ipt
    requires p <= |src| && src[p..] == ipt + REQUESTOR_END + tail && e1 == p + |ipt| + |REQUESTOR_END|
    ensures e1 <= |src| && src[e1..] == tail
    ensures ScanSliceEnd(src, p + 1, REQUESTOR_END) == Some(e1) && Field(src, p, e1 - |REQUESTOR_END|) == ipt
  {
    AfterFirst(src, p, ipt, REQUESTOR_END, tail);
    CutOut(src, p + 1, ipt[1..], REQUESTOR_END, tail, e1);
    FrontField(src, p, ipt, REQUESTOR_END, tail, e1 - |REQUESTOR_END|);
  }





  lemma TimestampScans(src: seq<u8>, p: nat, identity: seq<u8>, ft: seq<u8>, mid: seq<u8>, tail: seq<u8>,
                       e2: nat, e3: nat)
    requires LBRACKET !in identity && RBRACKET !in ft
    requires p <= |src| && src[p..] == identity + [LBRACKET] + mid && mid == ft + TIME_END + tail
    requires e2 == p + |identity| + 1 && e3 == e2 + |ft| + |TIME_END|
    ensures e3 <= |src| && src[e3..] == tail
    ensures ScanByteEnd(src, p, LBRACKET) == Some(e2)
    ensures ScanSliceEnd(src, e2, TIME_END) == Some(e3) && Field(src, e2, e3 - |TIME_END|) == ft
  {
    CutOutByte(src, p, identity, LBRACKET, mid, e2);
    CutOut(src, e2, ft, TIME_END, tail, e3);
  }



  lemma RequestScans(src: seq<u8>, e3: nat, request: seq<u8>, n: nat, mid: seq<u8>, tail: seq<u8>,
                     e4: nat, e5: nat)
    requires QUOTE !in request
    requires e3 <= |src| && src[e3..] == request + REQUEST_END + mid && mid == Text(n) + [SP] + tail
    requires e4 == e3 + |request| + |REQUEST_END| && e5 == e4 + |Text(n)| + 1
    ensures e5 <= |src| && src[e5..] == tail
    ensures ScanSliceEnd(src, e3, REQUEST_END) == Some(e4) && Field(src, e3, e4 - |REQUEST_END|) == request
    ensures ScanByteEnd(src, e4, SP) == Some(e5) && Field(src, e4, e5 - 1) == Text(n)
  {
    CutOut(src, e3, request, REQUEST_END, mid, e4);
    TextIsCanonical(n);
    CutOutByte(src, e4, Text(n), SP, tail, e5);
  }


  lemma ByteCountScans(src: seq<u8>, e5: nat, n: nat, tail: seq<u8>, e6: nat)
    requires e5 <= |src| && src[e5..] == Text(n) + BYTES_END + tail && e6 == e5 + |Text(n)| + |BYTES_END|
    ensures e6 <= |src| && src[e6..] == tail
    ensures ScanSliceEnd(src, e5, BYTES_END) == Some(e6) && Field(src, e5, e6 - |BYTES_END|) == Text(n)
  {
    TextIsCanonical(n);
    CutOut(src, e5, Text(n), BYTES_END, tail, e6);
  }

  lemma ReferrerScans(src: seq<u8>, e6: nat, referrer: seq<u8>, userAgent: seq<u8>, mid: seq<u8>, rest: seq<u8>,
                      e7: nat, e8: nat)
    requires QUOTE !in referrer && QUOTE !in userAgent
    requires e6 <= |src| && src[e6..] == referrer + REFERRER_END + mid && mid == userAgent + AGENT_END + rest
    requires e7 == e6 + |referrer| + |REFERRER_END| && e8 == e7 + |userAgent| + |AGENT_END|
    ensures e8 == |src| - |rest|
    ensures ScanSliceEnd(src, e6, REFERRER_END) == Some(e7) && Field(src, e6, e7 - |REFERRER_END|) == referrer
    ensures ScanSliceEnd(src, e7, AGENT_END) == Some(e8) && Field(src, e7, e8 - |AGENT_END|) == userAgent
  {
    CutOut(src, e6, referrer, REFERRER_END, mid, e7);
    CutOut(src, e7, userAgent, AGENT_END, rest, e8);
  }

  // ---------------------------------------------------------------------
  // The whole line

  /** From the request line on, the scans found their delimiters at these positions: the entry is made. */
  lemma RunFromRequest(src: seq<u8>, e3: nat, e4: nat, e5: nat, e6: nat, e7: nat, e8: nat, ip: Ipv4, t: DateTime,
                       w: Written)
    requires Readable(w) && e3 + |REQUEST_END| <= e4 <= e5 <= |src|
    requires ScanSliceEnd(src, e3, REQUEST_END) == Some(e4) && Field(src, e3, e4 - |REQUEST_END|) == w.request
    requires ScanByteEnd(src, e4, SP) == Some(e5) && Field(src, e4, e5 - 1) == Text(w.status)
    requires ScanSliceEnd(src, e5, BYTES_END) == Some(e6) && Field(src, e5, e6 - |BYTES_END|) == Text(w.bytesSent)
    requires ScanSliceEnd(src, e6, REFERRER_END) == Some(e7) && Field(src, e6, e7 - |REFERRER_END|) == w.referrer
    requires ScanSliceEnd(src, e7, AGENT_END) == Some(e8) && Field(src, e7, e8 - |AGENT_END|) == w.userAgent
    ensures Run(src, AtRequest(e3, ip, t)) == Run(src, AtReferrer(e3, e4, e6, ip, t, w.status, w.bytesSent))
    ensures Run(src, AtReferrer(e3, e4, e6, ip, t, w.status, w.bytesSent))
              == Step(Finish(w.request, ip, t, w.status, w.bytesSent, w.referrer, w.userAgent), e8, e3)
  {
    StatusStep(src, e3, e4, e5, ip, t, w.status);
    RunContinue(src, AtRequest(e3, ip, t), AtBytes(e3, e4, e5, ip, t, w.status));
    ByteCountStep(src, e3, e4, e5, e6, ip, t, w.status, w.bytesSent);
    RunContinue(src, AtBytes(e3, e4, e5, ip, t, w.status), AtReferrer(e3, e4, e6, ip, t, w.status, w.bytesSent));
    Finished(src, e3, e4, e6, e7, e8, ip, t, w.status, w.bytesSent, w.request, w.referrer, w.userAgent);
  }

  /** The requestor and the timestamp were found and read: the reading goes on at the request line. */
  lemma RunToRequest(src: seq<u8>, p: nat, e1: nat, e2: nat, e3: nat, w: Written)
    requires Readable(w) && p < |src| && p <= e1 <= |src|
    requires ScanSliceEnd(src, p + 1, REQUESTOR_END) == Some(e1) && Field(src, p, e1 - |REQUESTOR_END|) == FormatIpv4(w.requestor)
    requires ScanByteEnd(src, e1, LBRACKET) == Some(e2)
    requires ScanSliceEnd(src, e2, TIME_END) == Some(e3) && Field(src, e2, e3 - |TIME_END|) == FormatLogDate(w.time)
    ensures e3 <= |src| && Run(src, AtRequestor(p)) == Run(src, AtRequest(e3, w.requestor, w.time))
  {
    var ip, t := w.requestor, w.time;
    RequestorStep(src, p, e1, ip);
    RunContinue(src, AtRequestor(p), AtTimestamp(p, e1, ip));
    TimestampStep(src, p, e1, e2, e3, ip, t);
    RunContinue(src, AtTimestamp(p, e1, ip), AtRequest(e3, ip, t));
  }


  /** The requestor and the timestamp of a written line are read back; the request comes next. */
  lemma ReadWrittenFront(src: seq<u8>, p: nat, w: Written, rest: seq<u8>, e3: nat)
    requires Readable(w) && p <= |src| && src[p..] == WriteLine(w, rest)
    requires e3 == p + |FormatIpv4(w.requestor)| + |REQUESTOR_END| + |w.identity| + 1 + |FormatLogDate(w.time)| + |TIME_END|
    ensures e3 <= |src| && src[e3..] == AfterTime(w, rest)
    ensures ReadOneSpec(src, p) == Run(src, AtRequest(e3, w.requestor, w.time))
  {
    var ft := FormatLogDate(w.time);
    var e1 := p + |FormatIpv4(w.requestor)| + |REQUESTOR_END|;
    var e2 := e1 + |w.identity| + 1;
    FormatIsAscii(w.requestor);
    StartsRecord(src, p, FormatIpv4(w.requestor), REQUESTOR_END, AfterRequestor(w, rest));
    RequestorScans(src, p, FormatIpv4(w.requestor), AfterRequestor(w, rest), e1);
    NoBracketInFormat(w.time);
    TimestampScans(src, e1, w.identity, ft, AfterBracket(w, rest), AfterTime(w, rest), e2, e3);
    RunToRequest(src, p, e1, e2, e3, w);
  }

  /** From the request on, the fields of a written line are read back and the record is finished. */
  lemma ReadWrittenBack(src: seq<u8>, e3: nat, w: Written, rest: seq<u8>)
    requires Readable(w) && e3 <= |src| && src[e3..] == AfterTime(w, rest)
    ensures Run(src, AtRequest(e3, w.requestor, w.time))
              == Step(Finish(w.request, w.requestor, w.time, w.status, w.bytesSent, w.referrer, w.userAgent),
                      |src| - |rest|, e3)
  {
    var e4 := e3 + |w.request| + |REQUEST_END|;
    var e5 := e4 + |Text(w.status)| + 1;
    var e6 := e5 + |Text(w.bytesSent)| + |BYTES_END|;
    var e7 := e6 + |w.referrer| + |REFERRER_END|;
    var e8 := e7 + |w.userAgent| + |AGENT_END|;
    RequestScans(src, e3, w.request, w.status, AfterRequest(w, rest), AfterStatus(w, rest), e4, e5);
    ByteCountScans(src, e5, w.bytesSent, AfterBytes(w, rest), e6);
    ReferrerScans(src, e6, w.referrer, w.userAgent, AfterReferrer(w, rest), rest, e7, e8);
    RunFromRequest(src, e3, e4, e5, e6, e7, e8, w.requestor, w.time, w);
  }

  /**
   * `read_one` at the start of a written line: the scans stop exactly at
   * the line's delimiters, the cursor is left right after its line break,
   * and the outcome is that of checking the fields as written; the scratch
   * buffer holds the line from the request on.
   */
  lemma ReadWrittenLine(src: seq<u8>, p: nat, w: Written, rest: seq<u8>)
    requires Readable(w) && p <= |src| && src[p..] == WriteLine(w, rest)
    ensures ReadOneSpec(src, p)
              == Step(Finish(w.request, w.requestor, w.time, w.status, w.bytesSent, w.referrer, w.userAgent),
                      |src| - |rest|, |src| - |AfterTime(w, rest)|)
  {
    var e3 := p + |FormatIpv4(w.requestor)| + |REQUESTOR_END| + |w.identity| + 1 + |FormatLogDate(w.time)| + |TIME_END|;
    ReadWrittenFront(src, p, w, rest, e3);
    ReadWrittenBack(src, e3, w, rest);
  }

  /**
   * A written line cut off anywhere after its first byte is a stream that
   * ends inside a record: `read_one` reports it truncated, never as the
   * clean end of the stream.
   */
  lemma WrittenLineCut(w: Written, k: nat)
    requires Readable(w) && 0 < k < |WriteLine(w, [])|
    ensures ReadOneSpec(WriteLine(w, [])[..k], 0).outcome == Failed(StreamTruncated)
  {
    var src := WriteLine(w, []);
    assert src[0..] == src;
    ReadWrittenLine(src, 0, w, []);
    FormatIsAscii(w.requestor);
    assert src[0] == FormatIpv4(w.requestor)[0];
    assert SkipBlank(src, 0) == 0;
    CutShortTruncates(src, 0, k);
  }

  /** The entry a written line stands for, with the method and path its request line splits into. */
  function EntryOf(w: Written, verb: seq<u8>, path: seq<u8>): LogEntry {
    LogEntry(w.requestor, w.time, verb, path, w.status, w.bytesSent, w.referrer, w.userAgent)
  }

  /**
   * A written line of well-formed texts whose request line is a method and
   * a path, each followed by one space, and then the protocol.
   */
  predicate WellFormed(w: Written, verb: seq<u8>, path: seq<u8>, protocol: seq<u8>) {
    && Readable(w) && w.status != 400
    && w.request == verb + [SP] + path + [SP] + protocol && SP !in verb && SP !in path
    && ValidUtf8(w.request) && ValidUtf8(w.referrer) && ValidUtf8(w.userAgent)
  }

  /** Such a line reads back as the entry holding exactly the fields it was written from. */
  lemma ReadWrittenEntry(src: seq<u8>, p: nat, w: Written, verb: seq<u8>, path: seq<u8>, protocol: seq<u8>,
                         rest: seq<u8>)
    requires WellFormed(w, verb, path, protocol) && p <= |src| && src[p..] == WriteLine(w, rest)
    ensures ReadOneSpec(src, p) == Step(Record(EntryOf(w, verb, path)), |src| - |rest|, |src| - |AfterTime(w, rest)|)
  {
    ReadWrittenLine(src, p, w, rest);
    RequestTargetOf(verb, path, protocol, w.status);
  }

  /**
   * A log of two written lines: the first `read_one` gives the first entry
   * and stops at the end of the first line, the second gives the second
   * entry and stops at the end of the log, and the third reports the end of
   * the stream.
   */
  lemma ReadTwoLines(w1: Written, verb1: seq<u8>, path1: seq<u8>, protocol1: seq<u8>, line1: seq<u8>,
                     w2: Written, verb2: seq<u8>, path2: seq<u8>, protocol2: seq<u8>, line2: seq<u8>)
    requires WellFormed(w1, verb1, path1, protocol1) && line1 == WriteLine(w1, [])
    requires WellFormed(w2, verb2, path2, protocol2) && line2 == WriteLine(w2, [])
    ensures ReadOneSpec(line1 + line2, 0).outcome == Record(EntryOf(w1, verb1, path1))
    ensures ReadOneSpec(line1 + line2, 0).pos == |line1|
    ensures ReadOneSpec(line1 + line2, |line1|).outcome == Record(EntryOf(w2, verb2, path2))
    ensures ReadOneSpec(line1 + line2, |line1|).pos == |line1 + line2|
    ensures ReadOneSpec(line1 + line2, |line1 + line2|).outcome == EndOfStream
  {
    var src := line1 + line2;
    WriteLineAppends(w1, line2);
    ReadWrittenEntry(src, 0, w1, verb1, path1, protocol1, line2);
    assert src[|line1|..] == line2;
    ReadWrittenEntry(src, |line1|, w2, verb2, path2, protocol2, []);
  }
}

/**
 * What one `read_one` call does to the input, as a function of the input
 * and the position it starts from: which outcome it reports, where the
 * source cursor is left, and where the bytes held in the scratch buffer
 * begin (the scratch buffer always holds the input from that mark up to
 * the cursor, since it is filled one byte per byte read and only ever
 * cleared).
 *
 * A record is the web server's "combined" line:
 * `ADDR - IDENT [TIMESTAMP] "REQUEST" STATUS BYTES "REFERRER" "AGENT"`
 * and a line break.
 */
module Records {
  import opened Bytes
  import opened Utf8
  import opened Decimal
  import opened Address
  import opened LogDate
  import opened Scan

  datatype LogEntry = LogEntry(requestor: Ipv4, time: DateTime,
                               requestMethod: seq<u8>, path: seq<u8>,
                               responseCode: nat, bytesSent: nat,
                               referrer: seq<u8>, userAgent: seq<u8>)

  /** Why a record could not be read; each is an `Err` of `read_one`. */
  datatype ReadError =
    | StreamTruncated         // the input ended inside a record
    | InvalidText             // a field handed out as text is not well-formed UTF-8
    | InvalidAddress          // the requestor is not an address
    | InvalidInteger          // the status or the byte count is not a number of its type
    | MalformedRequestLine    // a request line with fewer than two spaces

  /**
   * `Ok(None)`, `Ok(Some(entry))`, `Err(error)`, or the abort caused by
   * unwrapping a timestamp that does not parse.
   */
  datatype ReadOutcome = EndOfStream | Record(entry: LogEntry) | Failed(error: ReadError) | Aborted

  /** An outcome and the reader's state after it: the scratch buffer holds the input from `mark` to `pos`. */
  datatype Step = Step(outcome: ReadOutcome, pos: nat, mark: nat)

  const REQUESTOR_END: seq<u8> := [SP, DASH, SP]
  const TIME_END: seq<u8> := [RBRACKET, SP, QUOTE]
  const REQUEST_END: seq<u8> := [QUOTE, SP]
  const BYTES_END: seq<u8> := [SP, QUOTE]
  const REFERRER_END: seq<u8> := [QUOTE, SP, QUOTE]
  const AGENT_END: seq<u8> := [QUOTE, NL]

  /**
   * `split_once(b)`: the text before the first `b` and the text after it.
   * There is no split exactly when `b` is absent; otherwise the text is the
   * front, `b` and the back, and the front holds no `b`.
   */
  function SplitOnce(s: seq<u8>, b: u8): (r: Option<(seq<u8>, seq<u8>)>)
    ensures r.None? <==> b !in s
    ensures r.Some? ==> s == r.value.0 + [b] + r.value.1 && b !in r.value.0
  {
    if s == [] then None
    else if s[0] == b then
      assert s == [] + [b] + s[1..];
      Some(([], s[1..]))
    else
      match SplitOnce(s[1..], b)
      case None =>
        assert s == [s[0]] + s[1..];
        None
      case Some(p) =>
        assert s == ([s[0]] + p.0) + [b] + p.1;
        Some(([s[0]] + p.0, p.1))
  }

  /** A text whose front holds no `b` splits right after that front. */
  lemma {:induction false} SplitOnceAt(front: seq<u8>, b: u8, back: seq<u8>)
    requires b !in front
    ensures SplitOnce(front + [b] + back, b) == Some((front, back))
  {
    if front != [] {
      SplitOnceAt(front[1..], b, back);
      assert (front + [b] + back)[1..] == front[1..] + [b] + back;
      assert [front[0]] + front[1..] == front;
    }
  }

  /**
   * Method and path of a request line. An empty line, and any line of a
   * response with status 400, give two empty texts; otherwise the method
   * ends at the first space and the path at the second, and a line with
   * fewer than two spaces is malformed. The method holds no space and is
   * followed by one, then comes the path, which holds no space and is
   * followed by one.
   */
  function RequestTarget(request: seq<u8>, status: nat): (r: Option<(seq<u8>, seq<u8>)>)
    ensures r.Some? && request != [] && status != 400 ==>
      && SP !in r.value.0 && SP !in r.value.1
      && |r.value.0| + |r.value.1| + 2 <= |request|
      && request[..|r.value.0| + |r.value.1| + 2] == r.value.0 + [SP] + r.value.1 + [SP]
  {
    if request == [] || status == 400 then Some(([], []))
    else
      match SplitOnce(request, SP)
      case None => None
      case Some(first) =>
        match SplitOnce(first.1, SP)
        case None => None
        case Some(second) =>
          LineStart(request, first.0, first.1, second.0, second.1);
          Some((first.0, second.0))
  }

  /**
   * An empty request line and any line of a status-400 response give two
   * empty texts; otherwise the line is malformed exactly when it holds
   * fewer than two spaces.
   */
  lemma RequestTargetSpec(request: seq<u8>, status: nat)
    ensures request == [] || status == 400 ==> RequestTarget(request, status) == Some(([], []))
    ensures request != [] && status != 400 ==> (RequestTarget(request, status).None? <==> multiset(request)[SP] < 2)
  {
    if request != [] && status != 400 {
      match SplitOnce(request, SP)
      case None =>
        CountAbsent(request, SP);
      case Some(first) =>
        CountAfterSplit(request, SP, first.0, first.1);
        match SplitOnce(first.1, SP)
        case None =>
          CountAbsent(first.1, SP);
        case Some(second) =>
          CountAfterSplit(first.1, SP, second.0, second.1);
    }
  }

  /** A method and a path without spaces, each followed by one space, are what a request line splits into. */
  lemma RequestTargetOf(verb: seq<u8>, path: seq<u8>, protocol: seq<u8>, status: nat)
    requires SP !in verb && SP !in path && status != 400
    ensures RequestTarget(verb + [SP] + path + [SP] + protocol, status) == Some((verb, path))
  {
    SplitOnceAt(verb, SP, path + [SP] + protocol);
    assert verb + [SP] + path + [SP] + protocol == verb + [SP] + (path + [SP] + protocol);
    SplitOnceAt(path, SP, protocol);
  }

  lemma CountAbsent(s: seq<u8>, b: u8)
    requires b !in s
    ensures multiset(s)[b] == 0
  {
  }

  lemma CountAfterSplit(s: seq<u8>, b: u8, front: seq<u8>, back: seq<u8>)
    requires s == front + [b] + back && b !in front
    ensures multiset(s)[b] == 1 + multiset(back)[b]
  {
    assert multiset(s) == multiset(front) + multiset([b]) + multiset(back);
  }

  lemma LineStart(request: seq<u8>, verb: seq<u8>, remaining: seq<u8>, path: seq<u8>, rest: seq<u8>)
    requires request == verb + [SP] + remaining && remaining == path + [SP] + rest
    ensures |verb| + |path| + 2 <= |request|
    ensures request[..|verb| + |path| + 2] == verb + [SP] + path + [SP]
  {
    assert request == (verb + [SP] + path + [SP]) + rest;
  }

  /**
   * The bytes of `src` from `a` up to `b`, collected one by one as the
   * scratch buffer collects them.
   */
  function Field(src: seq<u8>, a: nat, b: nat): (r: seq<u8>)
    requires a <= b <= |src|
    ensures |r| == b - a
    decreases b - a
  {
    if a == b then [] else Field(src, a, b - 1) + [src[b - 1]]
  }

  lemma {:induction false} FieldIsSlice(src: seq<u8>, a: nat, b: nat)
    requires a <= b <= |src|
    ensures Field(src, a, b) == src[a..b]
    decreases b - a
  {
    if a < b {
      FieldIsSlice(src, a, b - 1);
      assert src[a..b] == src[a..b - 1] + [src[b - 1]];
    }
  }

  /** An input that ends inside a record: everything was consumed. */
  function Truncated(src: seq<u8>, mark: nat): Step {
    Step(Failed(StreamTruncated), |src|, mark)
  }

  /** The step's state is a valid reader state over `src` that did not move back from `pos`. */
  predicate Advances(src: seq<u8>, pos: nat, st: Step) {
    pos <= st.mark <= st.pos <= |src|
  }

  /** Where the first byte that is not a line break is, from `pos` on; the end of the input if there is none. */
  function SkipBlank(src: seq<u8>, pos: nat): (start: nat)
    requires pos <= |src|
    ensures pos <= start <= |src|
    ensures forall i | pos <= i < start :: src[i] == NL
    ensures start < |src| ==> src[start] != NL
    decreases |src| - pos
  {
    if pos == |src| || src[pos] != NL then pos else SkipBlank(src, pos + 1)
  }

  /**
   * `read_one` from `pos`: lone line breaks are skipped; running out of
   * input before a record starts is the clean end of the stream.
   */
  function ReadOneSpec(src: seq<u8>, pos: nat): (st: Step)
    requires pos <= |src|
    ensures Advances(src, pos, st)
    ensures st.outcome == EndOfStream ==> st.pos == |src|
    ensures st.outcome == Failed(StreamTruncated) ==> st.pos == |src|
  {
    var start := SkipBlank(src, pos);
    if start == |src| then Step(EndOfStream, start, start) else Run(src, AtRequestor(start))
  }

  /** `read_one` reports the end of the stream exactly when nothing but line breaks is left. */
  lemma EndOfStreamIffBlank(src: seq<u8>, pos: nat)
    requires pos <= |src|
    ensures ReadOneSpec(src, pos).outcome == EndOfStream <==> forall i | pos <= i < |src| :: src[i] == NL
  {
    var start := SkipBlank(src, pos);
    if start < |src| {
      assert src[start] != NL;
    }
  }

  /** A line break where a record would start is skipped: reading goes on from the next byte. */
  lemma BlankLineSkipped(src: seq<u8>, pos: nat)
    requires pos < |src| && src[pos] == NL
    ensures ReadOneSpec(src, pos) == ReadOneSpec(src, pos + 1)
  {
  }

  /**
   * How far the reading of a record has come between two of its stages:
   * the positions found so far and the fields already parsed.
   */
  datatype Phase =
    | AtRequestor(start: nat)                       // the record's first byte, at `start`, is read
    | AtTimestamp(start: nat, e1: nat, ip: Ipv4)    // the requestor's ` - ` ends at `e1`
    | AtRequest(e3: nat, ip: Ipv4, time: DateTime)  // the timestamp's `] "` ends at `e3`
    | AtBytes(e3: nat, e4: nat, e5: nat, ip: Ipv4, time: DateTime, status: nat)
                                                    // the request line's `" ` ends at `e4`, the status at `e5`
    | AtReferrer(e3: nat, e4: nat, e6: nat, ip: Ipv4, time: DateTime, status: nat, bytesSent: nat)
                                                    // the byte count's ` "` ends at `e6`

  /** The stages left after this one. */
  function Order(ph: Phase): nat {
    match ph
    case AtRequestor(_) => 4
    case AtTimestamp(_, _, _) => 3
    case AtRequest(_, _, _) => 2
    case AtBytes(_, _, _, _, _, _) => 1
    case AtReferrer(_, _, _, _, _, _, _) => 0
  }

  /** Where the scratch buffer starts in this phase. */
  function Origin(ph: Phase): nat {
    match ph
    case AtRequestor(start) => start
    case AtTimestamp(start, _, _) => start
    case AtRequest(e3, _, _) => e3
    case AtBytes(e3, _, _, _, _, _) => e3
    case AtReferrer(e3, _, _, _, _, _, _) => e3
  }

  predicate Within(src: seq<u8>, ph: Phase) {
    match ph
    case AtRequestor(start) => start < |src|
    case AtTimestamp(start, e1, _) => start <= e1 <= |src|
    case AtRequest(e3, _, _) => e3 <= |src|
    case AtBytes(e3, e4, e5, _, _, _) => e3 + |REQUEST_END| <= e4 <= e5 <= |src|
    case AtReferrer(e3, e4, e6, _, _, _, _) => e3 + |REQUEST_END| <= e4 <= e6 <= |src|
  }

  /**
   * How a record's reading can end: the reader did not move back from
   * `from`, a record that is cut short consumed the whole input, and the
   * clean end of the stream is not one of the ways.
   */
  predicate Ends(src: seq<u8>, from: nat, st: Step) {
    && Advances(src, from, st)
    && st.outcome != EndOfStream
    && (st.outcome == Failed(StreamTruncated) ==> st.pos == |src|)
  }

  /** A stage either ends the reading of the record or hands over to the next stage. */
  datatype Next = Done(step: Step) | Continue(phase: Phase)

  /** The first byte of the record is already in the scratch buffer; the requestor runs up to ` - `. */
  function RequestorStage(src: seq<u8>, start: nat): (r: Next)
    requires start < |src|
    ensures r.Done? ==> Ends(src, start, r.step)
    ensures r.Continue? ==> r.phase.AtTimestamp? && r.phase.start == start && Within(src, r.phase)
  {
    match ScanSliceEnd(src, start + 1, REQUESTOR_END)
    case None => Done(Truncated(src, start))
    case Some(e1) => RequestorAt(src, start, e1)
  }

  /** The requestor's text is cut out of the input between `start` and the ` - ` that ends at `e1`. */
  function RequestorAt(src: seq<u8>, start: nat, e1: nat): (r: Next)
    requires start + |REQUESTOR_END| <= e1 <= |src|
    ensures r.Done? ==> r.step == Step(r.step.outcome, e1, start) && r.step.outcome.Failed?
                        && r.step.outcome.error != StreamTruncated
    ensures r.Continue? ==> r.phase.AtTimestamp? && r.phase.start == start && r.phase.e1 == e1
  {
    Requestor(Field(src, start, e1 - |REQUESTOR_END|), start, e1)
  }

  /** The requestor's text, from `start` to `e1`, is UTF-8 and an IPv4 address. */
  function Requestor(text: seq<u8>, start: nat, e1: nat): (r: Next)
    ensures r.Done? ==> r.step == Step(r.step.outcome, e1, start) && r.step.outcome.Failed?
                        && r.step.outcome.error != StreamTruncated
    ensures r.Continue? ==> r.phase.AtTimestamp? && r.phase.start == start && r.phase.e1 == e1
  {
    if !ValidUtf8(text) then Done(Step(Failed(InvalidText), e1, start))
    else
      match ParseIpv4(text)
      case None => Done(Step(Failed(InvalidAddress), e1, start))
      case Some(ip) => Continue(AtTimestamp(start, e1, ip))
  }

  /**
   * Whatever precedes `[` is skipped unread; the scratch buffer is cleared
   * and the timestamp runs up to `] "`. A timestamp that does not parse
   * aborts the program.
   */
  function TimestampStage(src: seq<u8>, start: nat, e1: nat, ip: Ipv4): (r: Next)
    requires start <= e1 <= |src|
    ensures r.Done? ==> Ends(src, start, r.step)
    ensures r.Continue? ==> r.phase.AtRequest? && e1 <= r.phase.e3 && Within(src, r.phase)
  {
    match ScanByteEnd(src, e1, LBRACKET)
    case None => Done(Truncated(src, start))
    case Some(e2) =>
      match ScanSliceEnd(src, e2, TIME_END)
      case None => Done(Truncated(src, e2))
      case Some(e3) => Timestamp(Field(src, e2, e3 - |TIME_END|), e2, e3, ip)
  }

  /** The timestamp's text, from `e2` to `e3`, parses as a date. */
  function Timestamp(text: seq<u8>, e2: nat, e3: nat, ip: Ipv4): (r: Next)
    ensures r.Done? ==> r.step == Step(Aborted, e3, e2)
    ensures r.Continue? ==> r.phase.AtRequest? && r.phase.e3 == e3
  {
    match ParseLogDate(text)
    case Ok(time) => Continue(AtRequest(e3, ip, time))
    case _ => Done(Step(Aborted, e3, e2))
  }

  /**
   * The scratch buffer is cleared again; the request line runs up to `" `
   * and the status up to the next space, read as a 16-bit unsigned number.
   */
  function RequestStage(src: seq<u8>, e3: nat, ip: Ipv4, time: DateTime): (r: Next)
    requires e3 <= |src|
    ensures r.Done? ==> Ends(src, e3, r.step)
    ensures r.Continue? ==> r.phase.AtBytes? && r.phase.e3 == e3 && Within(src, r.phase)
  {
    match ScanSliceEnd(src, e3, REQUEST_END)
    case None => Done(Truncated(src, e3))
    case Some(e4) =>
      match ScanByteEnd(src, e4, SP)
      case None => Done(Truncated(src, e3))
      case Some(e5) => Status(Field(src, e4, e5 - 1), e3, e4, e5, ip, time)
  }

  /** The status's text, from `e4` to the space before `e5`, is UTF-8 and a 16-bit unsigned number. */
  function Status(text: seq<u8>, e3: nat, e4: nat, e5: nat, ip: Ipv4, time: DateTime): (r: Next)
    ensures r.Done? ==> r.step == Step(r.step.outcome, e5, e3) && r.step.outcome.Failed?
                        && r.step.outcome.error != StreamTruncated
    ensures r.Continue? ==> r.phase.AtBytes? && r.phase == AtBytes(e3, e4, e5, ip, time, r.phase.status)
  {
    if !ValidUtf8(text) then Done(Step(Failed(InvalidText), e5, e3))
    else
      match ParseUnsigned(text, U16_MAX)
      case None => Done(Step(Failed(InvalidInteger), e5, e3))
      case Some(status) => Continue(AtBytes(e3, e4, e5, ip, time, status))
  }

  /** The byte count runs up to ` "` and is read as a 32-bit unsigned number. */
  function BytesStage(src: seq<u8>, e3: nat, e4: nat, e5: nat, ip: Ipv4, time: DateTime, status: nat): (r: Next)
    requires e3 + |REQUEST_END| <= e4 <= e5 <= |src|
    ensures r.Done? ==> Ends(src, e3, r.step)
    ensures r.Continue? ==> r.phase.AtReferrer? && r.phase.e3 == e3 && r.phase.e4 == e4 && Within(src, r.phase)
  {
    match ScanSliceEnd(src, e5, BYTES_END)
    case None => Done(Truncated(src, e3))
    case Some(e6) => ByteCount(Field(src, e5, e6 - |BYTES_END|), e3, e4, e6, ip, time, status)
  }

  /** The byte count's text, up to the ` "` that ends at `e6`, is UTF-8 and a 32-bit unsigned number. */
  function ByteCount(text: seq<u8>, e3: nat, e4: nat, e6: nat, ip: Ipv4, time: DateTime, status: nat): (r: Next)
    ensures r.Done? ==> r.step == Step(r.step.outcome, e6, e3) && r.step.outcome.Failed?
                        && r.step.outcome.error != StreamTruncated
    ensures r.Continue? ==> r.phase.AtReferrer? && r.phase == AtReferrer(e3, e4, e6, ip, time, status, r.phase.bytesSent)
  {
    if !ValidUtf8(text) then Done(Step(Failed(InvalidText), e6, e3))
    else
      match ParseUnsigned(text, U32_MAX)
      case None => Done(Step(Failed(InvalidInteger), e6, e3))
      case Some(bytesSent) => Continue(AtReferrer(e3, e4, e6, ip, time, status, bytesSent))
  }

  /**
   * The referrer runs up to `" "` and the user agent up to `"` and a line
   * break. Then the entry is put together.
   */
  function ReferrerStage(src: seq<u8>, e3: nat, e4: nat, e6: nat, ip: Ipv4, time: DateTime, status: nat,
                         bytesSent: nat): (r: Next)
    requires e3 + |REQUEST_END| <= e4 <= e6 <= |src|
    ensures r.Done? && Ends(src, e3, r.step)
  {
    match ScanSliceEnd(src, e6, REFERRER_END)
    case None => Done(Truncated(src, e3))
    case Some(e7) =>
      match ScanSliceEnd(src, e7, AGENT_END)
      case None => Done(Truncated(src, e3))
      case Some(e8) => Line(src, e3, e4, e6, e7, e8, ip, time, status, bytesSent)
  }

  /** The request line, the referrer and the user agent, each without its delimiter, make the entry. */
  function Line(src: seq<u8>, e3: nat, e4: nat, e6: nat, e7: nat, e8: nat, ip: Ipv4, time: DateTime, status: nat,
                bytesSent: nat): (r: Next)
    requires e3 + |REQUEST_END| <= e4 <= e6 && e6 + |REFERRER_END| <= e7 && e7 + |AGENT_END| <= e8 <= |src|
    ensures r.Done? && r.step.pos == e8 && r.step.mark == e3
    ensures r.step.outcome != EndOfStream && r.step.outcome != Failed(StreamTruncated)
  {
    var outcome := Finish(Field(src, e3, e4 - |REQUEST_END|), ip, time, status, bytesSent,
                          Field(src, e6, e7 - |REFERRER_END|), Field(src, e7, e8 - |AGENT_END|));
    Done(Step(outcome, e8, e3))
  }

  function Stage(src: seq<u8>, ph: Phase): (r: Next)
    requires Within(src, ph)
    ensures r.Done? ==> Ends(src, Origin(ph), r.step)
    ensures r.Continue? ==> Within(src, r.phase) && Order(r.phase) < Order(ph) && Origin(ph) <= Origin(r.phase)
  {
    match ph
    case AtRequestor(start) => RequestorStage(src, start)
    case AtTimestamp(start, e1, ip) => TimestampStage(src, start, e1, ip)
    case AtRequest(e3, ip, time) => RequestStage(src, e3, ip, time)
    case AtBytes(e3, e4, e5, ip, time, status) => BytesStage(src, e3, e4, e5, ip, time, status)
    case AtReferrer(e3, e4, e6, ip, time, status, bytesSent) => ReferrerStage(src, e3, e4, e6, ip, time, status, bytesSent)
  }

  /** The rest of a record's reading from phase `ph` on, one stage after the other. */
  function Run(src: seq<u8>, ph: Phase): (st: Step)
    requires Within(src, ph)
    ensures Ends(src, Origin(ph), st)
    decreases Order(ph)
  {
    match Stage(src, ph)
    case Done(st) => st
    case Continue(next) => Run(src, next)
  }

  /**
   * The whole line has been read: the request line is checked and split,
   * then the referrer and the user agent are checked, in that order. An
   * entry is made exactly when the three texts are UTF-8 and the request
   * line splits; the entry holds the fields as read.
   */
  function Finish(request: seq<u8>, ip: Ipv4, time: DateTime, status: nat, bytesSent: nat,
                  referrer: seq<u8>, userAgent: seq<u8>): (r: ReadOutcome)
    ensures r.Record? <==> ValidUtf8(request) && RequestTarget(request, status).Some?
                           && ValidUtf8(referrer) && ValidUtf8(userAgent)
    ensures r.Record? ==> r.entry == LogEntry(ip, time, RequestTarget(request, status).value.0,
                                              RequestTarget(request, status).value.1,
                                              status, bytesSent, referrer, userAgent)
    ensures !r.Record? ==> r.Failed? && r.error != StreamTruncated
  {
    if !ValidUtf8(request) then Failed(InvalidText)
    else
      match RequestTarget(request, status)
      case None => Failed(MalformedRequestLine)
      case Some(target) =>
        if !ValidUtf8(referrer) || !ValidUtf8(userAgent) then Failed(InvalidText)
        else Record(LogEntry(ip, time, target.0, target.1, status, bytesSent, referrer, userAgent))
  }

  // ---------------------------------------------------------------------
  // `Run` one stage at a time.

  lemma RunDone(src: seq<u8>, ph: Phase, st: Step)
    requires Within(src, ph) && Stage(src, ph) == Done(st)
    ensures Run(src, ph) == st
  {
  }

  lemma RunContinue(src: seq<u8>, ph: Phase, next: Phase)
    requires Within(src, ph) && Stage(src, ph) == Continue(next)
    ensures Within(src, next) && Run(src, ph) == Run(src, next)
  {
  }

  // ---------------------------------------------------------------------
  // Single stages, stated in terms of what the reader observes: where a
  // scan stopped and the text it cut out.

  lemma RequestorMissing(src: seq<u8>, start: nat)
    requires start < |src| && ScanSliceEnd(src, start + 1, REQUESTOR_END) == None
    ensures RequestorStage(src, start) == Done(Truncated(src, start))
  {
  }

  lemma RequestorFound(src: seq<u8>, start: nat, e1: nat)
    requires start < |src| && ScanSliceEnd(src, start + 1, REQUESTOR_END) == Some(e1)
    ensures start + |REQUESTOR_END| <= e1 <= |src|
    ensures RequestorStage(src, start) == RequestorAt(src, start, e1)
  {
  }

  lemma RequestorRead(src: seq<u8>, start: nat, e1: nat, text: seq<u8>)
    requires start < |src| && ScanSliceEnd(src, start + 1, REQUESTOR_END) == Some(e1)
    requires text == Field(src, start, e1 - |REQUESTOR_END|)
    ensures RequestorStage(src, start) == Requestor(text, start, e1)
  {
    RequestorFound(src, start, e1);
  }


  lemma BracketMissing(src: seq<u8>, start: nat, e1: nat, ip: Ipv4)
    requires start <= e1 <= |src| && ScanByteEnd(src, e1, LBRACKET) == None
    ensures TimestampStage(src, start, e1, ip) == Done(Truncated(src, start))
  {
  }

  lemma TimestampMissing(src: seq<u8>, start: nat, e1: nat, ip: Ipv4, e2: nat)
    requires start <= e1 <= |src| && ScanByteEnd(src, e1, LBRACKET) == Some(e2)
    requires ScanSliceEnd(src, e2, TIME_END) == None
    ensures TimestampStage(src, start, e1, ip) == Done(Truncated(src, e2))
  {
  }

  lemma TimestampRead(src: seq<u8>, start: nat, e1: nat, ip: Ipv4, e2: nat, e3: nat, text: seq<u8>)
    requires start <= e1 <= |src| && ScanByteEnd(src, e1, LBRACKET) == Some(e2)
    requires ScanSliceEnd(src, e2, TIME_END) == Some(e3) && text == Field(src, e2, e3 - |TIME_END|)
    ensures TimestampStage(src, start, e1, ip) == Timestamp(text, e2, e3, ip)
  {
  }

  lemma RequestMissing(src: seq<u8>, e3: nat, ip: Ipv4, time: DateTime)
    requires e3 <= |src| && ScanSliceEnd(src, e3, REQUEST_END) == None
    ensures RequestStage(src, e3, ip, time) == Done(Truncated(src, e3))
  {
  }

  lemma StatusMissing(src: seq<u8>, e3: nat, e4: nat, ip: Ipv4, time: DateTime)
    requires e3 <= |src| && ScanSliceEnd(src, e3, REQUEST_END) == Some(e4) && ScanByteEnd(src, e4, SP) == None
    ensures RequestStage(src, e3, ip, time) == Done(Truncated(src, e3))
  {
  }

  lemma StatusRead(src: seq<u8>, e3: nat, e4: nat, e5: nat, ip: Ipv4, time: DateTime, text: seq<u8>)
    requires e3 <= |src| && ScanSliceEnd(src, e3, REQUEST_END) == Some(e4) && ScanByteEnd(src, e4, SP) == Some(e5)
    requires text == Field(src, e4, e5 - 1)
    ensures RequestStage(src, e3, ip, time) == Status(text, e3, e4, e5, ip, time)
  {
  }

  lemma BytesMissing(src: seq<u8>, e3: nat, e4: nat, e5: nat, ip: Ipv4, time: DateTime, status: nat)
    requires e3 + |REQUEST_END| <= e4 <= e5 <= |src| && ScanSliceEnd(src, e5, BYTES_END) == None
    ensures BytesStage(src, e3, e4, e5, ip, time, status) == Done(Truncated(src, e3))
  {
  }

  lemma BytesRead(src: seq<u8>, e3: nat, e4: nat, e5: nat, ip: Ipv4, time: DateTime, status: nat, e6: nat, text: seq<u8>)
    requires e3 + |REQUEST_END| <= e4 <= e5 <= |src| && ScanSliceEnd(src, e5, BYTES_END) == Some(e6)
    requires text == Field(src, e5, e6 - |BYTES_END|)
    ensures BytesStage(src, e3, e4, e5, ip, time, status) == ByteCount(text, e3, e4, e6, ip, time, status)
  {
  }

  lemma ReferrerMissing(src: seq<u8>, e3: nat, e4: nat, e6: nat, ip: Ipv4, time: DateTime, status: nat, bytesSent: nat)
    requires e3 + |REQUEST_END| <= e4 <= e6 <= |src| && ScanSliceEnd(src, e6, REFERRER_END) == None
    ensures ReferrerStage(src, e3, e4, e6, ip, time, status, bytesSent) == Done(Truncated(src, e3))
  {
  }

  lemma AgentMissing(src: seq<u8>, e3: nat, e4: nat, e6: nat, ip: Ipv4, time: DateTime, status: nat, bytesSent: nat,
                     e7: nat)
    requires e3 + |REQUEST_END| <= e4 <= e6 <= |src|
    requires ScanSliceEnd(src, e6, REFERRER_END) == Some(e7) && ScanSliceEnd(src, e7, AGENT_END) == None
    ensures ReferrerStage(src, e3, e4, e6, ip, time, status, bytesSent) == Done(Truncated(src, e3))
  {
  }

  lemma LineStage(src: seq<u8>, e3: nat, e4: nat, e6: nat, ip: Ipv4, time: DateTime, status: nat, bytesSent: nat,
                  e7: nat, e8: nat)
    requires e3 + |REQUEST_END| <= e4 <= e6 <= |src|
    requires ScanSliceEnd(src, e6, REFERRER_END) == Some(e7) && ScanSliceEnd(src, e7, AGENT_END) == Some(e8)
    ensures ReferrerStage(src, e3, e4, e6, ip, time, status, bytesSent)
              == Line(src, e3, e4, e6, e7, e8, ip, time, status, bytesSent)
  {
  }

  lemma ReferrerDone(src: seq<u8>, e3: nat, e4: nat, e6: nat, ip: Ipv4, time: DateTime, status: nat, bytesSent: nat,
                     st: Step)
    requires e3 + |REQUEST_END| <= e4 <= e6 <= |src|
    requires ReferrerStage(src, e3, e4, e6, ip, time, status, bytesSent) == Done(st)
    ensures Run(src, AtReferrer(e3, e4, e6, ip, time, status, bytesSent)) == st
  {
    assert Stage(src, AtReferrer(e3, e4, e6, ip, time, status, bytesSent)) == Done(st);
  }

  lemma LineRead(src: seq<u8>, e3: nat, e4: nat, e6: nat, ip: Ipv4, time: DateTime, status: nat, bytesSent: nat,
                 e7: nat, e8: nat)
    requires e3 + |REQUEST_END| <= e4 <= e6 <= |src|
    requires ScanSliceEnd(src, e6, REFERRER_END) == Some(e7) && ScanSliceEnd(src, e7, AGENT_END) == Some(e8)
    ensures Run(src, AtReferrer(e3, e4, e6, ip, time, status, bytesSent))
              == Line(src, e3, e4, e6, e7, e8, ip, time, status, bytesSent).step
  {
    LineStage(src, e3, e4, e6, ip, time, status, bytesSent, e7, e8);
    ReferrerDone(src, e3, e4, e6, ip, time, status, bytesSent, Line(src, e3, e4, e6, e7, e8, ip, time, status, bytesSent).step);
  }

  // ---------------------------------------------------------------------
  // Input cut off inside a record

  /** How far the input has been read when a phase begins. */
  function Reach(ph: Phase): nat {
    match ph
    case AtRequestor(start) => start + 1
    case AtTimestamp(_, e1, _) => e1
    case AtRequest(e3, _, _) => e3
    case AtBytes(_, _, e5, _, _, _) => e5
    case AtReferrer(_, _, e6, _, _, _, _) => e6
  }

  /** The stage read nothing beyond the first `k` bytes. */
  predicate Reached(r: Next, k: nat) {
    match r
    case Done(st) => st.pos <= k
    case Continue(ph) => Reach(ph) <= k
  }

  /**
   * What a stage does on the first `k` bytes of the input, against what it
   * does on the whole input: the same, having read no further; or the
   * input runs out inside the record.
   */
  predicate Cuts(part: Next, full: Next, k: nat) {
    || (part == full && Reached(full, k))
    || (part.Done? && part.step.outcome == Failed(StreamTruncated))
  }

  lemma {:induction false} FieldPrefix(src: seq<u8>, a: nat, b: nat, k: nat)
    requires a <= b <= k <= |src|
    ensures Field(src[..k], a, b) == Field(src, a, b)
    decreases b - a
  {
    if a < b {
      FieldPrefix(src, a, b - 1, k);
    }
  }

  /** Each stage reads no further than the end of the field it cut out. */
  lemma RequestorReach(text: seq<u8>, start: nat, e1: nat, k: nat)
    requires e1 <= k
    ensures Reached(Requestor(text, start, e1), k)
  {
  }

  lemma TimestampReach(text: seq<u8>, e2: nat, e3: nat, ip: Ipv4, k: nat)
    requires e3 <= k
    ensures Reached(Timestamp(text, e2, e3, ip), k)
  {
  }

  lemma StatusReach(text: seq<u8>, e3: nat, e4: nat, e5: nat, ip: Ipv4, time: DateTime, k: nat)
    requires e5 <= k
    ensures Reached(Status(text, e3, e4, e5, ip, time), k)
  {
  }

  lemma BytesReach(text: seq<u8>, e3: nat, e4: nat, e6: nat, ip: Ipv4, time: DateTime, status: nat, k: nat)
    requires e6 <= k
    ensures Reached(ByteCount(text, e3, e4, e6, ip, time, status), k)
  {
  }

  /** The fields a stage cuts out lie before `k`, so the first `k` bytes hold them unchanged. */
  lemma RequestorKept(src: seq<u8>, start: nat, k: nat, e1: nat)
    requires start < k <= |src| && ScanSliceEnd(src, start + 1, REQUESTOR_END) == Some(e1) && e1 <= k
    ensures ScanSliceEnd(src[..k], start + 1, REQUESTOR_END) == Some(e1)
    ensures Field(src[..k], start, e1 - |REQUESTOR_END|) == Field(src, start, e1 - |REQUESTOR_END|)
  {
    ScanSlicePrefix(src, start + 1, REQUESTOR_END, k);
    FieldPrefix(src, start, e1 - |REQUESTOR_END|, k);
  }

  lemma RequestorFits(src: seq<u8>, start: nat, k: nat, e1: nat)
    requires start < k <= |src| && ScanSliceEnd(src, start + 1, REQUESTOR_END) == Some(e1) && e1 <= k
    ensures Cuts(RequestorStage(src[..k], start), RequestorStage(src, start), k)
  {
    var text := Field(src, start, e1 - |REQUESTOR_END|);
    RequestorKept(src, start, k, e1);
    RequestorRead(src[..k], start, e1, text);
    RequestorRead(src, start, e1, text);
    RequestorReach(text, start, e1, k);
  }

  lemma RequestorCut(src: seq<u8>, start: nat, k: nat)
    requires start < k <= |src| && Cut(ScanSliceEnd(src, start + 1, REQUESTOR_END), k) == None
    ensures Cuts(RequestorStage(src[..k], start), RequestorStage(src, start), k)
  {
    ScanSlicePrefix(src, start + 1, REQUESTOR_END, k);
    RequestorMissing(src[..k], start);
  }

  lemma RequestorPrefix(src: seq<u8>, start: nat, k: nat)
    requires start < k <= |src|
    ensures Cuts(RequestorStage(src[..k], start), RequestorStage(src, start), k)
  {
    var e1 := ScanSliceEnd(src, start + 1, REQUESTOR_END);
    if e1.Some? && e1.value <= k {
      RequestorFits(src, start, k, e1.value);
    } else {
      RequestorCut(src, start, k);
    }
  }

  lemma TimestampKept(src: seq<u8>, e1: nat, k: nat, e2: nat, e3: nat)
    requires e1 <= k <= |src| && ScanByteEnd(src, e1, LBRACKET) == Some(e2) && e2 <= k
    requires ScanSliceEnd(src, e2, TIME_END) == Some(e3) && e3 <= k
    ensures ScanByteEnd(src[..k], e1, LBRACKET) == Some(e2) && ScanSliceEnd(src[..k], e2, TIME_END) == Some(e3)
    ensures Field(src[..k], e2, e3 - |TIME_END|) == Field(src, e2, e3 - |TIME_END|)
  {
    ScanBytePrefix(src, e1, LBRACKET, k);
    ScanSlicePrefix(src, e2, TIME_END, k);
    FieldPrefix(src, e2, e3 - |TIME_END|, k);
  }

  lemma TimestampFits(src: seq<u8>, start: nat, e1: nat, ip: Ipv4, k: nat, e2: nat, e3: nat)
    requires start <= e1 <= k <= |src| && ScanByteEnd(src, e1, LBRACKET) == Some(e2) && e2 <= k
    requires ScanSliceEnd(src, e2, TIME_END) == Some(e3) && e3 <= k
    ensures Cuts(TimestampStage(src[..k], start, e1, ip), TimestampStage(src, start, e1, ip), k)
  {
    var text := Field(src, e2, e3 - |TIME_END|);
    TimestampKept(src, e1, k, e2, e3);
    TimestampRead(src[..k], start, e1, ip, e2, e3, text);
    TimestampRead(src, start, e1, ip, e2, e3, text);
    TimestampReach(text, e2, e3, ip, k);
  }

  lemma BracketCut(src: seq<u8>, start: nat, e1: nat, ip: Ipv4, k: nat)
    requires start <= e1 <= k <= |src| && Cut(ScanByteEnd(src, e1, LBRACKET), k) == None
    ensures Cuts(TimestampStage(src[..k], start, e1, ip), TimestampStage(src, start, e1, ip), k)
  {
    ScanBytePrefix(src, e1, LBRACKET, k);
    BracketMissing(src[..k], start, e1, ip);
  }

  lemma TimestampCut(src: seq<u8>, start: nat, e1: nat, ip: Ipv4, k: nat, e2: nat)
    requires start <= e1 <= k <= |src| && ScanByteEnd(src, e1, LBRACKET) == Some(e2) && e2 <= k
    requires Cut(ScanSliceEnd(src, e2, TIME_END), k) == None
    ensures Cuts(TimestampStage(src[..k], start, e1, ip), TimestampStage(src, start, e1, ip), k)
  {
    ScanBytePrefix(src, e1, LBRACKET, k);
    ScanSlicePrefix(src, e2, TIME_END, k);
    TimestampMissing(src[..k], start, e1, ip, e2);
  }

  lemma TimestampPrefix(src: seq<u8>, start: nat, e1: nat, ip: Ipv4, k: nat)
    requires start <= e1 <= k <= |src|
    ensures Cuts(TimestampStage(src[..k], start, e1, ip), TimestampStage(src, start, e1, ip), k)
  {
    var e2 := ScanByteEnd(src, e1, LBRACKET);
    if e2.Some? && e2.value <= k {
      var e3 := ScanSliceEnd(src, e2.value, TIME_END);
      if e3.Some? && e3.value <= k {
        TimestampFits(src, start, e1, ip, k, e2.value, e3.value);
      } else {
        TimestampCut(src, start, e1, ip, k, e2.value);
      }
    } else {
      BracketCut(src, start, e1, ip, k);
    }
  }

  lemma RequestKept(src: seq<u8>, e3: nat, k: nat, e4: nat, e5: nat)
    requires e3 <= k <= |src| && ScanSliceEnd(src, e3, REQUEST_END) == Some(e4) && e4 <= k
    requires ScanByteEnd(src, e4, SP) == Some(e5) && e5 <= k
    ensures ScanSliceEnd(src[..k], e3, REQUEST_END) == Some(e4) && ScanByteEnd(src[..k], e4, SP) == Some(e5)
    ensures Field(src[..k], e4, e5 - 1) == Field(src, e4, e5 - 1)
  {
    ScanSlicePrefix(src, e3, REQUEST_END, k);
    ScanBytePrefix(src, e4, SP, k);
    FieldPrefix(src, e4, e5 - 1, k);
  }

  lemma RequestFits(src: seq<u8>, e3: nat, ip: Ipv4, time: DateTime, k: nat, e4: nat, e5: nat)
    requires e3 <= k <= |src| && ScanSliceEnd(src, e3, REQUEST_END) == Some(e4) && e4 <= k
    requires ScanByteEnd(src, e4, SP) == Some(e5) && e5 <= k
    ensures Cuts(RequestStage(src[..k], e3, ip, time), RequestStage(src, e3, ip, time), k)
  {
    var text := Field(src, e4, e5 - 1);
    RequestKept(src, e3, k, e4, e5);
    StatusRead(src[..k], e3, e4, e5, ip, time, text);
    StatusRead(src, e3, e4, e5, ip, time, text);
    StatusReach(text, e3, e4, e5, ip, time, k);
  }

  lemma RequestCut(src: seq<u8>, e3: nat, ip: Ipv4, time: DateTime, k: nat)
    requires e3 <= k <= |src| && Cut(ScanSliceEnd(src, e3, REQUEST_END), k) == None
    ensures Cuts(RequestStage(src[..k], e3, ip, time), RequestStage(src, e3, ip, time), k)
  {
    ScanSlicePrefix(src, e3, REQUEST_END, k);
    RequestMissing(src[..k], e3, ip, time);
  }

  lemma StatusCut(src: seq<u8>, e3: nat, ip: Ipv4, time: DateTime, k: nat, e4: nat)
    requires e3 <= k <= |src| && ScanSliceEnd(src, e3, REQUEST_END) == Some(e4) && e4 <= k
    requires Cut(ScanByteEnd(src, e4, SP), k) == None
    ensures Cuts(RequestStage(src[..k], e3, ip, time), RequestStage(src, e3, ip, time), k)
  {
    ScanSlicePrefix(src, e3, REQUEST_END, k);
    ScanBytePrefix(src, e4, SP, k);
    StatusMissing(src[..k], e3, e4, ip, time);
  }

  lemma RequestPrefix(src: seq<u8>, e3: nat, ip: Ipv4, time: DateTime, k: nat)
    requires e3 <= k <= |src|
    ensures Cuts(RequestStage(src[..k], e3, ip, time), RequestStage(src, e3, ip, time), k)
  {
    var e4 := ScanSliceEnd(src, e3, REQUEST_END);
    if e4.Some? && e4.value <= k {
      var e5 := ScanByteEnd(src, e4.value, SP);
      if e5.Some? && e5.value <= k {
        RequestFits(src, e3, ip, time, k, e4.value, e5.value);
      } else {
        StatusCut(src, e3, ip, time, k, e4.value);
      }
    } else {
      RequestCut(src, e3, ip, time, k);
    }
  }

  lemma BytesKept(src: seq<u8>, e5: nat, k: nat, e6: nat)
    requires e5 <= k <= |src| && ScanSliceEnd(src, e5, BYTES_END) == Some(e6) && e6 <= k
    ensures ScanSliceEnd(src[..k], e5, BYTES_END) == Some(e6)
    ensures Field(src[..k], e5, e6 - |BYTES_END|) == Field(src, e5, e6 - |BYTES_END|)
  {
    ScanSlicePrefix(src, e5, BYTES_END, k);
    FieldPrefix(src, e5, e6 - |BYTES_END|, k);
  }

  lemma BytesFits(src: seq<u8>, e3: nat, e4: nat, e5: nat, ip: Ipv4, time: DateTime, status: nat, k: nat, e6: nat)
    requires e3 + |REQUEST_END| <= e4 <= e5 <= k <= |src| && ScanSliceEnd(src, e5, BYTES_END) == Some(e6) && e6 <= k
    ensures Cuts(BytesStage(src[..k], e3, e4, e5, ip, time, status), BytesStage(src, e3, e4, e5, ip, time, status), k)
  {
    var text := Field(src, e5, e6 - |BYTES_END|);
    BytesKept(src, e5, k, e6);
    BytesRead(src[..k], e3, e4, e5, ip, time, status, e6, text);
    BytesRead(src, e3, e4, e5, ip, time, status, e6, text);
    BytesReach(text, e3, e4, e6, ip, time, status, k);
  }

  lemma BytesCut(src: seq<u8>, e3: nat, e4: nat, e5: nat, ip: Ipv4, time: DateTime, status: nat, k: nat)
    requires e3 + |REQUEST_END| <= e4 <= e5 <= k <= |src| && Cut(ScanSliceEnd(src, e5, BYTES_END), k) == None
    ensures Cuts(BytesStage(src[..k], e3, e4, e5, ip, time, status), BytesStage(src, e3, e4, e5, ip, time, status), k)
  {
    ScanSlicePrefix(src, e5, BYTES_END, k);
    BytesMissing(src[..k], e3, e4, e5, ip, time, status);
  }

  lemma BytesPrefix(src: seq<u8>, e3: nat, e4: nat, e5: nat, ip: Ipv4, time: DateTime, status: nat, k: nat)
    requires e3 + |REQUEST_END| <= e4 <= e5 <= k <= |src|
    ensures Cuts(BytesStage(src[..k], e3, e4, e5, ip, time, status), BytesStage(src, e3, e4, e5, ip, time, status), k)
  {
    var e6 := ScanSliceEnd(src, e5, BYTES_END);
    if e6.Some? && e6.value <= k {
      BytesFits(src, e3, e4, e5, ip, time, status, k, e6.value);
    } else {
      BytesCut(src, e3, e4, e5, ip, time, status, k);
    }
  }

  /** The last stage's outcome, in terms of the three texts it cut out. */
  lemma LineOf(src: seq<u8>, e3: nat, e4: nat, e6: nat, e7: nat, e8: nat, ip: Ipv4, time: DateTime,
               status: nat, bytesSent: nat, request: seq<u8>, referrer: seq<u8>, userAgent: seq<u8>)
    requires e3 + |REQUEST_END| <= e4 <= e6 && e6 + |REFERRER_END| <= e7 && e7 + |AGENT_END| <= e8 <= |src|
    requires request == Field(src, e3, e4 - |REQUEST_END|)
    requires referrer == Field(src, e6, e7 - |REFERRER_END|) && userAgent == Field(src, e7, e8 - |AGENT_END|)
    ensures Line(src, e3, e4, e6, e7, e8, ip, time, status, bytesSent)
              == Done(Step(Finish(request, ip, time, status, bytesSent, referrer, userAgent), e8, e3))
  {
  }

  /** With both delimiters found, the last stage's outcome in terms of the three texts it cut out. */
  lemma ReferrerOf(src: seq<u8>, e3: nat, e4: nat, e6: nat, ip: Ipv4, time: DateTime, status: nat,
                   bytesSent: nat, e7: nat, e8: nat, request: seq<u8>, referrer: seq<u8>, userAgent: seq<u8>)
    requires e3 + |REQUEST_END| <= e4 <= e6 <= |src|
    requires ScanSliceEnd(src, e6, REFERRER_END) == Some(e7) && ScanSliceEnd(src, e7, AGENT_END) == Some(e8)
    requires request == Field(src, e3, e4 - |REQUEST_END|)
    requires referrer == Field(src, e6, e7 - |REFERRER_END|) && userAgent == Field(src, e7, e8 - |AGENT_END|)
    ensures ReferrerStage(src, e3, e4, e6, ip, time, status, bytesSent)
              == Done(Step(Finish(request, ip, time, status, bytesSent, referrer, userAgent), e8, e3))
  {
    LineStage(src, e3, e4, e6, ip, time, status, bytesSent, e7, e8);
    LineOf(src, e3, e4, e6, e7, e8, ip, time, status, bytesSent, request, referrer, userAgent);
  }

  lemma SliceKept(src: seq<u8>, pos: nat, s: seq<u8>, k: nat, e: nat)
    requires pos <= k <= |src| && |s| > 0 && ScanSliceEnd(src, pos, s) == Some(e) && e <= k
    ensures ScanSliceEnd(src[..k], pos, s) == Some(e) && pos + |s| <= e
    ensures Field(src[..k], pos, e - |s|) == Field(src, pos, e - |s|)
  {
    ScanSlicePrefix(src, pos, s, k);
    FieldPrefix(src, pos, e - |s|, k);
  }

  lemma ReferrerKept(src: seq<u8>, e3: nat, e4: nat, e6: nat, k: nat, e7: nat, e8: nat)
    requires e3 + |REQUEST_END| <= e4 <= e6 <= k <= |src|
    requires ScanSliceEnd(src, e6, REFERRER_END) == Some(e7) && ScanSliceEnd(src, e7, AGENT_END) == Some(e8) && e8 <= k
    ensures ScanSliceEnd(src[..k], e6, REFERRER_END) == Some(e7) && ScanSliceEnd(src[..k], e7, AGENT_END) == Some(e8)
    ensures Field(src[..k], e3, e4 - |REQUEST_END|) == Field(src, e3, e4 - |REQUEST_END|)
    ensures e6 + |REFERRER_END| <= e7 && e7 + |AGENT_END| <= e8
    ensures Field(src[..k], e6, e7 - |REFERRER_END|) == Field(src, e6, e7 - |REFERRER_END|)
    ensures Field(src[..k], e7, e8 - |AGENT_END|) == Field(src, e7, e8 - |AGENT_END|)
  {
    SliceKept(src, e6, REFERRER_END, k, e7);
    SliceKept(src, e7, AGENT_END, k, e8);
    FieldPrefix(src, e3, e4 - |REQUEST_END|, k);
  }

  lemma ReferrerFits(src: seq<u8>, e3: nat, e4: nat, e6: nat, ip: Ipv4, time: DateTime, status: nat,
                     bytesSent: nat, k: nat, e7: nat, e8: nat)
    requires e3 + |REQUEST_END| <= e4 <= e6 <= k <= |src|
    requires ScanSliceEnd(src, e6, REFERRER_END) == Some(e7) && ScanSliceEnd(src, e7, AGENT_END) == Some(e8) && e8 <= k
    ensures Cuts(ReferrerStage(src[..k], e3, e4, e6, ip, time, status, bytesSent),
                 ReferrerStage(src, e3, e4, e6, ip, time, status, bytesSent), k)
  {
    var request := Field(src, e3, e4 - |REQUEST_END|);
    var referrer := Field(src, e6, e7 - |REFERRER_END|);
    var userAgent := Field(src, e7, e8 - |AGENT_END|);
    ReferrerKept(src, e3, e4, e6, k, e7, e8);
    ReferrerOf(src[..k], e3, e4, e6, ip, time, status, bytesSent, e7, e8, request, referrer, userAgent);
    ReferrerOf(src, e3, e4, e6, ip, time, status, bytesSent, e7, e8, request, referrer, userAgent);
  }

  lemma ReferrerCut(src: seq<u8>, e3: nat, e4: nat, e6: nat, ip: Ipv4, time: DateTime, status: nat,
                    bytesSent: nat, k: nat)
    requires e3 + |REQUEST_END| <= e4 <= e6 <= k <= |src| && Cut(ScanSliceEnd(src, e6, REFERRER_END), k) == None
    ensures Cuts(ReferrerStage(src[..k], e3, e4, e6, ip, time, status, bytesSent),
                 ReferrerStage(src, e3, e4, e6, ip, time, status, bytesSent), k)
  {
    ScanSlicePrefix(src, e6, REFERRER_END, k);
    ReferrerMissing(src[..k], e3, e4, e6, ip, time, status, bytesSent);
  }

  lemma AgentCut(src: seq<u8>, e3: nat, e4: nat, e6: nat, ip: Ipv4, time: DateTime, status: nat,
                 bytesSent: nat, k: nat, e7: nat)
    requires e3 + |REQUEST_END| <= e4 <= e6 <= k <= |src| && ScanSliceEnd(src, e6, REFERRER_END) == Some(e7) && e7 <= k
    requires Cut(ScanSliceEnd(src, e7, AGENT_END), k) == None
    ensures Cuts(ReferrerStage(src[..k], e3, e4, e6, ip, time, status, bytesSent),
                 ReferrerStage(src, e3, e4, e6, ip, time, status, bytesSent), k)
  {
    ScanSlicePrefix(src, e6, REFERRER_END, k);
    ScanSlicePrefix(src, e7, AGENT_END, k);
    AgentMissing(src[..k], e3, e4, e6, ip, time, status, bytesSent, e7);
  }

  lemma ReferrerPrefix(src: seq<u8>, e3: nat, e4: nat, e6: nat, ip: Ipv4, time: DateTime, status: nat,
                       bytesSent: nat, k: nat)
    requires e3 + |REQUEST_END| <= e4 <= e6 <= k <= |src|
    ensures Cuts(ReferrerStage(src[..k], e3, e4, e6, ip, time, status, bytesSent),
                 ReferrerStage(src, e3, e4, e6, ip, time, status, bytesSent), k)
  {
    var e7 := ScanSliceEnd(src, e6, REFERRER_END);
    if e7.Some? && e7.value <= k {
      var e8 := ScanSliceEnd(src, e7.value, AGENT_END);
      if e8.Some? && e8.value <= k {
        ReferrerFits(src, e3, e4, e6, ip, time, status, bytesSent, k, e7.value, e8.value);
      } else {
        AgentCut(src, e3, e4, e6, ip, time, status, bytesSent, k, e7.value);
      }
    } else {
      ReferrerCut(src, e3, e4, e6, ip, time, status, bytesSent, k);
    }
  }

  lemma StagePrefix(src: seq<u8>, ph: Phase, k: nat)
    requires Within(src, ph) && Reach(ph) <= k <= |src|
    ensures Within(src[..k], ph) && Cuts(Stage(src[..k], ph), Stage(src, ph), k)
  {
    match ph
    case AtRequestor(start) => RequestorPrefix(src, start, k);
    case AtTimestamp(start, e1, ip) => TimestampPrefix(src, start, e1, ip, k);
    case AtRequest(e3, ip, time) => RequestPrefix(src, e3, ip, time, k);
    case AtBytes(e3, e4, e5, ip, time, status) => BytesPrefix(src, e3, e4, e5, ip, time, status, k);
    case AtReferrer(e3, e4, e6, ip, time, status, bytesSent) =>
      ReferrerPrefix(src, e3, e4, e6, ip, time, status, bytesSent, k);
  }

  /**
   * Reading a record from the first `k` bytes of the input gives what
   * reading it from the whole input gives, or the input runs out inside
   * the record.
   */
  lemma {:induction false} RunPrefix(src: seq<u8>, ph: Phase, k: nat)
    requires Within(src, ph) && Reach(ph) <= k <= |src|
    ensures Within(src[..k], ph)
    ensures Run(src[..k], ph) == Run(src, ph) || Run(src[..k], ph).outcome == Failed(StreamTruncated)
    decreases Order(ph)
  {
    StagePrefix(src, ph, k);
    match Stage(src[..k], ph)
    case Done(st) =>
    case Continue(next) =>
      if Stage(src[..k], ph) == Stage(src, ph) {
        RunPrefix(src, next, k);
      }
  }

  /** Cutting the input after the first byte of a record leaves the skipping of lone line breaks alone. */
  lemma SkipBlankPrefix(src: seq<u8>, pos: nat, k: nat)
    requires pos <= k <= |src| && SkipBlank(src, pos) < k
    ensures SkipBlank(src[..k], pos) == SkipBlank(src, pos)
  {
    assert forall i | 0 <= i < k :: src[..k][i] == src[i];
  }

  /**
   * Input that ends after a record has begun but before the byte that
   * would end its reading yields a truncated stream, not the clean end.
   */
  lemma CutShortTruncates(src: seq<u8>, pos: nat, k: nat)
    requires pos <= |src| && SkipBlank(src, pos) < k < ReadOneSpec(src, pos).pos
    ensures ReadOneSpec(src[..k], pos).outcome == Failed(StreamTruncated)
  {
    var start := SkipBlank(src, pos);
    SkipBlankPrefix(src, pos, k);
    RunPrefix(src, AtRequestor(start), k);
    assert ReadOneSpec(src[..k], pos) == Run(src[..k], AtRequestor(start));
  }
}

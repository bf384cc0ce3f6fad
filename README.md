# crabtrics access-log reader in Dafny

This project models the streaming reader of "combined" web-server access logs
in crabtrics (`src/access_logs.rs`) and proves what it reads.

`LogReader` pulls bytes one at a time from a source into a reusable scratch
buffer. It finds the fields of a line by scanning for their delimiters, and
cuts the fields out of the scratch buffer. The same file holds
`parse_log_date`, a fixed-grammar parser for `DD/Mon/YYYY:HH:MM:SS +HHMM`.

The modules follow the source:

- `Reader` is the imperative part. The class `LogReader` has fields for the
  source (a byte sequence with a cursor `pos`) and the `scratch` buffer.
  - Its methods `ReadByte`, `ScanUntil`, `ScanUntilSlice` and `ReadOne` have
    the loops of `read_byte`, `scan_until`, `scan_until_slice` and `read_one`.
  - Each method is proved against a pure specification function.
  - The invariant `Valid()` states that the scratch buffer holds exactly the
    source bytes read since the last clear.
- `Scan` holds the pure specifications of the two scans.
  - `ScanByteEnd` finds the first occurrence of a byte.
  - `ScanSliceEnd` is the naive restart search of `scan_until_slice`.
  - It also holds what the scans find and a counterexample showing the
    restart skipping an overlapping delimiter.
- `Records` is the pure specification of `read_one`.
  - `ReadOneSpec` skips lone line breaks, then runs the stages of a record
    (`Run`) one after the other.
  - A stage ends in an error, in an abort (the unwrapped timestamp), or in
    the entry built by `Finish`.
  - It also holds the split of the request line into method and path.
- `LogLine` writes log lines from their fields (`WriteLine`) and proves that
  `read_one` reads each field back.
- `LogDate` is `parse_log_date`: the components of the `time` crate's
  `parse_component` that it uses, written out by hand. It covers the
  separator checks, the trailing-data check, the panics on a cut-short
  text, and the conversion to a timestamp, with round-trip lemmas.
- `Decimal`, `Address` and `Utf8` model the library parsers the reader
  calls:
  - `str::parse` for `u16` and `u32`;
  - `str::parse::<IpAddr>`, restricted to IPv4;
  - `str::from_utf8`, as the well-formedness of UTF-8.
- `Bytes` holds the byte type and the ASCII constants.

The source is a finite byte sequence. Its only failure is running out of
bytes, as `read_exact`'s `UnexpectedEof`. Where `read_one` hands out borrowed
`&str` slices of the scratch buffer, the model hands out copies of the same
bytes.

Where the specification text and the code differ, the model follows the code:

- The request line is split at the first and second space byte (`split_once(' ')`), not at whitespace runs. So `GET  /x` has an empty path.
- A timestamp that does not parse is `.unwrap()`ed, so `read_one` aborts (`Aborted`) instead of returning a timestamp error.
- The delimiter scan's naive restart is observable. It can miss a delimiter that overlaps a partial match (`Scan.NaiveRestartMisses`), so a linear-time search would not behave the same.

## Model

| member | source | states |
|---|---|---|
| Reader.LogReader.constructor | src/access_logs.rs:33-38 | a new reader has read nothing and has an empty scratch buffer; the reader invariant holds |
| Reader.LogReader.Clear | src/access_logs.rs:42 | clearing empties the scratch buffer and leaves the source position alone |
| Reader.LogReader.ReadByte | src/access_logs.rs:98-103 | before the end, the next source byte is returned and appended to the scratch buffer, and the cursor moves by one; at the end, `UnexpectedEof` and nothing changes |
| Reader.LogReader.ScanUntil | src/access_logs.rs:105-112 | only bytes are appended, exactly those the specification scan consumes; on success the result is the last index, which holds `b`, and no byte appended before it is `b`; on failure the whole input is consumed |
| Reader.LogReader.ReadRest | src/access_logs.rs:119-124 | the inner `for` loop reads as far as the specification's matching attempt and reports whether all remaining delimiter bytes agreed |
| Reader.LogReader.ScanUntilSlice | src/access_logs.rs:114-128 | requires a non-empty delimiter; only bytes are appended, exactly those of the naive restart search; on success the buffer ends with the delimiter, the result is the buffer length minus the delimiter length, and the earlier contents are untouched |
| Reader.LogReader.Text | src/access_logs.rs:92-93 | a range of the scratch buffer is the field of the source at the matching positions |
| Reader.LogReader.Entry | src/access_logs.rs:76-94 | the entry built from the scratch buffer is the one the specification builds from the request line, referrer and user agent |
| Reader.LogReader.ReadRecord | src/access_logs.rs:54-55 | reading from the record's first byte on gives the outcome and the reader state of the specification's run |
| Reader.LogReader.ReadTimestamp | src/access_logs.rs:56-60 | skipping to `[` and reading the timestamp agrees with the specification from that stage on |
| Reader.LogReader.ReadRequest | src/access_logs.rs:60-66 | the request line and status agree with the specification from that stage on |
| Reader.LogReader.ReadBytes | src/access_logs.rs:67-70 | the byte count agrees with the specification from that stage on |
| Reader.LogReader.ReadLineEnd | src/access_logs.rs:71-94 | the referrer, user agent and built entry agree with the specification's last stage |
| Reader.LogReader.ReadOne | src/access_logs.rs:40-96 | `read_one`'s outcome, cursor and scratch buffer are those of `ReadOneSpec` on the input from the old cursor |
| Scan.ScanByteEnd | src/access_logs.rs:105-112 | a successful scan consumes at least one byte and stops within the input |
| Scan.MatchRest | src/access_logs.rs:119-124 | a full match ends exactly the remaining delimiter length further on; a mismatch consumes at least one byte and at most that length; running out means fewer bytes are left than the delimiter still needs |
| Scan.ScanSliceEnd | src/access_logs.rs:114-128 | a successful search stops within the input, at least the delimiter's length past its start |
| Scan.ScanByteFound | src/access_logs.rs:105-112 | when found, the scan stops right after the first `b`, and no `b` comes before it; otherwise there is no `b` left |
| Scan.ScanByteOver | src/access_logs.rs:105-112 | on a text that holds no `b` followed by `b`, the scan stops right after that `b` |
| Scan.ScanBytePrefix | src/access_logs.rs:100-112 | a byte scan over the first `k` bytes finds what the full scan finds within them, and otherwise runs out |
| Scan.MatchRestRead | src/access_logs.rs:119-124 | the inner match attempt agrees byte by byte up to its end; a mismatch is at the byte it consumed last; running out means every byte left agreed |
| Scan.ScanSliceFound | src/access_logs.rs:114-128 | a successful delimiter scan stops right after an occurrence of the delimiter |
| Scan.ScanSliceSteps | src/access_logs.rs:117-124 | after the first delimiter byte is found: a full match ends the search, running out ends it with nothing, and a mismatch restarts the search after the mismatching byte |
| Scan.ScanSliceNoStart | src/access_logs.rs:118 | no first delimiter byte means no delimiter |
| Scan.ScanSliceOver | src/access_logs.rs:114-128 | on a text without the delimiter's first byte, followed by the delimiter, the scan stops right after the delimiter |
| Scan.ScanSlicePrefix | src/access_logs.rs:114-128 | a delimiter scan over the first `k` bytes finds what the full scan finds within them, and otherwise runs out |
| Scan.ScanPairOver | src/access_logs.rs:114-128 | for a two-byte delimiter, on a text that holds no occurrence of it and does not end with its first byte, followed by the delimiter, the scan stops right after the delimiter; the naive restart loses nothing there, and `NaiveRestartMisses` is the case of a text ending with the first byte |
| Scan.NaiveRestartMisses | src/access_logs.rs:117-124 | on `""` followed by a line break, the search for `"` and a line break finds nothing, although the delimiter occurs at offset 1 |
| Records.SplitOnce | src/access_logs.rs:80-81 | `split_once` fails exactly when the byte is absent; otherwise the text is the front, the byte and the back, and the front holds no such byte |
| Records.SplitOnceAt | src/access_logs.rs:80-81 | a text whose front holds no `b` splits right after that front |
| Records.RequestTargetSpec | src/access_logs.rs:77-83 | an empty request line or status 400 gives an empty method and path; otherwise the line is malformed exactly when it holds fewer than two spaces |
| Records.RequestTarget | src/access_logs.rs:77-83 | for a non-empty request line and a status other than 400, a split gives a method and a path that hold no space, and the line starts with method, space, path, space |
| Records.RequestTargetOf | src/access_logs.rs:77-83 | a method and a path without spaces, each followed by a space, are what a request line of a status other than 400 splits into |
| Records.FieldIsSlice | src/access_logs.rs:55 | the bytes collected between two positions are the input's slice between them |
| Records.SkipBlank | src/access_logs.rs:41-48 | every skipped byte is a line break, and the byte where skipping stops is not one |
| Records.ReadOneSpec | src/access_logs.rs:40-96 | the reader never moves back; the clean end of the stream and a truncated record both leave the cursor at the end of the input |
| Records.EndOfStreamIffBlank | src/access_logs.rs:41-52 | the clean end of the stream is reported exactly when only line breaks are left |
| Records.BlankLineSkipped | src/access_logs.rs:44-48 | a lone line break where a record would start is skipped, and reading goes on from the next byte |
| Records.RequestorStage | src/access_logs.rs:54-55 | the requestor stage ends in a non-clean outcome or hands over to the timestamp with the same start |
| Records.Requestor | src/access_logs.rs:55 | non-UTF-8 text and a text that is not an address are errors other than truncation; otherwise reading goes on with the address |
| Records.TimestampStage | src/access_logs.rs:56-59 | the timestamp stage ends in a non-clean outcome or hands over to the request at or after the requestor's end |
| Records.Timestamp | src/access_logs.rs:59 | a timestamp that does not parse aborts, with the scratch buffer holding the timestamp text and its `] "`; otherwise reading goes on with the parsed timestamp |
| Records.RequestStage | src/access_logs.rs:61-64 | the request stage ends in a non-clean outcome or hands over to the byte count |
| Records.Status | src/access_logs.rs:63-66 | a status that is not UTF-8 or not a 16-bit unsigned number is an error other than truncation; otherwise reading goes on with it |
| Records.BytesStage | src/access_logs.rs:67-70 | the byte-count stage ends in a non-clean outcome or hands over to the referrer |
| Records.ByteCount | src/access_logs.rs:67-70 | a byte count that is not UTF-8 or not a 32-bit unsigned number is an error other than truncation; otherwise reading goes on with it |
| Records.ReferrerStage | src/access_logs.rs:71-74 | the last stage always ends the record, and never with the clean end of the stream |
| Records.Line | src/access_logs.rs:76-94 | the record ends after the user agent's delimiter, with the scratch buffer starting at the request line, and never as truncation or the clean end |
| Records.Stage | src/access_logs.rs:54-94 | each stage ends the record or hands over to a later stage, and the scratch buffer's start never moves back |
| Records.Run | src/access_logs.rs:54-94 | once a record has started, its reading never reports the clean end of the stream, and running out of input leaves the cursor at the end |
| Records.Finish | src/access_logs.rs:76-94 | an entry is built exactly when the request line, referrer and user agent are UTF-8 and the request line splits; the entry holds the fields as read; otherwise the outcome is an error other than truncation |
| Records.RequestorMissing | src/access_logs.rs:54 | no ` - ` after the first byte means a truncated record |
| Records.RequestorRead | src/access_logs.rs:54-55 | when ` - ` is found, the requestor is checked on exactly the bytes before it |
| Records.BracketMissing | src/access_logs.rs:56 | no `[` means a truncated record |
| Records.TimestampMissing | src/access_logs.rs:58 | no `] "` after `[` means a truncated record |
| Records.TimestampRead | src/access_logs.rs:56-59 | the timestamp is parsed from exactly the bytes between `[` and `] "`; the identity bytes before `[` are not looked at |
| Records.RequestMissing | src/access_logs.rs:61 | no `" ` after the timestamp means a truncated record |
| Records.StatusMissing | src/access_logs.rs:64 | no space after the request line means a truncated record |
| Records.StatusRead | src/access_logs.rs:61-66 | the status is parsed from exactly the bytes between `" ` and the next space |
| Records.BytesMissing | src/access_logs.rs:68 | no ` "` after the status means a truncated record |
| Records.BytesRead | src/access_logs.rs:67-70 | the byte count is parsed from exactly the bytes up to ` "` |
| Records.ReferrerMissing | src/access_logs.rs:72 | no `" "` after the byte count means a truncated record |
| Records.AgentMissing | src/access_logs.rs:74 | no `"` and line break after the referrer means a truncated record |
| Records.LineStage | src/access_logs.rs:71-94 | with both delimiters found, the last stage builds the entry from the bytes between them |
| Records.StagePrefix | src/access_logs.rs:54-94 | a stage run on the first `k` bytes of the input does what it does on the whole input, having read no further than `k`, or it ends the record as truncated |
| Records.RunPrefix | src/access_logs.rs:54-94 | reading a record from the first `k` bytes of the input gives what reading it from the whole input gives, or a truncated record |
| Records.CutShortTruncates | src/access_logs.rs:40-96 | input that ends after a record's first byte and before the byte that ends its reading gives a truncated stream, not the clean end |
| Records.LineRead | src/access_logs.rs:71-94 | the same, stated for the rest of the run |
| Decimal.Accumulate | src/access_logs.rs:65-70 | the digit-by-digit accumulation succeeds exactly when every byte is a digit and the value stays within the maximum, and it yields that value |
| Decimal.ParseUnsigned | src/access_logs.rs:65-70 | `str::parse` for an unsigned type accepts exactly an optional `+` and at least one digit whose value is at most the type's maximum, and it yields that value |
| Decimal.ParseText | src/access_logs.rs:65-70 | the decimal text of a number, with or without `+`, parses back to it exactly when it fits the type |
| Decimal.ParseWithLeadingZeros | src/access_logs.rs:65-70 | leading zeros do not change the parsed value |
| Decimal.CanonicalIsText | src/access_logs.rs:65-70 | a digit text without a leading zero is the decimal text of its value |
| Decimal.TextIsCanonical | src/access_logs.rs:65-70 | the decimal text of a number is digits without a leading zero, denoting the number |
| Address.ReadOctet | src/access_logs.rs:55 | an octet read is the decimal text of a byte, followed by a non-digit or the end |
| Address.ParseFormat | src/access_logs.rs:55 | the dotted-quad text of any IPv4 address parses back to it |
| Address.ParseIpv4 | src/access_logs.rs:55 | any text that parses as an IPv4 address is the dotted-quad text of that address (no leading zeros, no extra bytes) |
| Address.FormatIsAscii | src/access_logs.rs:55 | the dotted-quad text is ASCII, starts with a digit and holds no space |
| Utf8.ValidUtf8 | src/access_logs.rs:55 | well-formed UTF-8 (as `str::from_utf8` accepts it, at lines 55, 66, 70, 76 and 92-93) never holds the bytes `C0`, `C1` or `F5` to `FF` |
| Utf8.AsciiIsValid | src/access_logs.rs:55 | ASCII text is well-formed UTF-8 |
| Utf8.SplitAtAscii | src/access_logs.rs:80-81 | well-formed UTF-8 split at an ASCII byte gives two well-formed texts |
| LogDate.FixedDigits | src/access_logs.rs:133 | a fixed-width read takes exactly its width from the front of the text |
| LogDate.Numeric | src/access_logs.rs:133 | a numeric component reads exactly its width, and otherwise fails naming that component |
| LogDate.ParseDay | src/access_logs.rs:133 | the day takes exactly two bytes, and otherwise fails naming the day |
| LogDate.ParseMonth | src/access_logs.rs:139 | the month takes exactly three bytes, which are the short name of the month read, and otherwise fails naming the month |
| LogDate.ParseYear | src/access_logs.rs:143 | the year takes four digits, after an optional sign, and otherwise fails naming the year |
| LogDate.ParseOffsetHour | src/access_logs.rs:161-164 | the offset hour takes two digits, after an optional sign, and otherwise fails naming the offset hour |
| LogDate.ParseComponent | src/access_logs.rs:133-166 | a component consumes at least one byte from the front of the text and leaves the rest as it was; its only failure names the component |
| LogDate.Separator | src/access_logs.rs:134-160 | an empty remainder aborts and nothing else does; the separator byte is consumed when it is there, and otherwise the failure names the component before it |
| LogDate.ToDateTime | src/access_logs.rs:170 | a conversion that succeeds gives a valid timestamp with exactly the collected date, time and offset; its only failure is an invalid date |
| LogDate.Complete | src/access_logs.rs:167-170 | any bytes left after the offset minutes are trailing data; success means none are left and the timestamp is valid; this step never aborts |
| LogDate.ParseFrom | src/access_logs.rs:133-170 | whatever part of the layout is walked, a timestamp it yields is valid |
| LogDate.ParseLogDate | src/access_logs.rs:131-171 | every timestamp `parse_log_date` yields is valid: a real calendar date, a time of day without leap seconds, and an offset of less than a day |
| LogDate.FixedDigitsValue | src/access_logs.rs:133 | a fixed-width component takes exactly its width of ASCII digits and yields their value |
| LogDate.FixedDigitsOfPad | src/access_logs.rs:133 | a zero-padded number reads back as itself |
| LogDate.FindMonth | src/access_logs.rs:137-139 | the month found is one whose short name is the text, and otherwise no month has that name |
| LogDate.ParseMonthName | src/access_logs.rs:137-139 | every short month name reads back as its month |
| LogDate.LowerCaseMonthRejected | src/access_logs.rs:137-139 | month names are case-sensitive: `may` is rejected |
| LogDate.ParseYearText | src/access_logs.rs:143 | a signed four-digit year reads back as itself |
| LogDate.ParseOffsetHourText | src/access_logs.rs:161-164 | a signed two-digit offset hour reads back as its sign and value |
| LogDate.Step | src/access_logs.rs:133-160 | after a component, the parse goes on when its separator follows, and otherwise fails naming that component |
| LogDate.DayRead | src/access_logs.rs:133-136 | a written day goes on to the month when `/` follows and otherwise fails with "missing / after day" |
| LogDate.MonthRead | src/access_logs.rs:139-142 | a written month goes on when `/` follows and otherwise fails with "missing / after month" |
| LogDate.YearRead | src/access_logs.rs:143-146 | a written year goes on when `:` follows and otherwise fails with "missing : after year" |
| LogDate.HourRead | src/access_logs.rs:147-150 | a written hour goes on when `:` follows and otherwise fails with "missing : after hour" |
| LogDate.MinuteRead | src/access_logs.rs:151-155 | a written minute goes on when `:` follows and otherwise fails with "missing : after minute" |
| LogDate.SecondRead | src/access_logs.rs:156-160 | a written second goes on when a space follows and otherwise fails with "missing ` ` after second" |
| LogDate.OffsetRead | src/access_logs.rs:161-170 | the written offset is read, and the rest is checked for trailing data and converted |
| LogDate.ParseWritten | src/access_logs.rs:131-170 | a written timestamp, followed by anything, reads back into its fields before the final checks |
| LogDate.ToDateTimeOfFields | src/access_logs.rs:170 | the fields of a valid timestamp convert back to it |
| LogDate.ParseOfFormat | src/access_logs.rs:131-170 | parsing a formatted valid timestamp followed by `rest` is the final check of its fields against `rest` |
| LogDate.ParseFormat | src/access_logs.rs:131-171 | every valid timestamp's text parses back to exactly that timestamp |
| LogDate.TrailingDataRejected | src/access_logs.rs:167-169 | any bytes after the offset minutes are rejected as trailing data |
| LogDate.SeparatorRefused | src/access_logs.rs:134-160 | for a valid timestamp, any wrong byte in place of any of the six separators fails naming the component before it |
| LogDate.CutShortAborts | src/access_logs.rs:134-158 | the text of a valid timestamp cut off right after any of its first six components aborts, because the separator check indexes an empty remainder |
| LogDate.StepAborts | src/access_logs.rs:134-158 | a component that uses up the whole text before its separator aborts the parse |
| LogDate.NoBracketInFormat | src/access_logs.rs:58 | a written timestamp holds no `]`, so the scan for `] "` stops right after it |
| LogLine.RequestorOfText | src/access_logs.rs:55 | the requestor stage accepts the dotted-quad text of any address and goes on with that address |
| LogLine.TimestampOfText | src/access_logs.rs:59 | the timestamp stage accepts the text of any valid timestamp and goes on with it |
| LogLine.StatusOfText | src/access_logs.rs:63-66 | the status stage accepts the decimal text of any 16-bit number |
| LogLine.CountOfText | src/access_logs.rs:67-70 | the byte-count stage accepts the decimal text of any 32-bit number |
| LogLine.StartsRecord | src/access_logs.rs:44-49 | a line that does not open with a line break starts a record at once |
| LogLine.RequestorScans | src/access_logs.rs:54-55 | in a written line, the scan for ` - ` stops right after the address, and the address is exactly the bytes before it |
| LogLine.TimestampScans | src/access_logs.rs:56-58 | in a written line, `[` is found after the identity, and `] "` right after the timestamp text |
| LogLine.RequestScans | src/access_logs.rs:61-64 | in a written line, `" ` is found after the request line, and the next space right after the status |
| LogLine.ByteCountScans | src/access_logs.rs:68 | in a written line, ` "` is found right after the byte count |
| LogLine.ReferrerScans | src/access_logs.rs:72-74 | in a written line, `" "` is found after the referrer, and `"` plus a line break after the user agent |
| LogLine.ReadWrittenFront | src/access_logs.rs:44-59 | the requestor and timestamp of a written line are read back, and reading goes on at its request line |
| LogLine.ReadWrittenBack | src/access_logs.rs:60-94 | from the request line on, the fields of a written line are read back and the record is finished with them |
| LogLine.ReadWrittenLine | src/access_logs.rs:40-96 | `read_one` at a written line stops right after its line break, with the outcome of checking the fields as written |
| LogLine.WriteLineAppends | src/access_logs.rs:40-96 | whatever follows a written line is kept unchanged after it |
| LogLine.ReadWrittenEntry | src/access_logs.rs:76-94 | a written line of UTF-8 texts whose request line is method, space, path, space, protocol reads back as the entry of exactly those fields |
| LogLine.WrittenLineCut | src/access_logs.rs:40-96 | a written line cut off after any of its bytes but the last is read as a truncated stream, never as the clean end of the stream |
| LogLine.ReadTwoLines | src/access_logs.rs:173-215 | a log of two such lines gives the first entry, then the second, then the clean end of the stream |

## Left out

- IPv6 requestors: `IpAddr` parsing is restricted to dotted-quad IPv4, so an IPv6 requestor reads as an invalid address.
- I/O errors other than running out of input (`anyhow::bail!(err)`), and the text of `anyhow` error messages: each failure is one of the `ReadError` kinds.
- Borrowed `&str` fields and their lifetimes: the entry holds copies of the scratch buffer's bytes.
- Panics are outcomes, not crashes: an unparsable timestamp in `read_one` is `Aborted`, and indexing an empty remainder in `parse_log_date` is `Panic`.
- LogDate.ParseComponent: the `time` crate checks the ranges of the hour, minute, second and offset while parsing each component. The model checks them all in the final conversion. On text whose components are out of range, the outcome of `parse_log_date` can differ in three ways. Where the crate reports `InvalidComponent` at the component, the model goes on and reports `InvalidDate` at the end. Or it reports `MissingSeparator` or `TrailingData` for a later byte. Or it aborts (`Panic`) on a later empty remainder. `read_one` aborts on every one of these outcomes.
- LogDate.SeparatorRefused, LogDate.CutShortAborts: stated for valid timestamps only, because of the ranges checked late. For an hour of 30, the crate fails at the hour with `InvalidComponent`. The model instead reports `MissingSeparator` after a later component, or aborts.
- Leap seconds (`:60`) are rejected. The conversion is to a calendar timestamp with an offset in minutes, not to an instant.
- `Reader.LogReader.ReadRecord`, `ReadTimestamp`, `ReadRequest`, `ReadBytes` and `ReadLineEnd` are the consecutive parts of `read_one`'s loop body, written as separate methods. Their scratch-buffer clears are those of lines 42, 57 and 60.
- LogLine.ReadTwoLines: the sample lines of the test at src/access_logs.rs:173-215 are not instantiated. The lemma states the test for any two lines of that shape, and `ReadWrittenEntry` states the entry each one gives.
- `src/main.rs` (directory walking, decompression, the database, report rendering) and `src/schema.rs` (database schema declarations) are not part of this model.

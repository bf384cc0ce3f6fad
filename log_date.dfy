/**
 * The access-log timestamp `DD/Mon/YYYY:HH:MM:SS +HHMM`, parsed component by
 * component against literal separators, with nothing allowed after the
 * offset. The components read as the `time` crate's default modifiers
 * read them: zero-padded fixed-width numbers, a case-sensitive three-letter
 * English month, a year and an offset hour with an optional sign.
 */
module LogDate {
  import opened Bytes
  import Decimal

  datatype Component = Day | Month | Year | Hour | Minute | Second | OffsetHour | OffsetMinute

  datatype DateError =
    | InvalidComponent(component: Component)   // the component's text is not there
    | MissingSeparator(after: Component)       // a wrong byte where a separator belongs
    | TrailingData                             // bytes after the offset minutes
    | InvalidDate                              // the fields name no calendar instant

  /**
   * Outcome of a parsing step. `Panic` is the abort of indexing the first
   * byte of an empty remainder (there is no separator byte to compare).
   */
  datatype Parse<+T> = Ok(value: T) | Err(error: DateError) | Panic {
    predicate IsFailure() {
      !Ok?
    }

    function PropagateFailure<U>(): Parse<U>
      requires !Ok?
    {
      if Err? then Err(error) else Panic
    }

    function Extract(): T
      requires Ok?
    {
      value
    }
  }

  /** A calendar date and time of day with its UTC offset in minutes. */
  datatype DateTime = DateTime(year: int, month: nat, day: nat,
                               hour: nat, minute: nat, second: nat,
                               offset: int)

  /** What the component parsers collect before the conversion to a timestamp. */
  datatype Fields = Fields(day: nat, month: nat, year: int, hour: nat, minute: nat, second: nat,
                           offsetNegative: bool, offsetHour: nat, offsetMinute: nat)

  function Pow10(n: nat): (r: nat)
    ensures r >= 1
  {
    if n == 0 then 1 else 10 * Pow10(n - 1)
  }

  /** The last `n` decimal digits of `v`, zero-padded: the text of a fixed-width component. */
  function Pad(v: nat, n: nat): (r: seq<u8>)
    ensures |r| == n
  {
    if n == 0 then [] else Pad(v / 10, n - 1) + [Digit(v % 10)]
  }

  /** Exactly `n` ASCII digits at the front of `s`, read one at a time: their value and the rest. */
  function FixedDigits(s: seq<u8>, n: nat): (r: Option<(nat, seq<u8>)>)
    ensures r.Some? ==> n <= |s| && r.value.1 == s[n..]
    decreases n
  {
    if n == 0 then Some((0, s))
    else match FixedDigits(s, n - 1)
      case None => None
      case Some(p) =>
        if |p.1| > 0 && IsDigit(p.1[0]) then Some((p.0 * 10 + DigitValue(p.1[0]), p.1[1..])) else None
  }

  /** A fixed-width numeric component: it fails only naming itself, and otherwise reads exactly `width` bytes. */
  function Numeric(s: seq<u8>, width: nat, c: Component): (r: Parse<(nat, seq<u8>)>)
    ensures r.Ok? ==> width <= |s| && r.value.1 == s[width..]
    ensures !r.Ok? ==> r == Err(InvalidComponent(c))
  {
    match FixedDigits(s, width)
    case None => Err(InvalidComponent(c))
    case Some(p) => Ok(p)
  }

  /** The day of the month: two digits, not `00`. */
  function ParseDay(s: seq<u8>): (r: Parse<(nat, seq<u8>)>)
    ensures r.Ok? ==> 2 <= |s| && r.value.1 == s[2..]
    ensures !r.Ok? ==> r == Err(InvalidComponent(Day))
  {
    var p :- Numeric(s, 2, Day);
    if p.0 == 0 then Err(InvalidComponent(Day)) else Ok(p)
  }

  /** The byte after a component must be `sep`; an empty remainder aborts. */
  function Separator(s: seq<u8>, sep: u8, after: Component): (r: Parse<seq<u8>>)
    ensures r == Panic <==> s == []
    ensures r.Ok? ==> s == [sep] + r.value
    ensures r.Err? ==> |s| > 0 && s[0] != sep && r.error == MissingSeparator(after)
  {
    if |s| == 0 then Panic
    else if s[0] != sep then Err(MissingSeparator(after))
    else Ok(s[1..])
  }

  /** `Jan` … `Dec` as ASCII bytes. */
  const MonthNames: seq<seq<u8>> := [
    [74, 97, 110], [70, 101, 98], [77, 97, 114], [65, 112, 114], [77, 97, 121], [74, 117, 110],
    [74, 117, 108], [65, 117, 103], [83, 101, 112], [79, 99, 116], [78, 111, 118], [68, 101, 99]]

  function MonthName(m: nat): (r: seq<u8>)
    requires 1 <= m <= 12
  {
    MonthNames[m - 1]
  }

  /** The first month from `m` on whose name is `name`, or 0. */
  function FindMonth(name: seq<u8>, m: nat): (r: nat)
    requires 1 <= m <= 13
    ensures r == 0 || (m <= r <= 12 && MonthName(r) == name)
    ensures r == 0 ==> forall k | m <= k <= 12 :: MonthName(k) != name
    decreases 13 - m
  {
    if m == 13 then 0 else if MonthName(m) == name then m else FindMonth(name, m + 1)
  }

  /** The month: its three-letter English name, matched case-sensitively. */
  function ParseMonth(s: seq<u8>): (r: Parse<(nat, seq<u8>)>)
    ensures r.Ok? ==> 3 <= |s| && r.value.1 == s[3..] && 1 <= r.value.0 <= 12 && MonthName(r.value.0) == s[..3]
    ensures !r.Ok? ==> r == Err(InvalidComponent(Month))
  {
    if |s| < 3 then Err(InvalidComponent(Month))
    else
      var m := FindMonth(s[..3], 1);
      if m == 0 then Err(InvalidComponent(Month)) else Ok((m, s[3..]))
  }

  predicate IsSign(b: u8) {
    b == PLUS || b == DASH
  }

  /** An optional sign: whether it is `-`, and the rest. */
  function OptSign(s: seq<u8>): (bool, seq<u8>) {
    if |s| > 0 && IsSign(s[0]) then (s[0] == DASH, s[1..]) else (false, s)
  }

  /** The year: an optional sign and four digits. */
  function ParseYear(s: seq<u8>): (r: Parse<(int, seq<u8>)>)
    ensures r.Ok? ==> 4 <= |s| && (r.value.1 == s[4..] || (5 <= |s| && IsSign(s[0]) && r.value.1 == s[5..]))
    ensures !r.Ok? ==> r == Err(InvalidComponent(Year))
  {
    var (negative, rest) := OptSign(s);
    var p :- Numeric(rest, 4, Year);
    var year: int := if negative then -(p.0 as int) else p.0;
    Ok((year, p.1))
  }

  /** The offset hour: an optional sign and two digits. */
  function ParseOffsetHour(s: seq<u8>): (r: Parse<(bool, nat, seq<u8>)>)
    ensures r.Ok? ==> 2 <= |s| && (r.value.2 == s[2..] || (3 <= |s| && IsSign(s[0]) && r.value.2 == s[3..]))
    ensures !r.Ok? ==> r == Err(InvalidComponent(OffsetHour))
  {
    var (negative, rest) := OptSign(s);
    var p :- Numeric(rest, 2, OffsetHour);
    Ok((negative, p.0, p.1))
  }

  /**
   * The layout `parse_log_date` walks through: each component in order and
   * the separator byte that must follow it, if any.
   */
  const Layout: seq<(Component, Option<u8>)> := [
    (Day, Some(SLASH)), (Month, Some(SLASH)), (Year, Some(COLON)), (Hour, Some(COLON)),
    (Minute, Some(COLON)), (Second, Some(SP)), (OffsetHour, None), (OffsetMinute, None)]

  /** `Parsed::new()`: nothing collected yet (every component is set before it is used). */
  const Unset := Fields(0, 0, 0, 0, 0, 0, false, 0, 0)

  /** `parse_component`: one component read from the front of `s` into the collected fields. */
  function ParseComponent(c: Component, s: seq<u8>, f: Fields): (r: Parse<(Fields, seq<u8>)>)
    ensures r.Ok? ==> |r.value.1| < |s| && r.value.1 == s[|s| - |r.value.1|..]
    ensures !r.Ok? ==> r == Err(InvalidComponent(c))
  {
    match c
    case Day => var p :- ParseDay(s); Ok((f.(day := p.0), p.1))
    case Month => var p :- ParseMonth(s); Ok((f.(month := p.0), p.1))
    case Year => var p :- ParseYear(s); Ok((f.(year := p.0), p.1))
    case Hour => var p :- Numeric(s, 2, Hour); Ok((f.(hour := p.0), p.1))
    case Minute => var p :- Numeric(s, 2, Minute); Ok((f.(minute := p.0), p.1))
    case Second => var p :- Numeric(s, 2, Second); Ok((f.(second := p.0), p.1))
    case OffsetHour => var p :- ParseOffsetHour(s); Ok((f.(offsetNegative := p.0, offsetHour := p.1), p.2))
    case OffsetMinute => var p :- Numeric(s, 2, OffsetMinute); Ok((f.(offsetMinute := p.0), p.1))
  }

  predicate IsLeapYear(y: int) {
    y % 4 == 0 && (y % 100 != 0 || y % 400 == 0)
  }

  function DaysInMonth(y: int, m: nat): nat
    requires 1 <= m <= 12
  {
    if m == 2 then (if IsLeapYear(y) then 29 else 28)
    else if m == 4 || m == 6 || m == 9 || m == 11 then 30
    else 31
  }

  /** The offset in minutes; the minutes take the sign of the hour. */
  function OffsetOf(f: Fields): int {
    var magnitude := f.offsetHour * 60 + f.offsetMinute;
    if f.offsetNegative then -magnitude else magnitude
  }

  /**
   * A timestamp the `time` crate represents: a calendar date, a time of
   * day without leap seconds, and an offset below 24 hours.
   */
  predicate Valid(t: DateTime) {
    && -9999 <= t.year <= 9999
    && 1 <= t.month <= 12
    && 1 <= t.day <= DaysInMonth(t.year, t.month)
    && t.hour <= 23 && t.minute <= 59 && t.second <= 59
    && -(23 * 60 + 59) <= t.offset <= 23 * 60 + 59
  }

  /** The conversion of the collected fields into a timestamp. */
  function ToDateTime(f: Fields): (r: Parse<DateTime>)
    ensures r.Ok? ==> Valid(r.value) && r.value.offset == OffsetOf(f)
    ensures r.Ok? ==> r.value.year == f.year && r.value.month == f.month && r.value.day == f.day
    ensures r.Ok? ==> r.value.hour == f.hour && r.value.minute == f.minute && r.value.second == f.second
    ensures !r.Ok? ==> r == Err(InvalidDate)
  {
    var t := DateTime(f.year, f.month, f.day, f.hour, f.minute, f.second, OffsetOf(f));
    if f.offsetHour <= 23 && f.offsetMinute <= 59 && Valid(t) then Ok(t) else Err(InvalidDate)
  }

  /** After the offset minutes: nothing may follow, and the fields must make a timestamp. */
  function Complete(f: Fields, rest: seq<u8>): (r: Parse<DateTime>)
    ensures rest != [] ==> r == Err(TrailingData)
    ensures r.Ok? ==> rest == [] && Valid(r.value)
    ensures r != Panic
  {
    if rest != [] then Err(TrailingData) else ToDateTime(f)
  }

  /**
   * The components of `steps`, each followed by its separator, then the
   * checks of `Complete` on what is left.
   */
  function ParseFrom(s: seq<u8>, steps: seq<(Component, Option<u8>)>, f: Fields): (r: Parse<DateTime>)
    ensures r.Ok? ==> Valid(r.value)
    decreases |steps|
  {
    if steps == [] then Complete(f, s)
    else
      var p :- ParseComponent(steps[0].0, s, f);
      var rest :- if steps[0].1.Some? then Separator(p.1, steps[0].1.value, steps[0].0) else Ok(p.1);
      ParseFrom(rest, steps[1..], p.0)
  }

  /** `parse_log_date`: the whole text must be one timestamp. */
  function ParseLogDate(bytes: seq<u8>): (r: Parse<DateTime>)
    ensures r.Ok? ==> Valid(r.value)
  {
    ParseFrom(bytes, Layout, Unset)
  }

  // ---------------------------------------------------------------------
  // The timestamp text, and what parsing it gives back

  function YearText(y: int): seq<u8> {
    if y < 0 then [DASH] + Pad(-y, 4) else Pad(y, 4)
  }

  function OffsetText(o: int): seq<u8> {
    var m := if o < 0 then -o else o;
    (if o < 0 then [DASH] else [PLUS]) + Pad(m / 60, 2) + Pad(m % 60, 2)
  }

  /** `DD/Mon/YYYY` */
  function DateText(t: DateTime): seq<u8>
    requires 1 <= t.month <= 12
  {
    Pad(t.day, 2) + [SLASH] + MonthName(t.month) + [SLASH] + YearText(t.year)
  }

  /** `HH:MM:SS` */
  function TimeText(t: DateTime): seq<u8> {
    Pad(t.hour, 2) + [COLON] + Pad(t.minute, 2) + [COLON] + Pad(t.second, 2)
  }

  /** The text the web server writes for a timestamp. */
  function FormatLogDate(t: DateTime): seq<u8>
    requires 1 <= t.month <= 12
  {
    DateText(t) + [COLON] + TimeText(t) + [SP] + OffsetText(t.offset)
  }

  /** The fields a timestamp is written with. */
  function FieldsOf(t: DateTime): Fields {
    var m := if t.offset < 0 then -t.offset else t.offset;
    Fields(t.day, t.month, t.year, t.hour, t.minute, t.second, t.offset < 0, m / 60, m % 60)
  }

  /** A padded component is digits that denote the number it was padded from. */
  lemma {:induction false} PadValue(v: nat, n: nat)
    requires v < Pow10(n)
    ensures AllDigits(Pad(v, n)) && Decimal.Value(Pad(v, n)) == v
  {
    if n > 0 {
      PadValue(v / 10, n - 1);
      assert Pad(v, n)[..n - 1] == Pad(v / 10, n - 1);
    }
  }

  /** Reading `n` digits one at a time: there are `n` digits at the front, and they denote the value. */
  lemma {:induction false} FixedDigitsValue(s: seq<u8>, n: nat)
    ensures FixedDigits(s, n) ==
              if |s| >= n && AllDigits(s[..n]) then Some((Decimal.Value(s[..n]), s[n..])) else None
  {
    if n > 0 {
      FixedDigitsValue(s, n - 1);
      if |s| >= n {
        var whole, front := s[..n], s[..n - 1];
        assert whole[..n - 1] == front;
        assert s[n - 1..][0] == whole[n - 1] && s[n - 1..][1..] == s[n..];
        assert AllDigits(whole) <==> AllDigits(front) && IsDigit(whole[n - 1]) by {
          assert forall i | 0 <= i < n - 1 :: front[i] == whole[i];
        }
      }
    }
  }

  /** A fixed-width component reads back the number it was padded from. */
  lemma FixedDigitsOfPad(v: nat, n: nat, rest: seq<u8>)
    requires v < Pow10(n)
    ensures FixedDigits(Pad(v, n) + rest, n) == Some((v, rest))
  {
    FixedDigitsValue(Pad(v, n) + rest, n);
    PadValue(v, n);
    assert (Pad(v, n) + rest)[..n] == Pad(v, n);
    assert (Pad(v, n) + rest)[n..] == rest;
  }

  /** The twelve month names are distinct. */
  lemma MonthNamesDistinct(i: nat, j: nat)
    requires 1 <= i < j <= 12
    ensures MonthName(i) != MonthName(j)
  {
    var a, b := MonthName(i), MonthName(j);
    assert a[0] != b[0] || a[1] != b[1] || a[2] != b[2];
  }

  /** Each month's name reads back as that month. */
  lemma ParseMonthName(m: nat, rest: seq<u8>)
    requires 1 <= m <= 12
    ensures ParseMonth(MonthName(m) + rest) == Ok((m, rest))
  {
    var s := MonthName(m) + rest;
    assert |MonthName(m)| == 3;
    assert s[..3] == MonthName(m);
    assert s[3..] == rest;
    FindMonthFirst(MonthName(m), 1, m);
  }

  /** The search stops at the first month whose name matches. */
  lemma {:induction false} FindMonthFirst(name: seq<u8>, from: nat, m: nat)
    requires 1 <= from <= m <= 12 && MonthName(m) == name
    ensures FindMonth(name, from) == m
    decreases m - from
  {
    if from < m {
      MonthNamesDistinct(from, m);
      FindMonthFirst(name, from + 1, m);
    }
  }

  /** Month names are matched case-sensitively: `may` is not a month. */
  lemma LowerCaseMonthRejected()
    ensures ParseMonth([109, 97, 121]) == Err(InvalidComponent(Month))
  {
    var s: seq<u8> := [109, 97, 121];
    assert s[..3] == s;
    forall k | 1 <= k <= 12 ensures MonthName(k) != s {
      assert MonthName(k)[0] != s[0] || MonthName(k)[1] != s[1] || MonthName(k)[2] != s[2];
    }
  }

  lemma SmallPowers()
    ensures Pow10(2) == 100 && Pow10(4) == 10000
  {
    assert Pow10(1) == 10;
    assert Pow10(3) == 1000;
  }

  lemma ParseYearText(y: int, rest: seq<u8>)
    requires -9999 <= y <= 9999
    ensures ParseYear(YearText(y) + rest) == Ok((y, rest))
  {
    SmallPowers();
    var magnitude: nat := if y < 0 then -y else y;
    FixedDigitsOfPad(magnitude, 4, rest);
    var s := YearText(y) + rest;
    if y < 0 {
      assert s == [DASH] + (Pad(magnitude, 4) + rest);
      assert OptSign(s) == (true, Pad(magnitude, 4) + rest);
    } else {
      PadValue(magnitude, 4);
      assert IsDigit(Pad(magnitude, 4)[0]);
      assert OptSign(s) == (false, s);
    }
  }

  lemma ParseOffsetHourText(negative: bool, h: nat, rest: seq<u8>)
    requires h < 100
    ensures ParseOffsetHour((if negative then [DASH] else [PLUS]) + Pad(h, 2) + rest) == Ok((negative, h, rest))
  {
    SmallPowers();
    FixedDigitsOfPad(h, 2, rest);
    var s := (if negative then [DASH] else [PLUS]) + Pad(h, 2) + rest;
    assert s[1..] == Pad(h, 2) + rest;
  }

  /** One component of the layout and its separator, read from `s`, leave `next` for the rest of the layout. */
  lemma Through(s: seq<u8>, k: nat, f: Fields, g: Fields, mid: seq<u8>, next: seq<u8>)
    requires k < |Layout| && ParseComponent(Layout[k].0, s, f) == Ok((g, mid))
    requires (if Layout[k].1.Some? then Separator(mid, Layout[k].1.value, Layout[k].0) else Ok(mid)) == Ok(next)
    ensures ParseFrom(s, Layout[k..], f) == ParseFrom(next, Layout[k + 1..], g)
  {
    assert Layout[k..][0] == Layout[k];
    assert Layout[k..][1..] == Layout[k + 1..];
  }

  /**
   * A component of the layout that is followed by a separator, read from
   * `s`, leaves `[b] + next`: the layout goes on with `next` when `b` is the
   * separator, and stops with `MissingSeparator` when it is not.
   */
  lemma Step(s: seq<u8>, k: nat, f: Fields, g: Fields, b: u8, next: seq<u8>)
    requires k < |Layout| && Layout[k].1.Some? && ParseComponent(Layout[k].0, s, f) == Ok((g, [b] + next))
    ensures ParseFrom(s, Layout[k..], f) == if b == Layout[k].1.value then ParseFrom(next, Layout[k + 1..], g)
                                            else Err(MissingSeparator(Layout[k].0))
  {
    assert Layout[k..][0] == Layout[k];
    assert Layout[k..][1..] == Layout[k + 1..];
    assert ([b] + next)[1..] == next;
  }

  // Each step of the layout reads back the text it is written as, up to its separator.

  lemma DayRead(d: nat, b: u8, next: seq<u8>, f: Fields)
    requires 1 <= d < 100
    ensures ParseFrom(Pad(d, 2) + ([b] + next), Layout, f)
              == if b == SLASH then ParseFrom(next, Layout[1..], f.(day := d)) else Err(MissingSeparator(Day))
  {
    SmallPowers();
    FixedDigitsOfPad(d, 2, [b] + next);
    Step(Pad(d, 2) + ([b] + next), 0, f, f.(day := d), b, next);
    assert Layout[0..] == Layout;
  }

  lemma MonthRead(m: nat, b: u8, next: seq<u8>, f: Fields)
    requires 1 <= m <= 12
    ensures ParseFrom(MonthName(m) + ([b] + next), Layout[1..], f)
              == if b == SLASH then ParseFrom(next, Layout[2..], f.(month := m)) else Err(MissingSeparator(Month))
  {
    ParseMonthName(m, [b] + next);
    Step(MonthName(m) + ([b] + next), 1, f, f.(month := m), b, next);
  }

  lemma YearRead(y: int, b: u8, next: seq<u8>, f: Fields)
    requires -9999 <= y <= 9999
    ensures ParseFrom(YearText(y) + ([b] + next), Layout[2..], f)
              == if b == COLON then ParseFrom(next, Layout[3..], f.(year := y)) else Err(MissingSeparator(Year))
  {
    ParseYearText(y, [b] + next);
    Step(YearText(y) + ([b] + next), 2, f, f.(year := y), b, next);
  }

  lemma HourRead(h: nat, b: u8, next: seq<u8>, f: Fields)
    requires h < 100
    ensures ParseFrom(Pad(h, 2) + ([b] + next), Layout[3..], f)
              == if b == COLON then ParseFrom(next, Layout[4..], f.(hour := h)) else Err(MissingSeparator(Hour))
  {
    SmallPowers();
    FixedDigitsOfPad(h, 2, [b] + next);
    Step(Pad(h, 2) + ([b] + next), 3, f, f.(hour := h), b, next);
  }

  lemma MinuteRead(m: nat, b: u8, next: seq<u8>, f: Fields)
    requires m < 100
    ensures ParseFrom(Pad(m, 2) + ([b] + next), Layout[4..], f)
              == if b == COLON then ParseFrom(next, Layout[5..], f.(minute := m)) else Err(MissingSeparator(Minute))
  {
    SmallPowers();
    FixedDigitsOfPad(m, 2, [b] + next);
    Step(Pad(m, 2) + ([b] + next), 4, f, f.(minute := m), b, next);
  }

  lemma SecondRead(sec: nat, b: u8, next: seq<u8>, f: Fields)
    requires sec < 100
    ensures ParseFrom(Pad(sec, 2) + ([b] + next), Layout[5..], f)
              == if b == SP then ParseFrom(next, Layout[6..], f.(second := sec)) else Err(MissingSeparator(Second))
  {
    SmallPowers();
    FixedDigitsOfPad(sec, 2, [b] + next);
    Step(Pad(sec, 2) + ([b] + next), 5, f, f.(second := sec), b, next);
  }

  lemma OffsetRead(negative: bool, h: nat, m: nat, rest: seq<u8>, f: Fields)
    requires h < 100 && m < 100
    ensures ParseFrom((if negative then [DASH] else [PLUS]) + Pad(h, 2) + (Pad(m, 2) + rest), Layout[6..], f)
            == Complete(f.(offsetNegative := negative, offsetHour := h, offsetMinute := m), rest)
  {
    SmallPowers();
    var g := f.(offsetNegative := negative, offsetHour := h);
    ParseOffsetHourText(negative, h, Pad(m, 2) + rest);
    Through((if negative then [DASH] else [PLUS]) + Pad(h, 2) + (Pad(m, 2) + rest), 6, f, g,
            Pad(m, 2) + rest, Pad(m, 2) + rest);
    FixedDigitsOfPad(m, 2, rest);
    Through(Pad(m, 2) + rest, 7, g, g.(offsetMinute := m), rest, rest);
    assert Layout[8..] == [];
  }

  lemma Regroup(a: seq<u8>, b: seq<u8>, c: seq<u8>)
    ensures (a + b) + c == a + (b + c)
  {
  }

  lemma DateLayout(t: DateTime, next: seq<u8>)
    requires 1 <= t.month <= 12
    ensures DateText(t) + next == Pad(t.day, 2) + ([SLASH] + (MonthName(t.month) + ([SLASH] + (YearText(t.year) + next))))
  {
    var d, m, y := Pad(t.day, 2), MonthName(t.month), YearText(t.year);
    Regroup(d + [SLASH] + m + [SLASH], y, next);
    Regroup(d + [SLASH] + m, [SLASH], y + next);
    Regroup(d + [SLASH], m, [SLASH] + (y + next));
    Regroup(d, [SLASH], m + ([SLASH] + (y + next)));
  }

  lemma TimeLayout(t: DateTime, next: seq<u8>)
    ensures TimeText(t) + next == Pad(t.hour, 2) + ([COLON] + (Pad(t.minute, 2) + ([COLON] + (Pad(t.second, 2) + next))))
  {
    var h, m, sec := Pad(t.hour, 2), Pad(t.minute, 2), Pad(t.second, 2);
    Regroup(h + [COLON] + m + [COLON], sec, next);
    Regroup(h + [COLON] + m, [COLON], sec + next);
    Regroup(h + [COLON], m, [COLON] + (sec + next));
    Regroup(h, [COLON], m + ([COLON] + (sec + next)));
  }

  /** The written text of a timestamp followed by `rest`, grouped one step of the layout at a time. */
  function Written(t: DateTime, rest: seq<u8>): seq<u8>
    requires 1 <= t.month <= 12
  {
    var m := if t.offset < 0 then -t.offset else t.offset;
    Pad(t.day, 2) + ([SLASH] + (MonthName(t.month) + ([SLASH] + (YearText(t.year) + ([COLON] +
    (Pad(t.hour, 2) + ([COLON] + (Pad(t.minute, 2) + ([COLON] + (Pad(t.second, 2) + ([SP] +
    ((if t.offset < 0 then [DASH] else [PLUS]) + Pad(m / 60, 2) + (Pad(m % 60, 2) + rest)))))))))))))
  }

  lemma FormatLayout(t: DateTime, rest: seq<u8>)
    requires 1 <= t.month <= 12
    ensures FormatLogDate(t) + rest == Written(t, rest)
  {
    var m := if t.offset < 0 then -t.offset else t.offset;
    var sign := if t.offset < 0 then [DASH] else [PLUS];
    var d, tm := DateText(t), TimeText(t);
    var o := OffsetText(t.offset);
    var after := sign + Pad(m / 60, 2) + (Pad(m % 60, 2) + rest);
    Regroup(sign + Pad(m / 60, 2), Pad(m % 60, 2), rest);
    Regroup(d + [COLON] + tm + [SP], o, rest);
    Regroup(d + [COLON] + tm, [SP], o + rest);
    Regroup(d + [COLON], tm, [SP] + (o + rest));
    Regroup(d, [COLON], tm + ([SP] + (o + rest)));
    TimeLayout(t, [SP] + after);
    var hr := Pad(t.hour, 2) + ([COLON] + (Pad(t.minute, 2) + ([COLON] + (Pad(t.second, 2) + ([SP] + after)))));
    DateLayout(t, [COLON] + hr);
  }

  /** The ranges that keep every component of a timestamp within its written width. */
  predicate Writable(t: DateTime) {
    1 <= t.day < 100 && 1 <= t.month <= 12 && -9999 <= t.year <= 9999
    && t.hour < 100 && t.minute < 100 && t.second < 100 && -6000 < t.offset < 6000
  }

  /** The steps of the layout read the written text back into the timestamp's fields. */
  lemma ParseWritten(t: DateTime, rest: seq<u8>)
    requires Writable(t)
    ensures ParseFrom(Written(t, rest), Layout, Unset) == Complete(FieldsOf(t), rest)
  {
    var m := if t.offset < 0 then -t.offset else t.offset;
    var o := (if t.offset < 0 then [DASH] else [PLUS]) + Pad(m / 60, 2) + (Pad(m % 60, 2) + rest);
    var sec := Pad(t.second, 2) + ([SP] + o);
    var min := Pad(t.minute, 2) + ([COLON] + sec);
    var hr := Pad(t.hour, 2) + ([COLON] + min);
    var yr := YearText(t.year) + ([COLON] + hr);
    var mo := MonthName(t.month) + ([SLASH] + yr);
    var f1 := Unset.(day := t.day);
    var f2 := f1.(month := t.month);
    var f3 := f2.(year := t.year);
    var f4 := f3.(hour := t.hour);
    var f5 := f4.(minute := t.minute);
    var f6 := f5.(second := t.second);
    DayRead(t.day, SLASH, mo, Unset);
    MonthRead(t.month, SLASH, yr, f1);
    YearRead(t.year, COLON, hr, f2);
    HourRead(t.hour, COLON, min, f3);
    MinuteRead(t.minute, COLON, sec, f4);
    SecondRead(t.second, SP, o, f5);
    OffsetRead(t.offset < 0, m / 60, m % 60, rest, f6);
    assert f6.(offsetNegative := t.offset < 0, offsetHour := m / 60, offsetMinute := m % 60) == FieldsOf(t);
  }

  /** The separators of the layout, in order: those after the day, month, year, hour, minute and second. */
  const Separators: seq<u8> := [SLASH, SLASH, COLON, COLON, COLON, SP]

  /**
   * The written text of the components of a timestamp up to component `k`,
   * with the separators between them, followed by `tail`.
   */
  function Upto(t: DateTime, k: nat, tail: seq<u8>): seq<u8>
    requires 1 <= t.month <= 12 && k < 6
  {
    if k == 0 then
      Pad(t.day, 2) + tail
    else if k == 1 then
      Pad(t.day, 2) + ([SLASH] + (MonthName(t.month) + tail))
    else if k == 2 then
      Pad(t.day, 2) + ([SLASH] + (MonthName(t.month) + ([SLASH] + (YearText(t.year) + tail))))
    else if k == 3 then
      Pad(t.day, 2) + ([SLASH] + (MonthName(t.month) + ([SLASH] + (YearText(t.year) + ([COLON] + (Pad(t.hour, 2) + tail))))))
    else if k == 4 then
      Pad(t.day, 2) + ([SLASH] + (MonthName(t.month) + ([SLASH] + (YearText(t.year) + ([COLON] + (Pad(t.hour, 2) + ([COLON] + (Pad(t.minute, 2) + tail))))))))
    else
      Pad(t.day, 2) + ([SLASH] + (MonthName(t.month) + ([SLASH] + (YearText(t.year) + ([COLON] + (Pad(t.hour, 2) + ([COLON] + (Pad(t.minute, 2) + ([COLON] + (Pad(t.second, 2) + tail))))))))))
  }

  /**
   * A valid timestamp written correctly up to component `k` and followed
   * by any byte other than that component's separator is refused there,
   * whatever comes after.
   */
  lemma SeparatorRefused(t: DateTime, k: nat, b: u8, rest: seq<u8>)
    requires Valid(t) && k < 6 && b != Separators[k]
    ensures ParseLogDate(Upto(t, k, [b] + rest)) == Err(MissingSeparator(Layout[k].0))
  {
    assert DaysInMonth(t.year, t.month) <= 31;
    assert Writable(t);
    if k == 0 {
      RefusedAfterDay(t, b, rest);
    } else if k == 1 {
      RefusedAfterMonth(t, b, rest);
    } else if k == 2 {
      RefusedAfterYear(t, b, rest);
    } else if k == 3 {
      RefusedAfterHour(t, b, rest);
    } else if k == 4 {
      RefusedAfterMinute(t, b, rest);
    } else if k == 5 {
      RefusedAfterSecond(t, b, rest);
    }
  }

  lemma RefusedAfterDay(t: DateTime, b: u8, rest: seq<u8>)
    requires Writable(t) && b != SLASH
    ensures ParseLogDate(Pad(t.day, 2) + ([b] + rest)) == Err(MissingSeparator(Day))
  {
    DayRead(t.day, b, rest, Unset);
  }

  lemma RefusedAfterMonth(t: DateTime, b: u8, rest: seq<u8>)
    requires Writable(t) && b != SLASH
    ensures ParseLogDate(Pad(t.day, 2) + ([SLASH] + (MonthName(t.month) + ([b] + rest)))) == Err(MissingSeparator(Month))
  {
    var mo := MonthName(t.month) + ([b] + rest);
    var f1 := Unset.(day := t.day);
    DayRead(t.day, SLASH, mo, Unset);
    MonthRead(t.month, b, rest, f1);
  }

  lemma RefusedAfterYear(t: DateTime, b: u8, rest: seq<u8>)
    requires Writable(t) && b != COLON
    ensures ParseLogDate(Pad(t.day, 2) + ([SLASH] + (MonthName(t.month) + ([SLASH] + (YearText(t.year) + ([b] + rest)))))) == Err(MissingSeparator(Year))
  {
    var yr := YearText(t.year) + ([b] + rest);
    var mo := MonthName(t.month) + ([SLASH] + yr);
    var f1 := Unset.(day := t.day);
    var f2 := f1.(month := t.month);
    DayRead(t.day, SLASH, mo, Unset);
    MonthRead(t.month, SLASH, yr, f1);
    YearRead(t.year, b, rest, f2);
  }

  lemma RefusedAfterHour(t: DateTime, b: u8, rest: seq<u8>)
    requires Writable(t) && b != COLON
    ensures ParseLogDate(Pad(t.day, 2) + ([SLASH] + (MonthName(t.month) + ([SLASH] + (YearText(t.year) + ([COLON] + (Pad(t.hour, 2) + ([b] + rest)))))))) == Err(MissingSeparator(Hour))
  {
    var hr := Pad(t.hour, 2) + ([b] + rest);
    var yr := YearText(t.year) + ([COLON] + hr);
    var mo := MonthName(t.month) + ([SLASH] + yr);
    var f1 := Unset.(day := t.day);
    var f2 := f1.(month := t.month);
    var f3 := f2.(year := t.year);
    DayRead(t.day, SLASH, mo, Unset);
    MonthRead(t.month, SLASH, yr, f1);
    YearRead(t.year, COLON, hr, f2);
    HourRead(t.hour, b, rest, f3);
  }

  lemma RefusedAfterMinute(t: DateTime, b: u8, rest: seq<u8>)
    requires Writable(t) && b != COLON
    ensures ParseLogDate(Pad(t.day, 2) + ([SLASH] + (MonthName(t.month) + ([SLASH] + (YearText(t.year) + ([COLON] + (Pad(t.hour, 2) + ([COLON] + (Pad(t.minute, 2) + ([b] + rest)))))))))) == Err(MissingSeparator(Minute))
  {
    var min := Pad(t.minute, 2) + ([b] + rest);
    var hr := Pad(t.hour, 2) + ([COLON] + min);
    var yr := YearText(t.year) + ([COLON] + hr);
    var mo := MonthName(t.month) + ([SLASH] + yr);
    var f1 := Unset.(day := t.day);
    var f2 := f1.(month := t.month);
    var f3 := f2.(year := t.year);
    var f4 := f3.(hour := t.hour);
    DayRead(t.day, SLASH, mo, Unset);
    MonthRead(t.month, SLASH, yr, f1);
    YearRead(t.year, COLON, hr, f2);
    HourRead(t.hour, COLON, min, f3);
    MinuteRead(t.minute, b, rest, f4);
  }

  lemma RefusedAfterSecond(t: DateTime, b: u8, rest: seq<u8>)
    requires Writable(t) && b != SP
    ensures ParseLogDate(Pad(t.day, 2) + ([SLASH] + (MonthName(t.month) + ([SLASH] + (YearText(t.year) + ([COLON] + (Pad(t.hour, 2) + ([COLON] + (Pad(t.minute, 2) + ([COLON] + (Pad(t.second, 2) + ([b] + rest)))))))))))) == Err(MissingSeparator(Second))
  {
    var sec := Pad(t.second, 2) + ([b] + rest);
    var min := Pad(t.minute, 2) + ([COLON] + sec);
    var hr := Pad(t.hour, 2) + ([COLON] + min);
    var yr := YearText(t.year) + ([COLON] + hr);
    var mo := MonthName(t.month) + ([SLASH] + yr);
    var f1 := Unset.(day := t.day);
    var f2 := f1.(month := t.month);
    var f3 := f2.(year := t.year);
    var f4 := f3.(hour := t.hour);
    var f5 := f4.(minute := t.minute);
    DayRead(t.day, SLASH, mo, Unset);
    MonthRead(t.month, SLASH, yr, f1);
    YearRead(t.year, COLON, hr, f2);
    HourRead(t.hour, COLON, min, f3);
    MinuteRead(t.minute, COLON, sec, f4);
    SecondRead(t.second, b, rest, f5);
  }

  /** Reading the written text of a valid timestamp gives back its fields and whatever follows. */
  lemma ParseOfFormat(t: DateTime, rest: seq<u8>)
    requires Valid(t)
    ensures ParseLogDate(FormatLogDate(t) + rest) == Complete(FieldsOf(t), rest)
  {
    assert DaysInMonth(t.year, t.month) <= 31;
    assert Writable(t);
    FormatLayout(t, rest);
    ParseWritten(t, rest);
  }

  /** The fields a valid timestamp is written with convert back to it. */
  lemma ToDateTimeOfFields(t: DateTime)
    requires Valid(t)
    ensures ToDateTime(FieldsOf(t)) == Ok(t)
  {
    var m := if t.offset < 0 then -t.offset else t.offset;
    assert m == m / 60 * 60 + m % 60;
    assert OffsetOf(FieldsOf(t)) == t.offset;
  }

  /** Parsing the written text of a valid timestamp gives the timestamp back. */
  lemma ParseFormat(t: DateTime)
    requires Valid(t)
    ensures ParseLogDate(FormatLogDate(t)) == Ok(t)
  {
    ParseOfFormat(t, []);
    assert FormatLogDate(t) + [] == FormatLogDate(t);
    ToDateTimeOfFields(t);
  }

  /** Any byte after the offset minutes is refused. */
  lemma TrailingDataRejected(t: DateTime, rest: seq<u8>)
    requires Valid(t) && rest != []
    ensures ParseLogDate(FormatLogDate(t) + rest) == Err(TrailingData)
  {
    ParseOfFormat(t, rest);
  }

  /** The text before component `k` has been read and the component leaves nothing for its separator. */
  lemma StepAborts(s: seq<u8>, k: nat, f: Fields, g: Fields)
    requires k < |Layout| && Layout[k].1.Some? && ParseComponent(Layout[k].0, s, f) == Ok((g, []))
    ensures ParseFrom(s, Layout[k..], f) == Panic
  {
    assert Layout[k..][0] == Layout[k];
  }

  /**
   * A valid timestamp cut off right after component `k`, before its separator,
   * has no byte left to compare with the separator: the parse aborts
   * rather than failing.
   */
  lemma CutShortAborts(t: DateTime, k: nat)
    requires Valid(t) && k < 6
    ensures ParseLogDate(Upto(t, k, [])) == Panic
  {
    assert DaysInMonth(t.year, t.month) <= 31;
    assert Writable(t);
    if k == 0 {
      assert Pad(t.day, 2) + [] == Pad(t.day, 2);
      AbortsAfterDay(t);
    } else if k == 1 {
      assert MonthName(t.month) + [] == MonthName(t.month);
      AbortsAfterMonth(t);
    } else if k == 2 {
      assert YearText(t.year) + [] == YearText(t.year);
      AbortsAfterYear(t);
    } else if k == 3 {
      assert Pad(t.hour, 2) + [] == Pad(t.hour, 2);
      AbortsAfterHour(t);
    } else if k == 4 {
      assert Pad(t.minute, 2) + [] == Pad(t.minute, 2);
      AbortsAfterMinute(t);
    } else if k == 5 {
      assert Pad(t.second, 2) + [] == Pad(t.second, 2);
      AbortsAfterSecond(t);
    }
  }

  /** A component read up to the end of the text leaves nothing for its separator: the parse aborts. */
  lemma DayCut(d: nat, f: Fields)
    requires 1 <= d < 100
    ensures ParseFrom(Pad(d, 2), Layout, f) == Panic
  {
    SmallPowers();
    FixedDigitsOfPad(d, 2, []);
    assert Pad(d, 2) + [] == Pad(d, 2);
    StepAborts(Pad(d, 2), 0, f, f.(day := d));
    assert Layout[0..] == Layout;
  }

  lemma MonthCut(m: nat, f: Fields)
    requires 1 <= m <= 12
    ensures ParseFrom(MonthName(m), Layout[1..], f) == Panic
  {
    ParseMonthName(m, []);
    assert MonthName(m) + [] == MonthName(m);
    StepAborts(MonthName(m), 1, f, f.(month := m));
  }

  lemma YearCut(y: int, f: Fields)
    requires -9999 <= y <= 9999
    ensures ParseFrom(YearText(y), Layout[2..], f) == Panic
  {
    ParseYearText(y, []);
    assert YearText(y) + [] == YearText(y);
    StepAborts(YearText(y), 2, f, f.(year := y));
  }

  lemma HourCut(h: nat, f: Fields)
    requires h < 100
    ensures ParseFrom(Pad(h, 2), Layout[3..], f) == Panic
  {
    SmallPowers();
    FixedDigitsOfPad(h, 2, []);
    assert Pad(h, 2) + [] == Pad(h, 2);
    StepAborts(Pad(h, 2), 3, f, f.(hour := h));
  }

  lemma MinuteCut(min: nat, f: Fields)
    requires min < 100
    ensures ParseFrom(Pad(min, 2), Layout[4..], f) == Panic
  {
    SmallPowers();
    FixedDigitsOfPad(min, 2, []);
    assert Pad(min, 2) + [] == Pad(min, 2);
    StepAborts(Pad(min, 2), 4, f, f.(minute := min));
  }

  lemma SecondCut(sec: nat, f: Fields)
    requires sec < 100
    ensures ParseFrom(Pad(sec, 2), Layout[5..], f) == Panic
  {
    SmallPowers();
    FixedDigitsOfPad(sec, 2, []);
    assert Pad(sec, 2) + [] == Pad(sec, 2);
    StepAborts(Pad(sec, 2), 5, f, f.(second := sec));
  }

  lemma AbortsAfterDay(t: DateTime)
    requires Writable(t)
    ensures ParseLogDate(Pad(t.day, 2)) == Panic
  {
    DayCut(t.day, Unset);
  }

  lemma AbortsAfterMonth(t: DateTime)
    requires Writable(t)
    ensures ParseLogDate(Pad(t.day, 2) + ([SLASH] + (MonthName(t.month)))) == Panic
  {
    var mo := MonthName(t.month);
    var f1 := Unset.(day := t.day);
    DayRead(t.day, SLASH, mo, Unset);
    MonthCut(t.month, f1);
  }

  lemma AbortsAfterYear(t: DateTime)
    requires Writable(t)
    ensures ParseLogDate(Pad(t.day, 2) + ([SLASH] + (MonthName(t.month) + ([SLASH] + (YearText(t.year)))))) == Panic
  {
    var yr := YearText(t.year);
    var mo := MonthName(t.month) + ([SLASH] + yr);
    var f1 := Unset.(day := t.day);
    var f2 := f1.(month := t.month);
    DayRead(t.day, SLASH, mo, Unset);
    MonthRead(t.month, SLASH, yr, f1);
    YearCut(t.year, f2);
  }

  lemma AbortsAfterHour(t: DateTime)
    requires Writable(t)
    ensures ParseLogDate(Pad(t.day, 2) + ([SLASH] + (MonthName(t.month) + ([SLASH] + (YearText(t.year) + ([COLON] + (Pad(t.hour, 2)))))))) == Panic
  {
    var hr := Pad(t.hour, 2);
    var yr := YearText(t.year) + ([COLON] + hr);
    var mo := MonthName(t.month) + ([SLASH] + yr);
    var f1 := Unset.(day := t.day);
    var f2 := f1.(month := t.month);
    var f3 := f2.(year := t.year);
    DayRead(t.day, SLASH, mo, Unset);
    MonthRead(t.month, SLASH, yr, f1);
    YearRead(t.year, COLON, hr, f2);
    HourCut(t.hour, f3);
  }

  lemma AbortsAfterMinute(t: DateTime)
    requires Writable(t)
    ensures ParseLogDate(Pad(t.day, 2) + ([SLASH] + (MonthName(t.month) + ([SLASH] + (YearText(t.year) + ([COLON] + (Pad(t.hour, 2) + ([COLON] + (Pad(t.minute, 2)))))))))) == Panic
  {
    var mn := Pad(t.minute, 2);
    var hr := Pad(t.hour, 2) + ([COLON] + mn);
    var yr := YearText(t.year) + ([COLON] + hr);
    var mo := MonthName(t.month) + ([SLASH] + yr);
    var f1 := Unset.(day := t.day);
    var f2 := f1.(month := t.month);
    var f3 := f2.(year := t.year);
    var f4 := f3.(hour := t.hour);
    DayRead(t.day, SLASH, mo, Unset);
    MonthRead(t.month, SLASH, yr, f1);
    YearRead(t.year, COLON, hr, f2);
    HourRead(t.hour, COLON, mn, f3);
    MinuteCut(t.minute, f4);
  }

  lemma AbortsAfterSecond(t: DateTime)
    requires Writable(t)
    ensures ParseLogDate(Pad(t.day, 2) + ([SLASH] + (MonthName(t.month) + ([SLASH] + (YearText(t.year) + ([COLON] + (Pad(t.hour, 2) + ([COLON] + (Pad(t.minute, 2) + ([COLON] + (Pad(t.second, 2)))))))))))) == Panic
  {
    var sc := Pad(t.second, 2);
    var mn := Pad(t.minute, 2) + ([COLON] + sc);
    var hr := Pad(t.hour, 2) + ([COLON] + mn);
    var yr := YearText(t.year) + ([COLON] + hr);
    var mo := MonthName(t.month) + ([SLASH] + yr);
    var f1 := Unset.(day := t.day);
    var f2 := f1.(month := t.month);
    var f3 := f2.(year := t.year);
    var f4 := f3.(hour := t.hour);
    var f5 := f4.(minute := t.minute);
    DayRead(t.day, SLASH, mo, Unset);
    MonthRead(t.month, SLASH, yr, f1);
    YearRead(t.year, COLON, hr, f2);
    HourRead(t.hour, COLON, mn, f3);
    MinuteRead(t.minute, COLON, sc, f4);
    SecondCut(t.second, f5);
  }


  /** A padded component is ASCII digits only, whatever the number. */
  lemma {:induction false} PadDigits(v: nat, n: nat)
    ensures AllDigits(Pad(v, n))
  {
    if n > 0 {
      PadDigits(v / 10, n - 1);
      assert Pad(v, n) == Pad(v / 10, n - 1) + [Digit(v % 10)];
    }
  }

  /** A run of digits holds no `]`. */
  lemma NoBracketInDigits(s: seq<u8>)
    requires AllDigits(s)
    ensures RBRACKET !in s
  {
  }

  lemma NoBracketInPad(v: nat, n: nat)
    ensures RBRACKET !in Pad(v, n)
  {
    PadDigits(v, n);
    NoBracketInDigits(Pad(v, n));
  }

  /** The written timestamp holds no `]`, so the scan for the `] "` that ends it stops right after it. */
  lemma NoBracketInFormat(t: DateTime)
    requires 1 <= t.month <= 12
    ensures RBRACKET !in FormatLogDate(t)
  {
    var m := if t.offset < 0 then -t.offset else t.offset;
    NoBracketInPad(t.day, 2);
    NoBracketInPad(if t.year < 0 then -t.year else t.year, 4);
    assert RBRACKET !in MonthName(t.month);
    assert RBRACKET !in DateText(t);
    NoBracketInPad(t.hour, 2);
    NoBracketInPad(t.minute, 2);
    NoBracketInPad(t.second, 2);
    assert RBRACKET !in TimeText(t);
    NoBracketInPad(m / 60, 2);
    NoBracketInPad(m % 60, 2);
    assert RBRACKET !in OffsetText(t.offset);
  }

}

/** Timestamps in the `YYYY-MM-DD HH:MM:SS` form. The server formats
    `datetime.now()` with `strftime('%Y-%m-%d %H:%M:%S')`, SQLite's
    `CURRENT_TIMESTAMP` produces the same shape, and the chat card parses it
    back with `strptime` to show `HH:MM`. The store keeps the timestamp as
    text, so `ORDER BY timestamp` compares strings; `FormatOrder` shows that
    this text order is the chronological one. */
module Clock {
  import opened Wrappers
  import Text

  datatype DateTime = DateTime(year: int, month: int, day: int, hour: int, minute: int, second: int)

  predicate IsLeap(y: int) {
    (y % 4 == 0 && y % 100 != 0) || y % 400 == 0
  }

  function DaysInMonth(y: int, m: int): int {
    if m == 2 then (if IsLeap(y) then 29 else 28)
    else if m == 4 || m == 6 || m == 9 || m == 11 then 30
    else 31
  }

  /** The values Python's `datetime` constructor accepts. */
  predicate InRange(d: DateTime) {
    && 1 <= d.year <= 9999
    && 1 <= d.month <= 12
    && 1 <= d.day <= DaysInMonth(d.year, d.month)
    && 0 <= d.hour <= 23
    && 0 <= d.minute <= 59
    && 0 <= d.second <= 59
  }

  /** A clock reading: in range, with a four-digit year so that `%Y` writes
      exactly four digits. */
  predicate Valid(d: DateTime) {
    InRange(d) && d.year >= 1000
  }

  /** Chronological order on date-times, field by field from the second
      upwards. */
  predicate SecondNotAfter(a: DateTime, b: DateTime) {
    a.second <= b.second
  }

  predicate MinuteNotAfter(a: DateTime, b: DateTime) {
    a.minute < b.minute || (a.minute == b.minute && SecondNotAfter(a, b))
  }

  predicate HourNotAfter(a: DateTime, b: DateTime) {
    a.hour < b.hour || (a.hour == b.hour && MinuteNotAfter(a, b))
  }

  predicate DayNotAfter(a: DateTime, b: DateTime) {
    a.day < b.day || (a.day == b.day && HourNotAfter(a, b))
  }

  predicate MonthNotAfter(a: DateTime, b: DateTime) {
    a.month < b.month || (a.month == b.month && DayNotAfter(a, b))
  }

  /** `a` is not later than `b`. */
  predicate NotAfter(a: DateTime, b: DateTime) {
    a.year < b.year || (a.year == b.year && MonthNotAfter(a, b))
  }

  // ---------------------------------------------------------------------
  // Fixed-width decimal fields
  // ---------------------------------------------------------------------

  function Pow10(w: nat): (r: nat)
    ensures r >= 1
  {
    if w == 0 then 1 else 10 * Pow10(w - 1)
  }

  /** `n` written with exactly `w` digits, zero-padded on the left. */
  function Pad(n: nat, w: nat): (r: string)
    ensures |r| == w
    ensures forall k :: 0 <= k < w ==> Text.IsDigit(r[k])
  {
    if w == 0 then [] else Pad(n / 10, w - 1) + [Text.DigitChar(n % 10)]
  }

  predicate AllDigits(s: string) {
    forall k :: 0 <= k < |s| ==> Text.IsDigit(s[k])
  }

  /** The number a string of digits denotes. */
  function Value(s: string): (r: nat)
    requires AllDigits(s)
    ensures r < Pow10(|s|)
  {
    if |s| == 0 then 0 else Value(s[..|s| - 1]) * 10 + (s[|s| - 1] as int - '0' as int)
  }

  lemma {:induction false} ValuePad(n: nat, w: nat)
    requires n < Pow10(w)
    ensures Value(Pad(n, w)) == n
  {
    if w > 0 {
      ValuePad(n / 10, w - 1);
      var p := Pad(n, w);
      assert p[..w - 1] == Pad(n / 10, w - 1);
    }
  }

  lemma {:induction false} PadValue(s: string)
    requires AllDigits(s)
    ensures Pad(Value(s), |s|) == s
  {
    if |s| > 0 {
      var init := s[..|s| - 1];
      PadValue(init);
      assert Value(s) / 10 == Value(init);
      assert s == init + [s[|s| - 1]];
    }
  }

  lemma PadInjective(a: nat, b: nat, w: nat)
    requires a < Pow10(w) && b < Pow10(w)
    requires Pad(a, w) == Pad(b, w)
    ensures a == b
  {
    ValuePad(a, w);
    ValuePad(b, w);
  }

  // ---------------------------------------------------------------------
  // strftime / strptime
  // ---------------------------------------------------------------------

  /** `d.strftime('%Y-%m-%d %H:%M:%S')`, built from its last field
      backwards so that each stage is one separator-prefixed field followed
      by the rest. */
  function SecondPart(d: DateTime): string
    requires Valid(d)
  {
    ":" + Pad(d.second, 2)
  }

  function MinutePart(d: DateTime): string
    requires Valid(d)
  {
    ":" + Pad(d.minute, 2) + SecondPart(d)
  }

  function HourPart(d: DateTime): string
    requires Valid(d)
  {
    " " + Pad(d.hour, 2) + MinutePart(d)
  }

  function DayPart(d: DateTime): string
    requires Valid(d)
  {
    "-" + Pad(d.day, 2) + HourPart(d)
  }

  function MonthPart(d: DateTime): string
    requires Valid(d)
  {
    "-" + Pad(d.month, 2) + DayPart(d)
  }

  function Format(d: DateTime): (r: string)
    requires Valid(d)
    ensures |r| == 19
  {
    Pad(d.year, 4) + MonthPart(d)
  }

  predicate Shaped(ts: string) {
    && |ts| == 19
    && ts[4] == '-' && ts[7] == '-' && ts[10] == ' ' && ts[13] == ':' && ts[16] == ':'
    && AllDigits(ts[0..4]) && AllDigits(ts[5..7]) && AllDigits(ts[8..10])
    && AllDigits(ts[11..13]) && AllDigits(ts[14..16]) && AllDigits(ts[17..19])
  }

  function Fields(ts: string): DateTime
    requires Shaped(ts)
  {
    DateTime(Value(ts[0..4]), Value(ts[5..7]), Value(ts[8..10]),
             Value(ts[11..13]), Value(ts[14..16]), Value(ts[17..19]))
  }

  /** `datetime.strptime(ts, '%Y-%m-%d %H:%M:%S')` on zero-padded input;
      `None` stands for the `ValueError` it raises otherwise. */
  function Parse(ts: string): (r: Option<DateTime>)
    ensures r.Some? ==> InRange(r.value)
  {
    if Shaped(ts) && InRange(Fields(ts)) then Some(Fields(ts)) else None
  }

  /** At `i`, `s` holds a separator, a field of width `w`, then the rest. */
  lemma Piece(s: string, i: nat, sep: char, w: nat, field: string, rest: string)
    requires i <= |s| && |field| == w
    requires s[i..] == [sep] + field + rest
    ensures i + 1 + w <= |s| && s[i] == sep
    ensures s[i + 1..i + 1 + w] == field && s[i + 1 + w..] == rest
  {
    assert s[i..][0] == sep;
    assert s[i..][1..1 + w] == field;
    assert s[i..][1 + w..] == rest;
  }

  /** Where the separators and fields of a formatted stamp sit. */
  lemma FormatLayout(d: DateTime)
    requires Valid(d)
    ensures var ts := Format(d);
            && ts[4] == '-' && ts[7] == '-' && ts[10] == ' ' && ts[13] == ':' && ts[16] == ':'
            && ts[0..4] == Pad(d.year, 4) && ts[5..7] == Pad(d.month, 2) && ts[8..10] == Pad(d.day, 2)
            && ts[11..13] == Pad(d.hour, 2) && ts[14..16] == Pad(d.minute, 2) && ts[17..19] == Pad(d.second, 2)
  {
    var ts := Format(d);
    assert ts[0..4] == Pad(d.year, 4) && ts[4..] == MonthPart(d);
    Piece(ts, 4, '-', 2, Pad(d.month, 2), DayPart(d));
    Piece(ts, 7, '-', 2, Pad(d.day, 2), HourPart(d));
    Piece(ts, 10, ' ', 2, Pad(d.hour, 2), MinutePart(d));
    Piece(ts, 13, ':', 2, Pad(d.minute, 2), SecondPart(d));
    assert SecondPart(d) == [':'] + Pad(d.second, 2) + [];
    Piece(ts, 16, ':', 2, Pad(d.second, 2), []);
  }

  /** A formatted stamp has the canonical shape and its fields are `d`'s. */
  lemma FormatFields(d: DateTime)
    requires Valid(d)
    ensures Shaped(Format(d)) && Fields(Format(d)) == d
  {
    FormatLayout(d);
    ValuePad(d.year, 4);
    ValuePad(d.month, 2);
    ValuePad(d.day, 2);
    ValuePad(d.hour, 2);
    ValuePad(d.minute, 2);
    ValuePad(d.second, 2);
  }

  lemma ParseFormat(d: DateTime)
    requires Valid(d)
    ensures Parse(Format(d)) == Some(d)
  {
    FormatFields(d);
  }

  /** `strptime(ts, ...).strftime("%H:%M")`, the time shown on a chat card. */
  function HourMinute(ts: string): (r: Option<string>)
    ensures r.Some? <==> Parse(ts).Some?
    ensures r.Some? ==> r.value == ts[11..16]
  {
    match Parse(ts)
    case None => None
    case Some(d) =>
      PadValue(ts[11..13]);
      PadValue(ts[14..16]);
      assert ts[11..16] == ts[11..13] + ":" + ts[14..16];
      Some(Pad(d.hour, 2) + ":" + Pad(d.minute, 2))
  }

  lemma HourMinuteOfClock(d: DateTime)
    requires Valid(d)
    ensures HourMinute(Format(d)) == Some(Pad(d.hour, 2) + ":" + Pad(d.minute, 2))
  {
    ParseFormat(d);
  }

  // ---------------------------------------------------------------------
  // Text order is chronological order
  // ---------------------------------------------------------------------

  /** Comparing two strings whose first parts have equal length compares
      the first parts, and the rest only on a tie. */
  lemma {:induction false} LexConcat(x1: string, y1: string, x2: string, y2: string)
    requires |x1| == |x2|
    ensures Text.LexLe(x1 + y1, x2 + y2) <==>
              (x1 != x2 && Text.LexLe(x1, x2)) || (x1 == x2 && Text.LexLe(y1, y2))
    decreases |x1|
  {
    if |x1| == 0 {
      assert x1 + y1 == y1 && x2 + y2 == y2;
    } else {
      assert (x1 + y1)[0] == x1[0] && (x2 + y2)[0] == x2[0];
      assert (x1 + y1)[1..] == x1[1..] + y1;
      assert (x2 + y2)[1..] == x2[1..] + y2;
      LexConcat(x1[1..], y1, x2[1..], y2);
      assert x1 == [x1[0]] + x1[1..];
      assert x2 == [x2[0]] + x2[1..];
    }
  }

  lemma {:induction false} PadOrder(a: nat, b: nat, w: nat)
    requires a < Pow10(w) && b < Pow10(w)
    ensures Text.LexLe(Pad(a, w), Pad(b, w)) <==> a <= b
  {
    if w > 0 {
      var ha, hb := Pad(a / 10, w - 1), Pad(b / 10, w - 1);
      var la, lb := [Text.DigitChar(a % 10)], [Text.DigitChar(b % 10)];
      LexConcat(ha, la, hb, lb);
      PadOrder(a / 10, b / 10, w - 1);
      if ha == hb {
        PadInjective(a / 10, b / 10, w - 1);
      } else {
        if Text.LexLe(ha, hb) {
          assert a / 10 <= b / 10;
          assert a / 10 != b / 10;
        }
      }
    }
  }

  /** One separator-prefixed field: equal text means equal value, and the
      text order of the field is the numeric order. */
  lemma FieldOrder(a: nat, b: nat, w: nat, sep: string)
    requires a < Pow10(w) && b < Pow10(w)
    ensures sep + Pad(a, w) == sep + Pad(b, w) <==> a == b
    ensures Text.LexLe(sep + Pad(a, w), sep + Pad(b, w)) <==> a <= b
  {
    LexConcat(sep, Pad(a, w), sep, Pad(b, w));
    PadOrder(a, b, w);
    if sep + Pad(a, w) == sep + Pad(b, w) {
      assert Pad(a, w) == (sep + Pad(a, w))[|sep|..];
      assert Pad(b, w) == (sep + Pad(b, w))[|sep|..];
      PadInjective(a, b, w);
    }
  }

  /** A field followed by a rest: text order is "smaller field, or equal
      field and the rest in order". */
  lemma StageOrder(a: nat, b: nat, w: nat, sep: string, ra: string, rb: string)
    requires a < Pow10(w) && b < Pow10(w)
    ensures Text.LexLe(sep + Pad(a, w) + ra, sep + Pad(b, w) + rb) <==>
              a < b || (a == b && Text.LexLe(ra, rb))
  {
    LexConcat(sep + Pad(a, w), ra, sep + Pad(b, w), rb);
    FieldOrder(a, b, w, sep);
  }

  /** Comparing `Format(a)` and `Format(b)` as text agrees with comparing
      `a` and `b` in time, so `ORDER BY timestamp DESC` lists messages from
      newest to oldest. */
  lemma FormatOrder(a: DateTime, b: DateTime)
    requires Valid(a) && Valid(b)
    ensures Text.LexLe(Format(a), Format(b)) <==> NotAfter(a, b)
  {
    FieldOrder(a.second, b.second, 2, ":");
    assert Text.LexLe(SecondPart(a), SecondPart(b)) <==> SecondNotAfter(a, b);
    StageOrder(a.minute, b.minute, 2, ":", SecondPart(a), SecondPart(b));
    assert Text.LexLe(MinutePart(a), MinutePart(b)) <==> MinuteNotAfter(a, b);
    StageOrder(a.hour, b.hour, 2, " ", MinutePart(a), MinutePart(b));
    assert Text.LexLe(HourPart(a), HourPart(b)) <==> HourNotAfter(a, b);
    StageOrder(a.day, b.day, 2, "-", HourPart(a), HourPart(b));
    assert Text.LexLe(DayPart(a), DayPart(b)) <==> DayNotAfter(a, b);
    StageOrder(a.month, b.month, 2, "-", DayPart(a), DayPart(b));
    assert Text.LexLe(MonthPart(a), MonthPart(b)) <==> MonthNotAfter(a, b);
    StageOrder(a.year, b.year, 4, "", MonthPart(a), MonthPart(b));
    assert "" + Pad(a.year, 4) == Pad(a.year, 4);
    assert "" + Pad(b.year, 4) == Pad(b.year, 4);
  }
}

/** The calendar arithmetic behind renewing a loan: `new Date(due)` on the stored
    `due` value, a shift by whole days, and `toISOString().slice(0, 10)`. Dates
    are proleptic Gregorian calendar days counted in UTC. */
module Calendar {
  import opened Wrappers
  import opened Text
  import opened Json

  datatype Date = Date(year: int, month: int, day: int)

  predicate IsLeap(y: int) {
    (y % 4 == 0 && y % 100 != 0) || y % 400 == 0
  }

  function DaysInMonth(y: int, m: int): (r: int)
    requires 1 <= m <= 12
    ensures 28 <= r <= 31
  {
    if m == 2 then (if IsLeap(y) then 29 else 28)
    else if m == 4 || m == 6 || m == 9 || m == 11 then 30
    else 31
  }

  predicate Valid(d: Date) {
    1 <= d.month <= 12 && 1 <= d.day <= DaysInMonth(d.year, d.month)
  }

  /** 1970-01-01, the day of time value 0. */
  const Epoch := Date(1970, 1, 1)

  const MsPerDay := 86400000

  /** The largest time value a `Date` can hold, in milliseconds either side of the epoch. */
  const MaxTime := 8640000000000000

  function NextDay(d: Date): (r: Date)
    requires Valid(d)
    ensures Valid(r)
  {
    if d.day < DaysInMonth(d.year, d.month) then Date(d.year, d.month, d.day + 1)
    else if d.month < 12 then Date(d.year, d.month + 1, 1)
    else Date(d.year + 1, 1, 1)
  }

  function PrevDay(d: Date): (r: Date)
    requires Valid(d)
    ensures Valid(r)
  {
    if d.day > 1 then Date(d.year, d.month, d.day - 1)
    else if d.month > 1 then Date(d.year, d.month - 1, DaysInMonth(d.year, d.month - 1))
    else Date(d.year - 1, 12, 31)
  }

  /** The day before the day after, and the day after the day before, is the day itself. */
  lemma NextPrev(d: Date)
    requires Valid(d)
    ensures PrevDay(NextDay(d)) == d && NextDay(PrevDay(d)) == d
  {
  }

  /** The day `n` days after `d` (before it when `n` is negative), one day at a time. */
  function AddDays(d: Date, n: int): (r: Date)
    requires Valid(d)
    ensures Valid(r)
    decreases if n < 0 then -n else n
  {
    if n > 0 then AddDays(NextDay(d), n - 1)
    else if n < 0 then AddDays(PrevDay(d), n + 1)
    else d
  }

  lemma ShiftForward(d: Date, n: int)
    requires Valid(d)
    ensures AddDays(d, n) == AddDays(NextDay(d), n - 1)
  {
    if n <= 0 {
      NextPrev(d);
    }
  }

  lemma ShiftBackward(d: Date, n: int)
    requires Valid(d)
    ensures AddDays(d, n) == AddDays(PrevDay(d), n + 1)
  {
    if n >= 0 {
      NextPrev(d);
    }
  }

  /** Shifting by `a` days and then by `b` days is shifting by `a + b` days. */
  lemma {:induction false} AddDaysAdd(d: Date, a: int, b: int)
    requires Valid(d)
    ensures AddDays(AddDays(d, a), b) == AddDays(d, a + b)
    decreases if a < 0 then -a else a
  {
    if a > 0 {
      AddDaysAdd(NextDay(d), a - 1, b);
      ShiftForward(d, a + b);
    } else if a < 0 {
      AddDaysAdd(PrevDay(d), a + 1, b);
      ShiftBackward(d, a + b);
    }
  }

  /** Shifting back by as many days as were added gives the original day. */
  lemma AddDaysInverse(d: Date, n: int)
    requires Valid(d)
    ensures AddDays(AddDays(d, n), -n) == d
  {
    AddDaysAdd(d, n, -n);
  }

  // ---------------------------------------------------------------------------
  // Text of a date

  // ---------------------------------------------------------------------------
  // Day numbers: the time value of a date's midnight, in whole days

  function YearLength(y: int): int {
    if IsLeap(y) then 366 else 365
  }

  /** Days from 1970-01-01 to January 1 of year `y` (negative before 1970). */
  function DaysBefore(y: int): int
    decreases if y < 1970 then 1970 - y else y - 1970
  {
    if y == 1970 then 0
    else if y > 1970 then DaysBefore(y - 1) + YearLength(y - 1)
    else DaysBefore(y + 1) - YearLength(y)
  }

  /** Days from January 1 to the first of month `m` of year `y`. */
  function DaysBeforeMonth(y: int, m: int): int
    requires 1 <= m <= 12
  {
    [0, 31, 59, 90, 120, 151, 181, 212, 243, 273, 304, 334][m - 1] + (if m > 2 && IsLeap(y) then 1 else 0)
  }

  /** The number of the day `d` counted from 1970-01-01 (day 0). */
  function DayNumber(d: Date): int
    requires Valid(d)
  {
    DaysBefore(d.year) + DaysBeforeMonth(d.year, d.month) + d.day - 1
  }

  /** The last day a `Date` can hold on either side of the epoch: 8.64e15 ms is 1e8 days. */
  const MaxDay := MaxTime / MsPerDay

  /** A date whose midnight is a time value `Date` can hold. */
  predicate InTime(d: Date)
    requires Valid(d)
  {
    -MaxDay <= DayNumber(d) <= MaxDay
  }

  lemma YearStep(y: int)
    ensures DaysBefore(y + 1) == DaysBefore(y) + YearLength(y)
  {
  }

  lemma MonthStep(y: int, m: int)
    requires 1 <= m < 12
    ensures DaysBeforeMonth(y, m + 1) == DaysBeforeMonth(y, m) + DaysInMonth(y, m)
  {
  }

  /** The next day has the next day number. */
  lemma NextDayNumber(d: Date)
    requires Valid(d)
    ensures DayNumber(NextDay(d)) == DayNumber(d) + 1
  {
    if d.day == DaysInMonth(d.year, d.month) {
      if d.month < 12 {
        MonthStep(d.year, d.month);
      } else {
        YearStep(d.year);
      }
    }
  }

  /** Shifting by `n` days adds `n` to the day number. */
  lemma {:induction false} AddDaysNumber(d: Date, n: int)
    requires Valid(d)
    ensures DayNumber(AddDays(d, n)) == DayNumber(d) + n
    decreases if n < 0 then -n else n
  {
    if n > 0 {
      NextDayNumber(d);
      AddDaysNumber(NextDay(d), n - 1);
    } else if n < 0 {
      NextPrev(d);
      NextDayNumber(PrevDay(d));
      AddDaysNumber(PrevDay(d), n + 1);
    }
  }

  /** Each year between 1970 and `y` adds 365 or 366 days. */
  lemma {:induction false} DaysBeforeBound(y: int)
    ensures y >= 1970 ==> 365 * (y - 1970) <= DaysBefore(y) <= 366 * (y - 1970)
    ensures y < 1970 ==> 366 * (y - 1970) <= DaysBefore(y) <= 365 * (y - 1970)
    decreases if y < 1970 then 1970 - y else y - 1970
  {
    if y > 1970 {
      DaysBeforeBound(y - 1);
    } else if y < 1970 {
      DaysBeforeBound(y + 1);
    }
  }

  /** A date within 273000 years of 1970 is in the time range. */
  lemma NearDateInTime(d: Date)
    requires Valid(d) && -273000 <= d.year - 1970 <= 273000
    ensures InTime(d)
  {
    DaysBeforeBound(d.year);
  }

  /** A date in the time range has a year `toISOString` can write (six digits). */
  lemma InTimeYear(d: Date)
    requires Valid(d) && InTime(d)
    ensures -1000000 < d.year < 1000000
  {
    DaysBeforeBound(d.year);
  }

  function Pow10(w: nat): (r: nat)
    ensures r >= 1
  {
    if w == 0 then 1 else 10 * Pow10(w - 1)
  }

  /** `n` in exactly `w` decimal digits, padded with leading zeros. */
  function PadDigits(n: nat, w: nat): (r: string)
    requires n < Pow10(w)
    ensures |r| == w && AllDigits(r)
  {
    if w == 0 then "" else PadDigits(n / 10, w - 1) + [DigitChar(n % 10)]
  }

  lemma {:induction false} PadDigitsValue(n: nat, w: nat)
    requires n < Pow10(w)
    ensures DigitsValue(PadDigits(n, w)) == n
  {
    if w > 0 {
      PadDigitsValue(n / 10, w - 1);
      var ds := PadDigits(n, w);
      assert ds[..|ds| - 1] == PadDigits(n / 10, w - 1);
    }
  }

  lemma {:induction false} DigitsValueBound(ds: string)
    requires AllDigits(ds)
    ensures DigitsValue(ds) < Pow10(|ds|)
  {
    if ds != [] {
      DigitsValueBound(ds[..|ds| - 1]);
    }
  }

  /** The year as `toISOString` writes it: four digits for years 0 to 9999,
      otherwise a sign and six digits. */
  function YearText(y: int): (r: string)
    requires -1000000 < y < 1000000
  {
    if 0 <= y <= 9999 then PadDigits(y, 4)
    else if y < 0 then "-" + PadDigits(-y, 6)
    else "+" + PadDigits(y, 6)
  }

  /** The date part of `toISOString()`. */
  function IsoDate(d: Date): (r: string)
    requires Valid(d) && -1000000 < d.year < 1000000
  {
    YearText(d.year) + "-" + PadDigits(d.month, 2) + "-" + PadDigits(d.day, 2)
  }

  /** `toISOString().slice(0, 10)`: for a four-digit year the whole date, for a
      six-digit year the day is cut off. */
  function DueText(d: Date): (r: string)
    requires Valid(d) && -1000000 < d.year < 1000000
    ensures |r| == 10
  {
    IsoDate(d)[..10]
  }

  /** The year of a date-only string and what follows it. */
  function ParseYear(s: string): (r: Option<(int, string)>)
    ensures r.Some? ==> |r.value.1| < |s|
  {
    if |s| >= 7 && (s[0] == '+' || s[0] == '-') && AllDigits(s[1..7]) then
      var v: int := DigitsValue(s[1..7]);
      if s[0] == '-' && v == 0 then None
      else Some((if s[0] == '-' then -v else v, s[7..]))
    else if |s| >= 4 && AllDigits(s[..4]) then Some((DigitsValue(s[..4]), s[4..]))
    else None
  }

  /** A two-digit field `-NN`. */
  function ParseField(s: string): (r: Option<int>)
    ensures r.Some? ==> 0 <= r.value <= 99
  {
    if |s| == 3 && s[0] == '-' && AllDigits(s[1..3]) then
      DigitsValueBound(s[1..3]);
      Some(DigitsValue(s[1..3]))
    else None
  }

  /** `Date.parse` on the date-only forms of the ECMAScript date time string
      format: `YYYY`, `YYYY-MM` and `YYYY-MM-DD`, with six-digit signed years
      allowed; out-of-range months and days make the string invalid. */
  function ParseDateOnly(s: string): (r: Option<Date>)
    ensures r.Some? ==> Valid(r.value)
  {
    match ParseYear(s)
    case None => None
    case Some((y, rest)) =>
      if rest == [] then Some(Date(y, 1, 1))
      else if |rest| == 3 then
        match ParseField(rest)
        case Some(m) => if 1 <= m <= 12 then Some(Date(y, m, 1)) else None
        case None => None
      else if |rest| == 6 then
        match (ParseField(rest[..3]), ParseField(rest[3..]))
        case (Some(m), Some(dd)) =>
          if 1 <= m <= 12 && 1 <= dd <= DaysInMonth(y, m) then Some(Date(y, m, dd)) else None
        case _ => None
      else None
  }

  /** `String(v)` for an array element, as `Array.prototype.join` writes it. */
  function ElementText(v: Json): string {
    match v
    case JNull => ""
    case JBool(b) => if b then "true" else "false"
    case JNum(n) => IntToString(n)
    case JStr(s) => s
    case JArr(items) => JoinedText(items)
    case JObj(_) => "[object Object]"
  }

  /** `String(array)`: the elements joined by commas. */
  function JoinedText(items: seq<Json>): string {
    if items == [] then ""
    else if |items| == 1 then ElementText(items[0])
    else ElementText(items[0]) + "," + JoinedText(items[1..])
  }

  /** `new Date(text)`: a date-only string whose midnight the time range holds. */
  function TextDate(s: string): (r: Option<Date>)
    ensures r.Some? ==> Valid(r.value) && InTime(r.value)
  {
    match ParseDateOnly(s)
    case Some(d) => if InTime(d) then Some(d) else None
    case None => None
  }

  /** `new Date(value)` for a stored `due` value (`None` is `undefined`):
      the calendar day of the time value, or `None` for an invalid date. An
      array or object is first turned into its string. */
  function DueDate(due: Option<Json>): (r: Option<Date>)
    ensures r.Some? ==> Valid(r.value) && InTime(r.value)
  {
    match due
    case None => None
    case Some(JNull) => EpochDate()
    case Some(JBool(_)) => EpochDate()
    case Some(JNum(n)) =>
      if -MaxTime <= n <= MaxTime then
        var d := AddDays(Epoch, n / MsPerDay);
        AddDaysNumber(Epoch, n / MsPerDay);
        Some(d)
      else None
    case Some(JStr(s)) => TextDate(s)
    case Some(JArr(items)) => TextDate(JoinedText(items))
    case Some(JObj(_)) => TextDate("[object Object]")
  }

  /** `new Date([text])` reads the one-element array as its text. */
  lemma SingletonArrayDue(text: string)
    ensures DueDate(Some(JArr([JStr(text)]))) == DueDate(Some(JStr(text)))
  {
    assert JoinedText([JStr(text)]) == text;
  }

  /** Time value 0: `new Date(null)` and `new Date(false)`. */
  function EpochDate(): (r: Option<Date>)
    ensures r == Some(Epoch) && InTime(Epoch)
  {
    assert DayNumber(Epoch) == 0;
    Some(Epoch)
  }

  /** Milliseconds past midnight (UTC) of the stored `due`: a number keeps its
      own, `true` is the time value 1, and every other form (`null`, `false`
      and the parsed date-only texts) reads as a midnight. */
  function TimeOfDay(due: Option<Json>): (t: nat)
    ensures t < MsPerDay
    ensures t != 0 ==> due.Some? && (due.value.JNum? || due.value == JBool(true))
  {
    match due
    case Some(JNum(n)) => n % MsPerDay
    case Some(JBool(b)) => if b then 1 else 0
    case _ => 0
  }

  /** A time value in range lies on a day in range. */
  lemma TimeInRange(k: int, t: nat)
    requires t < MsPerDay && -MaxTime <= k * MsPerDay + t <= MaxTime
    ensures -MaxDay <= k <= MaxDay
  {
  }

  /** The new `due` text after shifting the stored one by `days`: `None` when
      the stored value is not a valid date, or when the shifted time value (the
      shifted day at the stored time of day) leaves the time range, where
      `setDate` gives NaN and `toISOString` throws. */
  function RenewedDue(due: Option<Json>, days: int): (r: Option<string>)
    ensures DueDate(due).None? ==> r.None?
    ensures DueDate(due).Some? ==>
      (r.Some? <==>
         -MaxTime <= (DayNumber(DueDate(due).value) + days) * MsPerDay + TimeOfDay(due) <= MaxTime)
    ensures DueDate(due).Some? && TimeOfDay(due) == 0 ==>
      (r.Some? <==> -MaxDay <= DayNumber(DueDate(due).value) + days <= MaxDay)
    ensures r.Some? ==>
      var e := AddDays(DueDate(due).value, days);
      -1000000 < e.year < 1000000 && r.value == DueText(e)
    ensures r.Some? ==> |r.value| == 10
  {
    match DueDate(due)
    case None => None
    case Some(d) =>
      var e := AddDays(d, days);
      AddDaysNumber(d, days);
      if -MaxTime <= DayNumber(e) * MsPerDay + TimeOfDay(due) <= MaxTime then
        TimeInRange(DayNumber(e), TimeOfDay(due));
        InTimeYear(e);
        Some(DueText(e))
      else None
  }

  /** A stored number is read on day `n / MsPerDay` counted from the epoch. */
  lemma NumberDueDay(n: int)
    requires -MaxTime <= n <= MaxTime
    ensures DueDate(Some(JNum(n))).Some?
    ensures DayNumber(DueDate(Some(JNum(n))).value) == n / MsPerDay
  {
    AddDaysNumber(Epoch, n / MsPerDay);
    assert DayNumber(Epoch) == 0;
  }

  /** The last millisecond of the time range cannot be moved a day on, but
      midnight of that last day can: the shift lands exactly on 8.64e15 ms. */
  lemma LastDayRenewal()
    ensures RenewedDue(Some(JNum(MaxTime - 1)), 1).None?
    ensures RenewedDue(Some(JNum(MaxTime - MsPerDay)), 1).Some?
  {
    NumberDueDay(MaxTime - 1);
    NumberDueDay(MaxTime - MsPerDay);
  }

  /** `new Date(true)` is one millisecond past the epoch, so it cannot be moved
      onto the last day of the range, while `new Date(false)` can. */
  lemma BooleanDueRenewal()
    ensures RenewedDue(Some(JBool(true)), MaxDay).None?
    ensures RenewedDue(Some(JBool(false)), MaxDay).Some?
  {
    assert MaxDay * MsPerDay == MaxTime;
    BooleanDueRange(true, MaxDay);
    BooleanDueRange(false, MaxDay);
  }

  /** A stored boolean renews iff its time value, shifted by whole days, stays
      in range. */
  lemma BooleanDueRange(b: bool, days: int)
    ensures RenewedDue(Some(JBool(b)), days).Some? <==>
      -MaxTime <= days * MsPerDay + (if b then 1 else 0) <= MaxTime
  {
    var due := Some(JBool(b));
    assert DueDate(due) == Some(Epoch);
    assert DayNumber(Epoch) == 0;
    assert TimeOfDay(due) == (if b then 1 else 0);
  }

  /** A renewed four-digit-year due text is read back as the shifted date. */
  lemma RenewReadBack(due: Option<Json>, days: int)
    requires RenewedDue(due, days).Some?
    requires 0 <= AddDays(DueDate(due).value, days).year <= 9999
    ensures DueDate(Some(JStr(RenewedDue(due, days).value))) == Some(AddDays(DueDate(due).value, days))
  {
    var e := AddDays(DueDate(due).value, days);
    ParseDueText(e);
    NearDateInTime(e);
  }

  /** The renewed text of a four-digit-year date reads back as that date. */
  lemma ParseDueText(d: Date)
    requires Valid(d) && 0 <= d.year <= 9999
    ensures ParseDateOnly(DueText(d)) == Some(d)
  {
    var y, m, dd := PadDigits(d.year, 4), PadDigits(d.month, 2), PadDigits(d.day, 2);
    var rest := "-" + m + "-" + dd;
    DueTextParts(d);
    PadDigitsValue(d.year, 4);
    PadDigitsValue(d.month, 2);
    PadDigitsValue(d.day, 2);
    YearThen(y, rest);
    FieldsParse(m, dd);
  }

  /** A four-digit year's `toISOString` date is the padded year, month and day. */
  lemma DueTextParts(d: Date)
    requires Valid(d) && 0 <= d.year <= 9999
    ensures DueText(d) == PadDigits(d.year, 4) + ("-" + PadDigits(d.month, 2) + "-" + PadDigits(d.day, 2))
  {
    var t := PadDigits(d.year, 4) + ("-" + PadDigits(d.month, 2) + "-" + PadDigits(d.day, 2));
    assert IsoDate(d) == t;
  }

  /** Four digits followed by a `-` are read as the year. */
  lemma YearThen(y: string, rest: string)
    requires |y| == 4 && AllDigits(y) && rest != [] && rest[0] == '-'
    ensures ParseYear(y + rest) == Some((DigitsValue(y), rest))
  {
    var t := y + rest;
    assert t[..4] == y && t[4..] == rest;
  }

  /** `-MM-DD` is read as the two fields. */
  lemma FieldsParse(m: string, dd: string)
    requires |m| == 2 && AllDigits(m) && |dd| == 2 && AllDigits(dd)
    ensures var rest := "-" + m + "-" + dd;
      |rest| == 6 && ParseField(rest[..3]) == Some(DigitsValue(m)) && ParseField(rest[3..]) == Some(DigitsValue(dd))
  {
    var rest := "-" + m + "-" + dd;
    assert rest[..3] == "-" + m && rest[3..] == "-" + dd;
    assert ("-" + m)[1..3] == m;
    assert ("-" + dd)[1..3] == dd;
  }

  lemma FebruaryText(day: int)
    requires 10 <= day <= 28
    ensures DueText(Date(2026, 2, day)) == "2026-02-" + [DigitChar(day / 10), DigitChar(day % 10)]
  {
    assert PadDigits(2026, 4) == "2026";
    assert PadDigits(2, 2) == "02";
    assert PadDigits(day, 2) == [DigitChar(day / 10), DigitChar(day % 10)];
  }

  /** The stored text `2026-02-12` is read as that day. */
  lemma ExampleDue()
    ensures DueDate(Some(JStr("2026-02-12"))) == Some(Date(2026, 2, 12))
  {
    var d := Date(2026, 2, 12);
    February12Text();
    ParseDueText(d);
    NearDateInTime(d);
  }

  lemma February12Text()
    ensures DueText(Date(2026, 2, 12)) == "2026-02-12"
  {
    FebruaryText(12);
    assert DigitChar(1) == '1' && DigitChar(2) == '2';
  }

  lemma February19Text()
    ensures DueText(Date(2026, 2, 19)) == "2026-02-19"
  {
    FebruaryText(19);
    assert DigitChar(1) == '1' && DigitChar(9) == '9';
  }

  /** A loan due on 2026-02-12 renewed by the default week is due on 2026-02-19. */
  lemma RenewExample()
    ensures RenewedDue(Some(JStr("2026-02-12")), 7) == Some("2026-02-19")
  {
    var d, e := Date(2026, 2, 12), Date(2026, 2, 19);
    ExampleDue();
    assert AddDays(d, 7) == e;
    NearDateInTime(e);
    February19Text();
  }
}

/**
  Civil dates from day counts, and the ISO-8601 instants rendered from them.

  The calendar is given independently of the arithmetic, by which day follows which.
*/
module CivilDate {
  import opened Common
  import opened LexOrder
  import opened Radix

  datatype Date = Date(year: int, month: int, day: int)

  /** Integer division as the source language has it: toward zero. */
  function TruncatedDiv(a: int, b: nat): int
    requires b > 0
  {
    if a >= 0 then a / b else -(-a / b)
  }

  function CivilFromDays(daysSinceEpoch: int): Date {
    var z := daysSinceEpoch + 719_468;
    var era := TruncatedDiv(if z >= 0 then z else z - 146_096, 146_097);
    var doe := z - era * 146_097;
    var yoe := TruncatedDiv(
      doe - TruncatedDiv(doe, 1_460) + TruncatedDiv(doe, 36_524) - TruncatedDiv(doe, 146_096), 365);
    var y := yoe + era * 400;
    var doy := doe - (365 * yoe + TruncatedDiv(yoe, 4) - TruncatedDiv(yoe, 100));
    var mp := TruncatedDiv(5 * doy + 2, 153);
    var day := doy - TruncatedDiv(153 * mp + 2, 5) + 1;
    var month := if mp < 10 then mp + 3 else mp - 9;
    var year := if month <= 2 then y + 1 else y;
    Date(year, month, day)
  }

  // ---------------------------------------------------------------------------
  // The Gregorian calendar
  // ---------------------------------------------------------------------------

  predicate IsLeap(year: int) {
    year % 4 == 0 && (year % 100 != 0 || year % 400 == 0)
  }

  function DaysInMonth(year: int, month: int): int {
    if month == 2 then (if IsLeap(year) then 29 else 28)
    else if month in {4, 6, 9, 11} then 30
    else 31
  }

  predicate ValidDate(d: Date) {
    1 <= d.month <= 12 && 1 <= d.day <= DaysInMonth(d.year, d.month)
  }

  function NextDay(d: Date): Date {
    if d.day < DaysInMonth(d.year, d.month) then d.(day := d.day + 1)
    else if d.month < 12 then Date(d.year, d.month + 1, 1)
    else Date(d.year + 1, 1, 1)
  }

  // ---------------------------------------------------------------------------
  // The arithmetic in parts
  // ---------------------------------------------------------------------------

  /** A day inside a 400-year era: full centuries, full four-year cycles, full years, days. */
  datatype Parts = Parts(century: nat, cycle: nat, year: nat, day: nat)

  predicate ValidParts(p: Parts) {
    && p.century <= 3 && p.cycle <= 24 && p.year <= 3
    && p.day < YearLength(p)
  }

  /** The length of the year from March to February that `p` lies in. */
  function YearLength(p: Parts): nat {
    if p.year == 3 && (p.cycle < 24 || p.century == 3) then 366 else 365
  }

  function DayOfEra(p: Parts): nat {
    36_524 * p.century + 1_461 * p.cycle + 365 * p.year + p.day
  }

  function YearOfEra(p: Parts): nat {
    100 * p.century + 4 * p.cycle + p.year
  }

  /** The month, from March, and the day of the month, of a day of the year that starts in March. */
  function MonthAndDay(doy: int): (int, int) {
    var mp := TruncatedDiv(5 * doy + 2, 153);
    (if mp < 10 then mp + 3 else mp - 9, doy - TruncatedDiv(153 * mp + 2, 5) + 1)
  }

  function DateOf(era: int, p: Parts): Date {
    var (month, day) := MonthAndDay(p.day);
    var y := YearOfEra(p) + era * 400;
    Date(if month <= 2 then y + 1 else y, month, day)
  }

  /** The year the day falls in, computed from the day of the era alone. */
  lemma YearFormula(p: Parts)
    requires ValidParts(p)
    ensures var doe := DayOfEra(p);
      && doe <= 146_096
      && (doe - doe / 1_460 + doe / 36_524 - doe / 146_096) / 365 == YearOfEra(p)
      && doe - doe / 1_460 + doe / 36_524 - doe / 146_096 >= 0
  {
    var doe := DayOfEra(p);
    var rest := 24 * p.century + p.cycle + 365 * p.year + p.day;
    var carry := if rest >= 1_460 then 1 else 0;
    Quotient(doe, 1_460, 25 * p.century + p.cycle + carry, rest - 1_460 * carry);
    if doe == 146_096 {
      Quotient(doe, 36_524, 4, 0);
      Quotient(doe, 146_096, 1, 0);
    } else {
      Quotient(doe, 36_524, p.century, doe - 36_524 * p.century);
      Quotient(doe, 146_096, 0, doe);
    }
    Quotient(doe - doe / 1_460 + p.century, 365, YearOfEra(p), p.day - carry);
  }

  lemma Quotient(x: int, b: nat, q: int, r: nat)
    requires x == b * q + r && r < b
    ensures x / b == q
  {
    DivModUnique(b, x / b, x % b, q, r);
  }

  lemma DayFormula(p: Parts)
    requires ValidParts(p)
    ensures DayOfEra(p) - (365 * YearOfEra(p) + YearOfEra(p) / 4 - YearOfEra(p) / 100) == p.day
  {
    assert YearOfEra(p) / 4 == 25 * p.century + p.cycle;
    assert YearOfEra(p) / 100 == p.century;
  }

  lemma EraFormula(z: int, era: int, doe: nat)
    requires z == era * 146_097 + doe && doe <= 146_096
    ensures TruncatedDiv(if z >= 0 then z else z - 146_096, 146_097) == era
  {
  }

  /** The date of a day count, through the parts of its day of the era. */
  lemma CivilParts(days: int, era: int, p: Parts)
    requires ValidParts(p) && days + 719_468 == era * 146_097 + DayOfEra(p)
    ensures CivilFromDays(days) == DateOf(era, p)
  {
    hide DayOfEra;
    hide YearOfEra;
    hide ValidParts;
    hide TruncatedDiv;
    var z, doe := days + 719_468, DayOfEra(p);
    YearFormula(p);
    EraFormula(z, era, doe);
    DayFormula(p);
    NonNegative(doe, 1_460);
    NonNegative(doe, 36_524);
    NonNegative(doe, 146_096);
    NonNegative(doe - doe / 1_460 + doe / 36_524 - doe / 146_096, 365);
    NonNegative(YearOfEra(p), 4);
    NonNegative(YearOfEra(p), 100);
  }

  lemma NonNegative(a: int, b: nat)
    requires a >= 0 && b > 0
    ensures TruncatedDiv(a, b) == a / b
  {
  }

  function PartsOf(doe: nat): (p: Parts)
    requires doe <= 146_096
    ensures ValidParts(p) && DayOfEra(p) == doe
  {
    var century := if doe == 146_096 then 3 else doe / 36_524;
    var inCentury := doe - 36_524 * century;
    var cycle := if inCentury == 36_524 then 24 else inCentury / 1_461;
    var inCycle := inCentury - 1_461 * cycle;
    var year := if inCycle == 1_460 then 3 else inCycle / 365;
    Parts(century, cycle, year, inCycle - 365 * year)
  }

  // ---------------------------------------------------------------------------
  // One day after another
  // ---------------------------------------------------------------------------

  const FIRST: Parts := Parts(0, 0, 0, 0)

  function NextParts(p: Parts): Parts
    requires ValidParts(p)
  {
    if p.day + 1 < YearLength(p) then p.(day := p.day + 1)
    else if p.year < 3 then Parts(p.century, p.cycle, p.year + 1, 0)
    else if p.cycle < 24 then Parts(p.century, p.cycle + 1, 0, 0)
    else Parts(p.century + 1, 0, 0, 0)
  }

  /** The day of the year on which each month from March starts. */
  const MONTH_STARTS: seq<nat> := [0, 31, 61, 92, 122, 153, 184, 214, 245, 275, 306, 337]

  lemma MonthIn(doy: int, mp: nat)
    requires mp <= 11 && 153 * mp <= 5 * doy + 2 < 153 * (mp + 1)
    ensures MonthAndDay(doy) == (if mp < 10 then mp + 3 else mp - 9, doy - MONTH_STARTS[mp] + 1)
  {
    hide TruncatedDiv;
    Quotient(5 * doy + 2, 153, mp, 5 * doy + 2 - 153 * mp);
    NonNegative(5 * doy + 2, 153);
    NonNegative(153 * mp + 2, 5);
    assert (153 * mp + 2) / 5 == MONTH_STARTS[mp];
  }

  lemma MonthTable(doy: int)
    requires 0 <= doy <= 365
    ensures MonthAndDay(doy) ==
      if doy < 31 then (3, doy + 1)
      else if doy < 61 then (4, doy - 30)
      else if doy < 92 then (5, doy - 60)
      else if doy < 122 then (6, doy - 91)
      else if doy < 153 then (7, doy - 121)
      else if doy < 184 then (8, doy - 152)
      else if doy < 214 then (9, doy - 183)
      else if doy < 245 then (10, doy - 213)
      else if doy < 275 then (11, doy - 244)
      else if doy < 306 then (12, doy - 274)
      else if doy < 337 then (1, doy - 305)
      else (2, doy - 336)
  {
    hide MonthAndDay;
    if doy < 31 {
      MonthIn(doy, 0);
    } else if doy < 61 {
      MonthIn(doy, 1);
    } else if doy < 92 {
      MonthIn(doy, 2);
    } else if doy < 122 {
      MonthIn(doy, 3);
    } else if doy < 153 {
      MonthIn(doy, 4);
    } else if doy < 184 {
      MonthIn(doy, 5);
    } else if doy < 214 {
      MonthIn(doy, 6);
    } else if doy < 245 {
      MonthIn(doy, 7);
    } else if doy < 275 {
      MonthIn(doy, 8);
    } else if doy < 306 {
      MonthIn(doy, 9);
    } else if doy < 337 {
      MonthIn(doy, 10);
    } else {
      MonthIn(doy, 11);
    }
  }

  /** The leap years are the ones whose February ends a long year of the era. */
  lemma LeapParts(era: int, p: Parts)
    requires ValidParts(p)
    ensures IsLeap(YearOfEra(p) + era * 400 + 1) <==> YearLength(p) == 366
  {
    var y := YearOfEra(p) + 1;
    LeapPeriod(y, era);
    YearInEra(p);
  }

  lemma LeapPeriod(y: int, era: int)
    ensures IsLeap(y + era * 400) <==> IsLeap(y)
  {
    Periodic(y, era * 100, 4);
    Periodic(y, era * 4, 100);
    Periodic(y, era, 400);
  }

  lemma Periodic(y: int, k: int, m: nat)
    requires m > 0
    ensures (y + k * m) % m == y % m
  {
    assert y + k * m == m * (y / m + k) + y % m;
    DivModUnique(m, (y + k * m) / m, (y + k * m) % m, y / m + k, y % m);
  }

  lemma YearInEra(p: Parts)
    requires ValidParts(p)
    ensures var y := YearOfEra(p) + 1; IsLeap(y) <==> YearLength(p) == 366
  {
    var y := YearOfEra(p) + 1;
    var w := 4 * p.cycle + p.year + 1;
    assert y == 4 * (25 * p.century + p.cycle) + (p.year + 1);
    assert y % 4 == 0 <==> p.year == 3;
    assert y == 100 * p.century + w && 1 <= w <= 100;
    assert y % 100 == 0 <==> w == 100;
    assert y % 400 == 0 <==> y == 400;
  }

  lemma DateOfValid(era: int, p: Parts)
    requires ValidParts(p)
    ensures ValidDate(DateOf(era, p))
  {
    hide YearOfEra;
    hide MonthAndDay;
    hide IsLeap;
    MonthTable(p.day);
    LeapParts(era, p);
  }

  lemma SameYear(era: int, p: Parts)
    requires ValidParts(p) && p.day + 1 < YearLength(p)
    ensures DateOf(era, NextParts(p)) == NextDay(DateOf(era, p))
  {
    hide MonthAndDay;
    hide IsLeap;
    MonthTable(p.day);
    MonthTable(p.day + 1);
    LeapParts(era, p);
  }

  lemma NewYear(era: int, p: Parts, era': int, p': Parts)
    requires ValidParts(p) && p.day + 1 == YearLength(p)
    requires ValidParts(p') && p'.day == 0 && YearOfEra(p') + era' * 400 == YearOfEra(p) + era * 400 + 1
    ensures DateOf(era', p') == NextDay(DateOf(era, p))
  {
    hide YearOfEra;
    hide MonthAndDay;
    hide IsLeap;
    MonthTable(p.day);
    MonthTable(0);
    LeapParts(era, p);
  }

  lemma FirstParts()
    ensures ValidParts(FIRST) && DayOfEra(FIRST) == 0 && YearOfEra(FIRST) == 0
  {
  }

  lemma YearGoesOn(p: Parts)
    requires ValidParts(p) && p.day + 1 < YearLength(p)
    ensures NextParts(p).century <= 3 && DayOfEra(NextParts(p)) == DayOfEra(p) + 1 && ValidParts(NextParts(p))
  {
  }

  lemma YearEnds(p: Parts)
    requires ValidParts(p) && p.day + 1 == YearLength(p)
    ensures var q := NextParts(p);
      if q.century <= 3
      then ValidParts(q) && DayOfEra(q) == DayOfEra(p) + 1 && q.day == 0 && YearOfEra(q) == YearOfEra(p) + 1
      else DayOfEra(p) == 146_096 && YearOfEra(p) == 399
  {
    if p.year < 3 {
      assert YearLength(p) == 365;
    } else if p.cycle < 24 {
      assert YearLength(p) == 366;
    } else if p.century < 3 {
      assert YearLength(p) == 365;
    } else {
      assert YearLength(p) == 366;
    }
  }

  /** The parts and the era of the day after. */
  lemma PartsTick(era: int, p: Parts)
    requires ValidParts(p)
    ensures var q := NextParts(p);
      if q.century <= 3
      then ValidParts(q) && DayOfEra(q) == DayOfEra(p) + 1 && DateOf(era, q) == NextDay(DateOf(era, p))
      else DayOfEra(p) == 146_096 && DayOfEra(FIRST) == 0 && ValidParts(FIRST)
           && DateOf(era + 1, FIRST) == NextDay(DateOf(era, p))
  {
    hide DateOf;
    hide NextDay;
    hide YearOfEra;
    hide DayOfEra;
    hide YearLength;
    hide NextParts;
    hide ValidParts;
    FirstParts();
    if p.day + 1 < YearLength(p) {
      YearGoesOn(p);
      SameYear(era, p);
    } else {
      WithinYear(p);
      YearEnds(p);
      if NextParts(p).century <= 3 {
        NewYear(era, p, era, NextParts(p));
      } else {
        NewYear(era, p, era + 1, FIRST);
      }
    }
  }

  lemma WithinYear(p: Parts)
    requires ValidParts(p)
    ensures p.day < YearLength(p)
  {
  }

  /** Day by day, the arithmetic walks the calendar. */
  lemma CivilTick(days: int)
    ensures ValidDate(CivilFromDays(days))
    ensures CivilFromDays(days + 1) == NextDay(CivilFromDays(days))
  {
    hide CivilFromDays;
    hide NextDay;
    hide ValidDate;
    hide DateOf;
    hide NextParts;
    hide ValidParts;
    hide PartsOf;
    hide DayOfEra;
    var z := days + 719_468;
    var era, doe := z / 146_097, z % 146_097;
    var p := PartsOf(doe);
    CivilParts(days, era, p);
    DateOfValid(era, p);
    PartsTick(era, p);
    var q := NextParts(p);
    if q.century <= 3 {
      CivilParts(days + 1, era, q);
    } else {
      CivilParts(days + 1, era + 1, FIRST);
    }
  }

  lemma EpochDay()
    ensures CivilFromDays(0) == Date(1970, 1, 1)
  {
    assert TruncatedDiv(719_468, 146_097) == 4 && 719_468 - 4 * 146_097 == 135_080;
    assert TruncatedDiv(135_080, 1_460) == 92 && TruncatedDiv(135_080, 36_524) == 3 && TruncatedDiv(135_080, 146_096) == 0;
    assert TruncatedDiv(134_991, 365) == 369 && TruncatedDiv(369, 4) == 92 && TruncatedDiv(369, 100) == 3;
    assert TruncatedDiv(5 * 306 + 2, 153) == 10 && TruncatedDiv(153 * 10 + 2, 5) == 306;
  }

  lemma NextDayInjective(a: Date, b: Date)
    requires ValidDate(a) && ValidDate(b) && NextDay(a) == NextDay(b)
    ensures a == b
  {
  }

  /** Any calendar that calls day 0 the first of January 1970 and moves on day by day is this one. */
  lemma {:induction false} CivilUnique(calendar: int -> Date, days: int)
    requires calendar(0) == Date(1970, 1, 1)
    requires forall n :: ValidDate(calendar(n)) && calendar(n + 1) == NextDay(calendar(n))
    ensures calendar(days) == CivilFromDays(days)
    decreases if days >= 0 then days else -days
  {
    hide CivilFromDays;
    hide NextDay;
    hide ValidDate;
    if days == 0 {
      EpochDay();
    } else if days > 0 {
      CivilUnique(calendar, days - 1);
      CivilTick(days - 1);
      assert calendar(days - 1 + 1) == NextDay(calendar(days - 1));
    } else {
      CivilUnique(calendar, days + 1);
      CivilTick(days);
      assert calendar(days + 1) == NextDay(calendar(days));
      NextDayInjective(calendar(days), CivilFromDays(days));
    }
  }

  function Fields(d: Date): seq<int> {
    [d.year, d.month, d.day]
  }

  lemma NextDayLater(d: Date)
    requires ValidDate(d)
    ensures Less(Fields(d), Fields(NextDay(d)))
  {
  }

  lemma {:induction false} CivilIncreasing(a: int, b: int)
    requires a < b
    ensures Less(Fields(CivilFromDays(a)), Fields(CivilFromDays(b)))
    decreases b - a
  {
    hide CivilFromDays;
    hide NextDay;
    hide ValidDate;
    hide Less;
    CivilTick(b - 1);
    NextDayLater(CivilFromDays(b - 1));
    if a < b - 1 {
      CivilIncreasing(a, b - 1);
      Transitive(Fields(CivilFromDays(a)), Fields(CivilFromDays(b - 1)), Fields(CivilFromDays(b)));
    }
  }

  // ---------------------------------------------------------------------------
  // ISO-8601 text
  // ---------------------------------------------------------------------------

  /** Decimal digits, padded with zeros to a minimum width. */
  function Digits(width: nat, n: nat): (s: seq<nat>)
    ensures AreDigits(10, s)
    decreases n + width
  {
    if n < 10 && width <= 1 then [n] else Digits(if width > 0 then width - 1 else 0, n / 10) + [n % 10]
  }

  function DigitText(digits: seq<nat>): (s: string)
    requires AreDigits(10, digits)
    ensures |s| == |digits|
  {
    seq(|digits|, i requires 0 <= i < |digits| => ('0' as int + digits[i]) as char)
  }

  /** A padded number; a minus sign counts as one place of the width. */
  function Padded(width: nat, n: int): string {
    if n < 0 then "-" + DigitText(Digits(if width > 0 then width - 1 else 0, -n)) else DigitText(Digits(width, n))
  }

  /** A rendered field: its minimum width and the character after it. */
  datatype Place = Place(width: nat, separator: char)

  const INSTANT: seq<Place> :=
    [Place(4, '-'), Place(2, '-'), Place(2, 'T'), Place(2, ':'), Place(2, ':'), Place(2, '.'), Place(3, 'Z')]

  function Render(places: seq<Place>, values: seq<int>): string
    requires |places| == |values|
  {
    if places == [] then ""
    else Padded(places[0].width, values[0]) + [places[0].separator] + Render(places[1..], values[1..])
  }

  /** Year, month, day, hour, minute, second, millisecond. */
  function InstantFields(secs: int, millis: nat): seq<int> {
    var secsOfDay := secs % 86_400;
    Fields(CivilFromDays(secs / 86_400)) + [secsOfDay / 3_600, secsOfDay % 3_600 / 60, secsOfDay % 60, millis]
  }

  function FormatIso8601(secs: int, millis: nat): string {
    Render(INSTANT, InstantFields(secs, millis))
  }

  const MAX_BLOCK_TIME: int := 253_402_300_800

  function Codes(s: string): (c: seq<int>)
    ensures |c| == |s|
  {
    seq(|s|, i requires 0 <= i < |s| => s[i] as int)
  }

  // ---------------------------------------------------------------------------
  // Fixed width and order
  // ---------------------------------------------------------------------------

  /** A number that fits its width is rendered as exactly that many digits. */
  lemma {:induction false} DigitsFit(width: nat, n: nat)
    requires width > 0 && n < Pow(10, width)
    ensures Digits(width, n) == Fixed(10, width, n)
  {
    if width == 1 {
      assert Pow(10, 1) == 10;
      assert Fixed(10, 1, n) == Fixed(10, 0, n / 10) + [n % 10];
    } else {
      DivLess(n, 10, Pow(10, width - 1));
      DigitsFit(width - 1, n / 10);
    }
  }

  lemma {:induction false} FixedOrder(width: nat, x: nat, y: nat)
    requires x < y < Pow(10, width)
    ensures Less(Fixed(10, width, x), Fixed(10, width, y))
  {
    if width > 0 {
      var hx, hy := Fixed(10, width - 1, x / 10), Fixed(10, width - 1, y / 10);
      DivLess(y, 10, Pow(10, width - 1));
      if x / 10 < y / 10 {
        FixedOrder(width - 1, x / 10, y / 10);
      }
      Heads(hx, [x % 10], hy, [y % 10]);
    }
  }

  lemma {:induction false} CodesOrder(x: seq<nat>, y: seq<nat>)
    requires AreDigits(10, x) && AreDigits(10, y) && Less(x, y)
    ensures Less(Codes(DigitText(x)), Codes(DigitText(y)))
    decreases |x|
  {
    var cx, cy := Codes(DigitText(x)), Codes(DigitText(y));
    if x != [] && x[0] == y[0] {
      CodesOrder(x[1..], y[1..]);
      assert cx[1..] == Codes(DigitText(x[1..])) && cy[1..] == Codes(DigitText(y[1..]));
    }
  }

  lemma PaddedOrder(width: nat, x: nat, y: nat)
    requires width > 0 && x < y < Pow(10, width)
    ensures |Padded(width, x)| == width == |Padded(width, y)|
    ensures Less(Codes(Padded(width, x)), Codes(Padded(width, y)))
  {
    DigitsFit(width, x);
    DigitsFit(width, y);
    FixedOrder(width, x, y);
    CodesOrder(Fixed(10, width, x), Fixed(10, width, y));
  }

  predicate FitsPlaces(places: seq<Place>, values: seq<int>) {
    && |places| == |values|
    && forall i :: 0 <= i < |places| ==> places[i].width > 0 && 0 <= values[i] < Pow(10, places[i].width)
  }

  function TotalWidth(places: seq<Place>): nat {
    if places == [] then 0 else places[0].width + 1 + TotalWidth(places[1..])
  }

  lemma {:induction false} RenderWidth(places: seq<Place>, values: seq<int>)
    requires FitsPlaces(places, values)
    ensures |Render(places, values)| == TotalWidth(places)
  {
    if places != [] {
      DigitsFit(places[0].width, values[0]);
      RenderWidth(places[1..], values[1..]);
    }
  }

  /** Rendering at fixed widths keeps the order of the fields. */
  lemma {:induction false} RenderOrder(places: seq<Place>, x: seq<int>, y: seq<int>)
    requires FitsPlaces(places, x) && FitsPlaces(places, y) && Less(x, y)
    ensures Less(Codes(Render(places, x)), Codes(Render(places, y)))
  {
    hide Padded;
    hide TotalWidth;
    if places != [] {
      var p := places[0];
      var px, py := Padded(p.width, x[0]), Padded(p.width, y[0]);
      var tx, ty := [p.separator] + Render(places[1..], x[1..]), [p.separator] + Render(places[1..], y[1..]);
      CodesAppend(px, tx);
      CodesAppend(py, ty);
      assert Render(places, x) == px + tx && Render(places, y) == py + ty;
      if x[0] < y[0] {
        PaddedOrder(p.width, x[0], y[0]);
      } else {
        RenderOrder(places[1..], x[1..], y[1..]);
        CodesAppend([p.separator], Render(places[1..], x[1..]));
        CodesAppend([p.separator], Render(places[1..], y[1..]));
        Heads(Codes([p.separator]), Codes(Render(places[1..], x[1..])),
              Codes([p.separator]), Codes(Render(places[1..], y[1..])));
      }
      Heads(Codes(px), Codes(tx), Codes(py), Codes(ty));
    }
  }

  lemma CodesAppend(a: string, b: string)
    ensures Codes(a + b) == Codes(a) + Codes(b)
  {
  }

  /** Years up to 9999 are exactly what the bound on block times admits. */
  lemma BlockTimeYears(secs: int)
    requires secs >= 0
    ensures CivilFromDays(secs / 86_400).year >= 1970
    ensures CivilFromDays(secs / 86_400).year <= 9999 <==> secs < MAX_BLOCK_TIME
  {
    hide CivilFromDays;
    var days := secs / 86_400;
    EpochDay();
    LastDay();
    if days > 0 {
      CivilIncreasing(0, days);
    }
    if days < 2_932_897 {
      CivilIncreasing(days, 2_932_897);
      if days < 2_932_896 {
        CivilIncreasing(days, 2_932_896);
      }
    } else if days > 2_932_897 {
      CivilIncreasing(2_932_897, days);
    }
  }

  lemma LastDay()
    ensures CivilFromDays(2_932_896) == Date(9999, 12, 31)
    ensures CivilFromDays(2_932_897) == Date(10000, 1, 1)
  {
    hide CivilFromDays;
    hide MonthAndDay;
    CivilParts(2_932_896, 24, Parts(3, 24, 3, 305));
    CivilParts(2_932_897, 24, Parts(3, 24, 3, 306));
    MonthTable(305);
    MonthTable(306);
  }

  lemma InstantFits(secs: int)
    requires 0 <= secs < MAX_BLOCK_TIME
    ensures FitsPlaces(INSTANT, InstantFields(secs, 0))
  {
    hide CivilFromDays;
    BlockTimeYears(secs);
    CivilTick(secs / 86_400);
    TenPowers();
  }

  lemma TenPowers()
    ensures Pow(10, 2) == 100 && Pow(10, 3) == 1000 && Pow(10, 4) == 10000
  {
    assert Pow(10, 1) == 10;
  }

  lemma FieldsIncrease(a: int, b: int)
    requires a < b
    ensures Less(InstantFields(a, 0), InstantFields(b, 0))
  {
    hide CivilFromDays;
    var x, y := a / 86_400, b / 86_400;
    var r, s := a % 86_400, b % 86_400;
    if x < y {
      CivilIncreasing(x, y);
    } else {
      assert x == y && r < s;
    }
    if r < s {
      ClockIncreases(r, s);
    }
    Heads(Fields(CivilFromDays(x)), [r / 3_600, r % 3_600 / 60, r % 60, 0],
          Fields(CivilFromDays(y)), [s / 3_600, s % 3_600 / 60, s % 60, 0]);
  }

  lemma ClockIncreases(r: nat, s: nat)
    requires r < s
    ensures Less([r / 3_600, r % 3_600 / 60, r % 60, 0], [s / 3_600, s % 3_600 / 60, s % 60, 0])
  {
    ClockSum(r);
    ClockSum(s);
  }

  lemma ClockSum(r: nat)
    ensures r == 3_600 * (r / 3_600) + 60 * (r % 3_600 / 60) + r % 60
    ensures r % 3_600 / 60 < 60
  {
    assert r % 3_600 % 60 == r % 60;
  }

  /** Over the block times a certificate admits, the rendered instant has 24 characters and grows with the time. */
  lemma InstantOrder(a: int, b: int)
    requires 0 <= a < b < MAX_BLOCK_TIME
    ensures |FormatIso8601(a, 0)| == 24 == |FormatIso8601(b, 0)|
    ensures Less(Codes(FormatIso8601(a, 0)), Codes(FormatIso8601(b, 0)))
  {
    hide InstantFields;
    hide Render;
    hide Less;
    InstantFits(a);
    InstantFits(b);
    FieldsIncrease(a, b);
    RenderOrder(INSTANT, InstantFields(a, 0), InstantFields(b, 0));
    RenderWidth(INSTANT, InstantFields(a, 0));
    RenderWidth(INSTANT, InstantFields(b, 0));
  }

  // ---------------------------------------------------------------------------
  // Reading the text
  // ---------------------------------------------------------------------------

  /** The number a string of decimal digits denotes. */
  function Number(s: string): int {
    if s == "" then 0 else 10 * Number(s[..|s| - 1]) + (s[|s| - 1] as int - '0' as int)
  }

  /** So many decimal digits, and the number they denote. */
  ghost predicate Reads(s: string, width: nat, n: int) {
    |s| == width && (forall i :: 0 <= i < |s| ==> '0' <= s[i] <= '9') && Number(s) == n
  }

  lemma {:induction false} DigitsNumber(digits: seq<nat>)
    requires AreDigits(10, digits)
    ensures Number(DigitText(digits)) == Value(10, digits)
  {
    if digits != [] {
      var front := digits[..|digits| - 1];
      DigitsNumber(front);
      assert DigitText(digits)[..|digits| - 1] == DigitText(front);
    }
  }

  lemma PaddedReads(width: nat, n: nat)
    requires width > 0 && n < Pow(10, width)
    ensures Reads(Padded(width, n), width, n)
  {
    hide Number;
    DigitsFit(width, n);
    DigitsNumber(Fixed(10, width, n));
    FixedValue(10, width, n);
  }

  lemma Rendered(values: seq<int>)
    requires |values| == 7
    ensures Render(INSTANT, values) ==
      Padded(4, values[0]) + "-" + (Padded(2, values[1]) + "-" + (Padded(2, values[2]) + "T" + (Padded(2, values[3]) + ":"
        + (Padded(2, values[4]) + ":" + (Padded(2, values[5]) + "." + (Padded(3, values[6]) + "Z"))))))
  {
    hide Padded;
    RenderPlace(INSTANT, values);
    RenderPlace(INSTANT[1..], values[1..]);
    RenderPlace(INSTANT[2..], values[2..]);
    RenderPlace(INSTANT[3..], values[3..]);
    RenderPlace(INSTANT[4..], values[4..]);
    RenderPlace(INSTANT[5..], values[5..]);
    RenderPlace(INSTANT[6..], values[6..]);
  }

  lemma RenderPlace(places: seq<Place>, values: seq<int>)
    requires |places| == |values| && places != []
    ensures Render(places, values) == Padded(places[0].width, values[0]) + [places[0].separator] + Render(places[1..], values[1..])
    ensures |places| == 1 ==> Render(places, values) == Padded(places[0].width, values[0]) + [places[0].separator]
  {
    hide Padded;
  }

  /**
    The text of an instant: year, month and day of its date and hour, minute and second of its day, each
    at its fixed width with the separators of ISO 8601, and milliseconds.
  */
  lemma InstantText(secs: int, millis: nat) returns (y: string, mo: string, d: string, h: string, mi: string, s: string, ms: string)
    requires 0 <= secs < MAX_BLOCK_TIME && millis < 1000
    ensures FormatIso8601(secs, millis) == y + "-" + (mo + "-" + (d + "T" + (h + ":" + (mi + ":" + (s + "." + (ms + "Z"))))))
    ensures var date := CivilFromDays(secs / 86_400);
      Reads(y, 4, date.year) && Reads(mo, 2, date.month) && Reads(d, 2, date.day)
    ensures Reads(h, 2, Number(h)) && Reads(mi, 2, Number(mi)) && Reads(s, 2, Number(s)) && Reads(ms, 3, millis)
    ensures secs % 86_400 == 3_600 * Number(h) + 60 * Number(mi) + Number(s) && Number(mi) < 60 && Number(s) < 60
  {
    hide CivilFromDays;
    hide Padded;
    hide Reads;
    hide Number;
    hide Render;
    BlockTimeYears(secs);
    CivilTick(secs / 86_400);
    TenPowers();
    var date, r := CivilFromDays(secs / 86_400), secs % 86_400;
    Rendered(InstantFields(secs, millis));
    y, mo, d := Padded(4, date.year), Padded(2, date.month), Padded(2, date.day);
    h, mi, s, ms := Padded(2, r / 3_600), Padded(2, r % 3_600 / 60), Padded(2, r % 60), Padded(3, millis);
    PaddedReads(4, date.year);
    PaddedReads(2, date.month);
    PaddedReads(2, date.day);
    PaddedReads(2, r / 3_600);
    PaddedReads(2, r % 3_600 / 60);
    PaddedReads(2, r % 60);
    PaddedReads(3, millis);
    ReadNumber(h, 2, r / 3_600);
    ReadNumber(mi, 2, r % 3_600 / 60);
    ReadNumber(s, 2, r % 60);
    ClockSum(r);
  }

  lemma ReadNumber(s: string, width: nat, n: int)
    requires Reads(s, width, n)
    ensures Number(s) == n
  {
  }
}

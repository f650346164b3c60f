/** structured_json_logger.rs, days_to_ymd, against the Gregorian calendar counted day by day. */
module Calendar {

  datatype Date = Date(year: nat, month: nat, day: nat)

  // ---------- the calendar, from RFC 3339: month lengths of section 5.7, leap rule of appendix C ----------

  predicate IsLeap(year: nat) {
    year % 4 == 0 && (year % 100 != 0 || year % 400 == 0)
  }

  function MonthLength(year: nat, month: nat): nat {
    if month == 2 then if IsLeap(year) then 29 else 28
    else if month == 4 || month == 6 || month == 9 || month == 11 then 30
    else 31
  }

  predicate IsDate(date: Date) {
    1 <= date.month <= 12 && 1 <= date.day <= MonthLength(date.year, date.month)
  }

  function NextDay(date: Date): Date {
    if date.day < MonthLength(date.year, date.month) then Date(date.year, date.month, date.day + 1)
    else if date.month < 12 then Date(date.year, date.month + 1, 1)
    else Date(date.year + 1, 1, 1)
  }

  /** The calendar itself: start at 1970-01-01 and turn the page days times. */
  function NaiveDate(days: nat): Date {
    if days == 0 then Date(1970, 1, 1) else NextDay(NaiveDate(days - 1))
  }

  // ---------- the closed form ----------

  /** Year of the 400-year era, counted from March. */
  function YearOfEra(doe: nat): nat {
    (doe - doe / 1460 + doe / 36524 - doe / 146096) / 365
  }

  /** Day of the era on which a March-based year starts. */
  function YearStart(yoe: nat): nat {
    365 * yoe + yoe / 4 - yoe / 100
  }

  /** Month of a March-based year. */
  function MonthIndex(doy: nat): nat {
    (5 * doy + 2) / 153
  }

  function MonthStart(mp: nat): nat {
    (153 * mp + 2) / 5
  }

  /** Every subtraction is of unsigned numbers: the type nat makes Dafny check that none underflows. */
  function DaysToYmd(days: nat): Date {
    var z: nat := days + 719468;
    var era: nat := z / 146097;
    var doe: nat := z - era * 146097;
    var yoe: nat := YearOfEra(doe);
    var y: nat := yoe + era * 400;
    YearOfEraFits(doe);
    var doy: nat := doe - YearStart(yoe);
    var mp: nat := MonthIndex(doy);
    MonthFits(doy);
    var d: nat := doy - MonthStart(mp) + 1;
    var m: nat := if mp < 10 then mp + 3 else mp - 9;
    Date(if m <= 2 then y + 1 else y, m, d)
  }

  // ---------- days of an era without division ----------

  /** A day as era, century, four years, year and day; the last of four years, of a century and of an era are one day
      longer or shorter than the others. */
  datatype EraDay = EraDay(era: nat, century: nat, four: nat, one: nat, doy: nat)

  /** A March-based year ends with February, so it has the leap day of the next calendar year. */
  predicate Long(e: EraDay) {
    e.one == 3 && (e.four < 24 || e.century == 3)
  }

  predicate Valid(e: EraDay) {
    e.century <= 3 && e.four <= 24 && e.one <= 3 && e.doy <= (if Long(e) then 365 else 364)
  }

  function DayOfEra(e: EraDay): nat {
    36524 * e.century + 1461 * e.four + 365 * e.one + e.doy
  }

  function YearIn(e: EraDay): nat {
    100 * e.century + 4 * e.four + e.one
  }

  /** Every day of an era has such a form. */
  lemma Split(era: nat, doe: nat) returns (e: EraDay)
    requires doe < 146097
    ensures Valid(e) && DayOfEra(e) == doe && e.era == era
  {
    var century := if doe >= 3 * 36524 then 3 else doe / 36524;
    var r := doe - 36524 * century;
    assert r <= if century == 3 then 36524 else 36523;
    var four := r / 1461;
    var q := r - 1461 * four;
    assert four <= 24 && q <= 1460;
    var one := if q >= 3 * 365 then 3 else q / 365;
    e := EraDay(era, century, four, one, q - 365 * one);
  }

  lemma YearStartOf(e: EraDay)
    requires Valid(e)
    ensures YearStart(YearIn(e)) == 36524 * e.century + 1461 * e.four + 365 * e.one
  {
    assert YearIn(e) / 100 == e.century;
    assert YearIn(e) / 4 == 25 * e.century + e.four;
  }

  /** The formula for the year of the era finds the year. */
  lemma YearOfEraIs(e: EraDay)
    requires Valid(e)
    ensures YearOfEra(DayOfEra(e)) == YearIn(e)
  {
    var doe := DayOfEra(e);
    assert doe / 36524 == if doe == 146096 then 4 else e.century;
    assert doe / 146096 == if doe == 146096 then 1 else 0;
    var rest := 24 * e.century + e.four + 365 * e.one + e.doy;
    assert doe == 1460 * (25 * e.century + e.four) + rest;
    var extra := if rest >= 1460 then 1 else 0;
    assert doe / 1460 == 25 * e.century + e.four + extra;
    assert doe - doe / 1460 + doe / 36524 - doe / 146096 == 365 * YearIn(e) + e.doy - extra;
  }

  lemma YearOfEraFits(doe: nat)
    requires doe < 146097
    ensures YearOfEra(doe) < 400 && YearStart(YearOfEra(doe)) <= doe <= YearStart(YearOfEra(doe)) + 365
  {
    var e := Split(0, doe);
    YearOfEraIs(e);
    YearStartOf(e);
  }

  lemma MonthFits(doy: nat)
    requires doy <= 365
    ensures MonthIndex(doy) <= 11 && MonthStart(MonthIndex(doy)) <= doy
  {
  }

  // ---------- dates of the days of an era ----------

  /** The date of day doy of the March-based year y. */
  function DateIn(y: nat, doy: nat): Date {
    var mp := MonthIndex(doy);
    var m := if mp < 10 then mp + 3 else mp - 9;
    Date(if m <= 2 then y + 1 else y, m, if MonthStart(mp) <= doy then doy - MonthStart(mp) + 1 else 0)
  }

  function DateOf(e: EraDay): Date {
    DateIn(YearIn(e) + 400 * e.era, e.doy)
  }

  lemma LongIsLeap(e: EraDay)
    requires Valid(e)
    ensures IsLeap(YearIn(e) + 400 * e.era + 1) == Long(e)
  {
    var y := YearIn(e) + 400 * e.era + 1;
    assert y == 4 * (25 * e.century + e.four + 100 * e.era) + e.one + 1;
    assert y == 100 * (e.century + 4 * e.era) + 4 * e.four + e.one + 1;
    MultipleOf4(y, 25 * e.century + e.four + 100 * e.era, e.one + 1);
    MultipleOf100(y, e.century + 4 * e.era, 4 * e.four + e.one + 1);
    if e.one == 3 && e.four == 24 {
      assert y == 400 * e.era + 100 * (e.century + 1);
      MultipleOf400(y, e.era, 100 * (e.century + 1));
    }
  }

  lemma MultipleOf4(y: nat, k: nat, r: nat)
    requires y == 4 * k + r && 1 <= r <= 4
    ensures y % 4 == 0 <==> r == 4
  {
  }

  lemma MultipleOf100(y: nat, k: nat, r: nat)
    requires y == 100 * k + r && 1 <= r <= 100
    ensures y % 100 == 0 <==> r == 100
  {
  }

  lemma MultipleOf400(y: nat, k: nat, r: nat)
    requires y == 400 * k + r && 1 <= r <= 400
    ensures y % 400 == 0 <==> r == 400
  {
  }

  /** The next day is in the same month, or is the first of the next. */
  lemma MonthOfNextDay(doy: nat)
    requires doy <= 365
    ensures var mp := MonthIndex(doy);
            && mp <= 11 && MonthStart(mp) <= doy < MonthStart(mp + 1)
            && MonthIndex(doy + 1) == if doy + 1 < MonthStart(mp + 1) then mp else mp + 1
  {
  }

  /** Inside a March-based year the dates follow each other. */
  lemma DayFollows(y: nat, doy: nat)
    requires doy + 1 <= if IsLeap(y + 1) then 365 else 364
    ensures IsDate(DateIn(y, doy)) && DateIn(y, doy + 1) == NextDay(DateIn(y, doy))
  {
    hide IsLeap, MonthIndex;
    MonthOfNextDay(doy);
  }

  lemma YearFollows(y: nat, doy: nat)
    requires doy == if IsLeap(y + 1) then 365 else 364
    ensures IsDate(DateIn(y, doy)) && DateIn(y + 1, 0) == NextDay(DateIn(y, doy))
  {
    hide IsLeap;
  }

  /** Day doy2 of year y2 is the day after day doy of year y. */
  predicate Follows(y: nat, doy: nat, y2: nat, doy2: nat) {
    var last := if IsLeap(y + 1) then 365 else 364;
    (doy < last && y2 == y && doy2 == doy + 1) || (doy == last && y2 == y + 1 && doy2 == 0)
  }

  lemma DateFollows(y: nat, doy: nat, y2: nat, doy2: nat)
    requires Follows(y, doy, y2, doy2)
    ensures IsDate(DateIn(y, doy)) && DateIn(y2, doy2) == NextDay(DateIn(y, doy))
  {
    if y2 == y {
      DayFollows(y, doy);
    } else {
      YearFollows(y, doy);
    }
  }

  /** The day after, carrying where the day, year, four years or century is full. */
  function After(e: EraDay): EraDay {
    if e.doy < (if Long(e) then 365 else 364) then e.(doy := e.doy + 1)
    else if e.one < 3 then EraDay(e.era, e.century, e.four, e.one + 1, 0)
    else if e.four < 24 then EraDay(e.era, e.century, e.four + 1, 0, 0)
    else if e.century < 3 then EraDay(e.era, e.century + 1, 0, 0, 0)
    else EraDay(e.era + 1, 0, 0, 0, 0)
  }

  lemma AfterCounts(e: EraDay)
    requires Valid(e)
    ensures Valid(After(e))
    ensures 146097 * After(e).era + DayOfEra(After(e)) == 146097 * e.era + DayOfEra(e) + 1
  {
  }

  /** The day after is in the same year, or is the first of the next. */
  lemma AfterYear(e: EraDay)
    requires Valid(e)
    ensures Follows(YearIn(e) + 400 * e.era, e.doy, YearIn(After(e)) + 400 * After(e).era, After(e).doy)
  {
    LongIsLeap(e);
  }

  lemma AfterIsNextDay(e: EraDay)
    requires Valid(e)
    ensures IsDate(DateOf(e)) && DateOf(After(e)) == NextDay(DateOf(e))
  {
    hide DateIn, NextDay, IsDate, IsLeap, After;
    AfterYear(e);
    DateFollows(YearIn(e) + 400 * e.era, e.doy, YearIn(After(e)) + 400 * After(e).era, After(e).doy);
  }

  /** Count days from 1970-01-01, which is day 306 of year 369 of era 4. */
  function Counted(days: nat): EraDay {
    if days == 0 then EraDay(4, 3, 17, 1, 306) else After(Counted(days - 1))
  }

  lemma {:induction false} CountedCounts(days: nat)
    ensures Valid(Counted(days))
    ensures 146097 * Counted(days).era + DayOfEra(Counted(days)) == days + 719468
  {
    if days > 0 {
      CountedCounts(days - 1);
      AfterCounts(Counted(days - 1));
    }
  }

  lemma DayZero()
    ensures DateOf(Counted(0)) == NaiveDate(0)
  {
  }

  lemma {:induction false} CountedIsNaive(days: nat)
    ensures DateOf(Counted(days)) == NaiveDate(days)
  {
    hide DateOf, NextDay, After;
    if days == 0 {
      DayZero();
    } else {
      CountedIsNaive(days - 1);
      CountedCounts(days - 1);
      AfterIsNextDay(Counted(days - 1));
    }
  }

  lemma ClosedFormOf(days: nat, e: EraDay)
    requires Valid(e) && 146097 * e.era + DayOfEra(e) == days + 719468
    ensures DaysToYmd(days) == DateOf(e)
  {
    hide YearOfEra, YearStart, Long;
    assert (days + 719468) / 146097 == e.era;
    YearOfEraIs(e);
    YearStartOf(e);
    MonthFits(e.doy);
  }

  /** days_to_ymd is the calendar for every day count, without bound, and what it returns is a date that exists. */
  lemma ClosedFormIsCalendar(days: nat)
    ensures DaysToYmd(days) == NaiveDate(days) && IsDate(NaiveDate(days))
  {
    hide DaysToYmd, NaiveDate, DateOf, IsDate;
    var e := Counted(days);
    CountedCounts(days);
    CountedIsNaive(days);
    AfterIsNextDay(e);
    ClosedFormOf(days, e);
  }

  // ---------- counting back ----------

  function DaysBeforeMonth(year: nat, month: nat): nat {
    if month <= 1 then 0 else DaysBeforeMonth(year, month - 1) + MonthLength(year, month - 1)
  }

  /** Whole years since 1970, each as long as its twelve months. */
  function DaysBeforeYear(year: nat): nat {
    if year <= 1970 then 0 else DaysBeforeYear(year - 1) + DaysBeforeMonth(year - 1, 13)
  }

  function DayNumber(date: Date): int {
    DaysBeforeYear(date.year) + DaysBeforeMonth(date.year, date.month) + date.day - 1
  }

  predicate Before(a: Date, b: Date) {
    a.year < b.year || (a.year == b.year && (a.month < b.month || (a.month == b.month && a.day < b.day)))
  }

  lemma NextDayCounts(date: Date)
    requires IsDate(date) && date.year >= 1970
    ensures IsDate(NextDay(date)) && DayNumber(NextDay(date)) == DayNumber(date) + 1 && Before(date, NextDay(date))
  {
    hide IsLeap;
  }

  /** Year lengths and month lengths counted back from the date give the day count again. */
  lemma {:induction false} CountingBack(days: nat)
    ensures IsDate(NaiveDate(days)) && NaiveDate(days).year >= 1970 && DayNumber(NaiveDate(days)) == days
  {
    hide IsDate, NextDay, DayNumber;
    if days == 0 {
      assert IsDate(Date(1970, 1, 1)) && DayNumber(Date(1970, 1, 1)) == 0 by { EpochCounts(); }
    } else {
      CountingBack(days - 1);
      NextDayCounts(NaiveDate(days - 1));
      assert NextDay(NaiveDate(days - 1)).year >= 1970 by { NextYearNotEarlier(NaiveDate(days - 1)); }
    }
  }

  lemma EpochCounts()
    ensures IsDate(Date(1970, 1, 1)) && DayNumber(Date(1970, 1, 1)) == 0
  {
  }

  lemma NextYearNotEarlier(date: Date)
    ensures NextDay(date).year >= date.year
  {
  }

  /** Dates come in the order of their day counts. */
  lemma {:induction false} DatesInOrder(a: nat, b: nat)
    requires a < b
    ensures Before(NaiveDate(a), NaiveDate(b))
    decreases b
  {
    hide NextDay;
    CountingBack(b - 1);
    NextDayCounts(NaiveDate(b - 1));
    if a < b - 1 {
      DatesInOrder(a, b - 1);
    }
  }
}

/** structured_json_logger.rs, iso8601_now as a function of the clock reading: seconds since the epoch and the
    milliseconds of the current second. RFC 3339, section 5.6, gives the format. */
module Timestamp {
  import opened Options
  import opened Fractions
  import opened Calendar

  // ---------- numbers as text ----------

  function Pow10(w: nat): nat {
    if w == 0 then 1 else 10 * Pow10(w - 1)
  }

  function DigitChar(d: nat): char
    requires d < 10
  {
    '0' + d as char
  }

  /** A number as decimal text, no leading zeros. */
  function Decimal(n: nat): string {
    if n < 10 then [DigitChar(n)] else Decimal(n / 10) + [DigitChar(n % 10)]
  }

  function Zeros(n: nat): string {
    if n == 0 then "" else "0" + Zeros(n - 1)
  }

  /** {:0w}: at least w characters, more if the number needs them. */
  function Padded(n: nat, w: nat): string {
    var s := Decimal(n);
    if |s| < w then Zeros(w - |s|) + s else s
  }

  /** Exactly w characters, for numbers that fit. */
  function Fixed(n: nat, w: nat): (s: string)
    ensures |s| == w
  {
    if w == 0 then "" else Fixed(n / 10, w - 1) + [DigitChar(n % 10)]
  }

  lemma {:induction false} DecimalLength(n: nat, w: nat)
    requires w >= 1
    ensures |Decimal(n)| <= w <==> n < Pow10(w)
  {
    if n >= 10 {
      if w == 1 {
        assert |Decimal(n / 10)| >= 1;
        assert Pow10(1) == 10;
      } else {
        DecimalLength(n / 10, w - 1);
      }
    } else {
      Pow10AtLeastTen(w);
    }
  }

  lemma {:induction false} Pow10AtLeastTen(w: nat)
    requires w >= 1
    ensures Pow10(w) >= 10
  {
    if w > 1 {
      Pow10AtLeastTen(w - 1);
    } else {
      assert Pow10(1) == 10 * Pow10(0);
    }
  }

  lemma {:induction false} FixedZero(w: nat)
    ensures Fixed(0, w) == Zeros(w)
  {
    if w > 0 {
      FixedZero(w - 1);
      ZerosEnd(w);
    }
  }

  lemma {:induction false} ZerosEnd(w: nat)
    requires w > 0
    ensures Zeros(w) == Zeros(w - 1) + "0" && |Zeros(w)| == w
  {
    if w > 1 {
      ZerosEnd(w - 1);
    } else {
      assert Zeros(1) == "0" + Zeros(0);
    }
  }

  /** Padding a number that fits gives exactly w characters. */
  lemma {:induction false} PaddedIsFixed(n: nat, w: nat)
    requires w >= 1 && n < Pow10(w)
    ensures Padded(n, w) == Fixed(n, w)
    decreases w
  {
    DecimalLength(n, w);
    if n < 10 {
      FixedZero(w - 1);
      assert Fixed(n, w) == Zeros(w - 1) + [DigitChar(n)];
      assert Decimal(n) == [DigitChar(n)];
      if w == 1 {
        assert Zeros(0) + Decimal(n) == Decimal(n);
      }
    } else {
      assert w > 1 by { assert Pow10(1) == 10 * Pow10(0) == 10; }
      PaddedIsFixed(n / 10, w - 1);
      var k := w - |Decimal(n)|;
      assert Zeros(k) + (Decimal(n / 10) + [DigitChar(n % 10)]) == Zeros(k) + Decimal(n / 10) + [DigitChar(n % 10)];
    }
  }

  // ---------- order of texts ----------

  /** First difference decides. */
  predicate Less<T(==)>(a: seq<T>, b: seq<T>, below: (T, T) -> bool) {
    if b == [] then false
    else if a == [] then true
    else below(a[0], b[0]) || (a[0] == b[0] && Less(a[1..], b[1..], below))
  }

  predicate CharBelow(a: char, b: char) { a < b }
  predicate NatBelow(a: nat, b: nat) { a < b }

  predicate TextBefore(a: string, b: string) { Less(a, b, CharBelow) }

  lemma {:induction false} LessConcat<T>(a: seq<T>, b: seq<T>, c: seq<T>, d: seq<T>, below: (T, T) -> bool)
    requires |a| == |b|
    ensures Less(a + c, b + d, below) <==> Less(a, b, below) || (a == b && Less(c, d, below))
  {
    if a == [] {
      assert a + c == c && b + d == d;
    } else {
      assert (a + c)[1..] == a[1..] + c && (b + d)[1..] == b[1..] + d;
      LessConcat(a[1..], b[1..], c, d, below);
    }
  }

  lemma {:induction false} LessIsStrict(a: seq<nat>, b: seq<nat>)
    ensures !Less(a, a, NatBelow)
    ensures Less(a, b, NatBelow) ==> !Less(b, a, NatBelow)
  {
    if a != [] {
      LessIsStrict(a[1..], if b == [] then [] else b[1..]);
    }
  }

  lemma DigitOrder(d: nat, e: nat)
    requires d < 10 && e < 10
    ensures DigitChar(d) == DigitChar(e) <==> d == e
    ensures TextBefore([DigitChar(d)], [DigitChar(e)]) <==> d < e
  {
    var x, y := DigitChar(d), DigitChar(e);
    assert x as int == 48 + d && y as int == 48 + e;
    assert !Less([x][1..], [y][1..], CharBelow);
    assert Less([x], [y], CharBelow) <==> CharBelow(x, y);
    assert CharBelow(x, y) <==> x as int < y as int;
  }

  /** Digits of equal number compare like the numbers, and are equal only for equal numbers. */
  lemma {:induction false} FixedOrder(n: nat, m: nat, w: nat)
    requires n < Pow10(w) && m < Pow10(w)
    ensures TextBefore(Fixed(n, w), Fixed(m, w)) <==> n < m
    ensures Fixed(n, w) == Fixed(m, w) <==> n == m
  {
    if w > 0 {
      FixedOrder(n / 10, m / 10, w - 1);
      var x, y := [DigitChar(n % 10)], [DigitChar(m % 10)];
      LessConcat(Fixed(n / 10, w - 1), Fixed(m / 10, w - 1), x, y, CharBelow);
      assert Fixed(n, w)[..w - 1] == Fixed(n / 10, w - 1) && Fixed(m, w)[..w - 1] == Fixed(m / 10, w - 1);
      assert Fixed(n, w)[w - 1] == DigitChar(n % 10) && Fixed(m, w)[w - 1] == DigitChar(m % 10);
      DigitOrder(n % 10, m % 10);
    }
  }

  // ---------- the timestamp ----------

  function DateFields(date: Date): seq<nat> {
    [date.year, date.month, date.day]
  }

  function TimeFields(time: nat, millis: nat): seq<nat> {
    [time / 3600, time % 3600 / 60, time % 60, millis]
  }

  /** The seven numbers of a timestamp. */
  function Fields(secs: nat, millis: nat): seq<nat> {
    DateFields(DaysToYmd(secs / 86400)) + TimeFields(secs % 86400, millis)
  }

  const WIDTHS: seq<nat> := [4, 2, 2, 2, 2, 2, 3]
  const AFTER: string := "--T::.Z"

  /** Each number padded to its width, then its separator. */
  function Print(fields: seq<nat>, widths: seq<nat>, after: string): string
    requires |fields| == |widths| == |after|
  {
    if fields == [] then ""
    else Padded(fields[0], widths[0]) + [after[0]] + Print(fields[1..], widths[1..], after[1..])
  }

  function Iso8601(secs: nat, millis: nat): string {
    Print(Fields(secs, millis), WIDTHS, AFTER)
  }

  ghost predicate Fit(fields: seq<nat>, widths: seq<nat>) {
    && |fields| == |widths|
    && forall i :: 0 <= i < |fields| ==> widths[i] >= 1 && fields[i] < Pow10(widths[i])
  }

  function Total(widths: seq<nat>): nat {
    if widths == [] then 0 else widths[0] + 1 + Total(widths[1..])
  }

  lemma {:induction false} PrintLength(fields: seq<nat>, widths: seq<nat>, after: string)
    requires |after| == |fields| && Fit(fields, widths)
    ensures |Print(fields, widths, after)| == Total(widths)
  {
    if fields != [] {
      PaddedIsFixed(fields[0], widths[0]);
      PrintLength(fields[1..], widths[1..], after[1..]);
    }
  }

  /** A field and its separator decide before what follows. */
  lemma FieldOrder(x: string, y: string, sep: char, restX: string, restY: string)
    requires |x| == |y|
    ensures TextBefore(x + [sep] + restX, y + [sep] + restY) <==>
            TextBefore(x, y) || (x == y && TextBefore(restX, restY))
  {
    LessConcat(x, y, [sep] + restX, [sep] + restY, CharBelow);
    assert x + [sep] + restX == x + ([sep] + restX) && y + [sep] + restY == y + ([sep] + restY);
    assert ([sep] + restX)[1..] == restX && ([sep] + restY)[1..] == restY;
  }

  /** Texts of numbers that fit compare like the numbers, first difference first. */
  lemma {:induction false} PrintOrder(a: seq<nat>, b: seq<nat>, widths: seq<nat>, after: string)
    requires |after| == |widths| && Fit(a, widths) && Fit(b, widths)
    ensures TextBefore(Print(a, widths, after), Print(b, widths, after)) <==> Less(a, b, NatBelow)
  {
    hide Padded, Fixed, Pow10;
    if widths != [] {
      PaddedIsFixed(a[0], widths[0]);
      PaddedIsFixed(b[0], widths[0]);
      FixedOrder(a[0], b[0], widths[0]);
      PrintOrder(a[1..], b[1..], widths[1..], after[1..]);
      FieldOrder(Fixed(a[0], widths[0]), Fixed(b[0], widths[0]), after[0],
                 Print(a[1..], widths[1..], after[1..]), Print(b[1..], widths[1..], after[1..]));
    }
  }

  // ---------- order of instants ----------

  predicate Earlier(secs: nat, millis: nat, secs2: nat, millis2: nat) {
    secs < secs2 || (secs == secs2 && millis < millis2)
  }

  lemma LessCons(x: nat, y: nat, a: seq<nat>, b: seq<nat>)
    ensures Less([x] + a, [y] + b, NatBelow) <==> x < y || (x == y && Less(a, b, NatBelow))
  {
    assert ([x] + a)[1..] == a && ([y] + b)[1..] == b;
  }

  lemma DateFieldsInOrder(a: Date, b: Date)
    ensures Less(DateFields(a), DateFields(b), NatBelow) <==> Before(a, b)
  {
    LessCons(a.year, b.year, [a.month, a.day], [b.month, b.day]);
    LessCons(a.month, b.month, [a.day], [b.day]);
    LessCons(a.day, b.day, [], []);
    assert DateFields(a) == [a.year] + [a.month, a.day] && DateFields(b) == [b.year] + [b.month, b.day];
    assert [a.month, a.day] == [a.month] + [a.day] && [b.month, b.day] == [b.month] + [b.day];
    assert [a.day] == [a.day] + [] && [b.day] == [b.day] + [];
  }

  lemma TimeFieldsInOrder(s: nat, millis: nat, t: nat, millis2: nat)
    requires Earlier(s, millis, t, millis2)
    ensures Less(TimeFields(s, millis), TimeFields(t, millis2), NatBelow)
  {
    var h, m, c := s / 3600, s % 3600 / 60, s % 60;
    var h2, m2, c2 := t / 3600, t % 3600 / 60, t % 60;
    LessCons(h, h2, [m, c, millis], [m2, c2, millis2]);
    LessCons(m, m2, [c, millis], [c2, millis2]);
    LessCons(c, c2, [millis], [millis2]);
    LessCons(millis, millis2, [], []);
    assert TimeFields(s, millis) == [h] + [m, c, millis] && TimeFields(t, millis2) == [h2] + [m2, c2, millis2];
    assert [m, c, millis] == [m] + [c, millis] && [m2, c2, millis2] == [m2] + [c2, millis2];
    assert [c, millis] == [c] + [millis] && [c2, millis2] == [c2] + [millis2];
    assert [millis] == [millis] + [] && [millis2] == [millis2] + [];
    ClockParts(s);
    ClockParts(t);
  }

  lemma ClockParts(t: nat)
    ensures t == 3600 * (t / 3600) + 60 * (t % 3600 / 60) + t % 60
    ensures t % 3600 / 60 < 60
  {
    var h, r := t / 3600, t % 3600;
    assert t == 3600 * h + r;
    assert r == 60 * (r / 60) + r % 60;
    SameSeconds(t, h, r);
  }

  lemma SameSeconds(t: nat, h: nat, r: nat)
    requires t == 3600 * h + r
    ensures t % 60 == r % 60
  {
    var q := r / 60;
    assert t == 60 * (60 * h + q) + r % 60;
  }

  /** The numbers of a later instant come later. */
  lemma FieldsInOrder(secs: nat, millis: nat, secs2: nat, millis2: nat)
    requires Earlier(secs, millis, secs2, millis2)
    ensures Less(Fields(secs, millis), Fields(secs2, millis2), NatBelow)
  {
    hide DaysToYmd, NaiveDate, DateFields, TimeFields, Before, IsDate, Less;
    var d, d2 := DaysToYmd(secs / 86400), DaysToYmd(secs2 / 86400);
    var t, t2 := secs % 86400, secs2 % 86400;
    assert |DateFields(d)| == 3 == |DateFields(d2)| by { ThreeAndFour(d, t, millis); ThreeAndFour(d2, t2, millis2); }
    LessConcat(DateFields(d), DateFields(d2), TimeFields(t, millis), TimeFields(t2, millis2), NatBelow);
    if secs / 86400 < secs2 / 86400 {
      DateFieldsInOrder(d, d2);
      ClosedFormIsCalendar(secs / 86400);
      ClosedFormIsCalendar(secs2 / 86400);
      DatesInOrder(secs / 86400, secs2 / 86400);
    } else {
      TimeFieldsInOrder(t, millis, t2, millis2);
    }
  }

  lemma ThreeAndFour(d: Date, t: nat, millis: nat)
    ensures |DateFields(d)| == 3 && |TimeFields(t, millis)| == 4
  {
  }

  /** Four digits of year. */
  predicate ShortYear(secs: nat) {
    DaysToYmd(secs / 86400).year <= 9999
  }

  lemma Powers()
    ensures Pow10(2) == 100 && Pow10(3) == 1000 && Pow10(4) == 10000
  {
    assert Pow10(1) == 10 * Pow10(0) && Pow10(2) == 10 * Pow10(1) && Pow10(3) == 10 * Pow10(2);
  }

  lemma PartsFit(d: Date, t: nat, millis: nat)
    requires IsDate(d) && t < 86400 && millis < 1000
    ensures Fit((DateFields(d) + TimeFields(t, millis))[1..], WIDTHS[1..])
    ensures d.year <= 9999 ==> Fit(DateFields(d) + TimeFields(t, millis), WIDTHS)
  {
    hide Pow10, IsLeap;
    Powers();
    ClockParts(t);
  }

  lemma FieldsFit(secs: nat, millis: nat)
    requires millis < 1000
    ensures |Fields(secs, millis)| == 7
    ensures Fit(Fields(secs, millis)[1..], WIDTHS[1..])
    ensures ShortYear(secs) ==> Fit(Fields(secs, millis), WIDTHS)
  {
    hide DaysToYmd, IsDate, NaiveDate, Fit;
    ClosedFormIsCalendar(secs / 86400);
    PartsFit(DaysToYmd(secs / 86400), secs % 86400, millis);
  }

  /** RFC 3339, section 5.1: texts sort as instants do. */
  lemma TextOrderIsTimeOrder(secs: nat, millis: nat, secs2: nat, millis2: nat)
    requires millis < 1000 && millis2 < 1000 && ShortYear(secs) && ShortYear(secs2)
    ensures TextBefore(Iso8601(secs, millis), Iso8601(secs2, millis2)) <==> Earlier(secs, millis, secs2, millis2)
  {
    hide Fields, DaysToYmd, Print, Less, Fit;
    var a, b := Fields(secs, millis), Fields(secs2, millis2);
    FieldsFit(secs, millis);
    FieldsFit(secs2, millis2);
    PrintOrder(a, b, WIDTHS, AFTER);
    LessIsStrict(a, b);
    if Earlier(secs, millis, secs2, millis2) {
      FieldsInOrder(secs, millis, secs2, millis2);
    } else if Earlier(secs2, millis2, secs, millis) {
      FieldsInOrder(secs2, millis2, secs, millis);
    } else {
      assert a == b;
    }
  }

  // ---------- the width ----------

  lemma LastShortDay(days: nat)
    requires days == 2932896
    ensures NaiveDate(days) == Date(9999, 12, 31)
  {
    hide DaysToYmd, NaiveDate;
    ClosedFormIsCalendar(days);
    ClosedFormOf(days, EraDay(24, 3, 24, 3, 305));
  }

  /** The year has four digits up to the end of 9999. */
  lemma ShortYearExactly(secs: nat)
    ensures ShortYear(secs) <==> secs < 253402300800
  {
    hide DaysToYmd, NaiveDate, IsDate;
    var days, last := secs / 86400, 2932896;
    LastShortDay(last);
    ClosedFormIsCalendar(days);
    if days < last {
      DatesInOrder(days, last);
    } else if days > last {
      assert NaiveDate(last + 1) == Date(10000, 1, 1) by { FirstLongDay(last); }
      if days > last + 1 {
        DatesInOrder(last + 1, days);
      }
    }
  }

  lemma FirstLongDay(days: nat)
    requires NaiveDate(days) == Date(9999, 12, 31)
    ensures NaiveDate(days + 1) == Date(10000, 1, 1)
  {
  }

  lemma TailWidth()
    ensures Total(WIDTHS[1..]) == 19
  {
    assert [2, 2, 2, 3][1..] == [2, 2, 3] && [2, 2, 3][1..] == [2, 3] && [2, 3][1..] == [3];
    assert Total([2, 2, 2, 3]) == 3 + Total([2, 2, 3]) == 6 + Total([2, 3]) == 13;
    assert [2, 2, 2, 2, 2, 3][1..][1..] == [2, 2, 2, 3];
    assert WIDTHS[1..] == [2, 2, 2, 2, 2, 3];
  }

  /** The text has 24 characters exactly while the year has four digits. */
  lemma TwentyFourCharacters(secs: nat, millis: nat)
    requires millis < 1000
    ensures |Iso8601(secs, millis)| == 24 <==> secs < 253402300800
  {
    hide DaysToYmd, Fit;
    var a := Fields(secs, millis);
    FieldsFit(secs, millis);
    ShortYearExactly(secs);
    PrintLength(a[1..], WIDTHS[1..], AFTER[1..]);
    TailWidth();
    DecimalLength(a[0], 4);
    Powers();
    if ShortYear(secs) {
      PaddedIsFixed(a[0], 4);
    }
  }

  // ---------- reading it back ----------

  predicate IsDigit(c: char) { '0' <= c <= '9' }

  function ParseDigits(s: string): Option<nat> {
    if s == "" then Some(0)
    else
      var n := |s| - 1;
      var front := ParseDigits(s[..n]);
      if front.None? || !IsDigit(s[n]) then None else Some(10 * front.value + (s[n] as int - '0' as int))
  }

  /** Reads numbers of the given widths, each followed by its separator, and nothing else. */
  function ParseFields(text: string, widths: seq<nat>, after: string): Option<seq<nat>>
    requires |widths| == |after|
  {
    if widths == [] then if text == "" then Some([]) else None
    else if |text| <= widths[0] || text[widths[0]] != after[0] then None
    else
      var first := ParseDigits(text[..widths[0]]);
      var rest := ParseFields(text[widths[0] + 1..], widths[1..], after[1..]);
      if first.None? || rest.None? then None else Some([first.value] + rest.value)
  }

  /** Where the first dash is, or the length. */
  function FirstDash(text: string): (h: nat)
    ensures h <= |text|
  {
    if text == "" || text[0] == '-' then 0 else 1 + FirstDash(text[1..])
  }

  /** Seconds and milliseconds of a timestamp with a year of any length; the calendar gives the days. */
  function ParseIso8601(text: string): Option<(int, nat)> {
    var h := FirstDash(text);
    if h == |text| then None
    else
      var year, r := ParseDigits(text[..h]), ParseFields(text[h + 1..], [2, 2, 2, 2, 2, 3], "-T::.Z");
      if year.Some? && r.Some? && |r.value| == 6 then
        var f := r.value;
        Some((86400 * DayNumber(Date(year.value, f[0], f[1])) + 3600 * f[2] + 60 * f[3] + f[4], f[5]))
      else None
  }

  lemma {:induction false} DigitsReadBack(n: nat, w: nat)
    requires n < Pow10(w)
    ensures ParseDigits(Fixed(n, w)) == Some(n)
  {
    if w > 0 {
      DigitsReadBack(n / 10, w - 1);
      assert Fixed(n, w)[..w - 1] == Fixed(n / 10, w - 1);
      assert Fixed(n, w)[w - 1] as int == '0' as int + n % 10;
    }
  }

  lemma FirstFieldReadsBack(n: nat, w: nat, sep: char, rest: string, widths: seq<nat>, after: string)
    requires |widths| == |after| > 0 && widths[0] == w && after[0] == sep && n < Pow10(w)
    ensures ParseFields(Fixed(n, w) + [sep] + rest, widths, after) ==
            var r := ParseFields(rest, widths[1..], after[1..]);
            if r.None? then None else Some([n] + r.value)
  {
    var text := Fixed(n, w) + [sep] + rest;
    DigitsReadBack(n, w);
    assert text[..w] == Fixed(n, w) && text[w] == sep && text[w + 1..] == rest;
  }

  lemma {:induction false} FieldsReadBack(fields: seq<nat>, widths: seq<nat>, after: string)
    requires |after| == |fields| && Fit(fields, widths)
    ensures ParseFields(Print(fields, widths, after), widths, after) == Some(fields)
  {
    hide Fixed, Padded, Pow10, ParseDigits;
    if fields != [] {
      var rest := Print(fields[1..], widths[1..], after[1..]);
      PaddedIsFixed(fields[0], widths[0]);
      FieldsReadBack(fields[1..], widths[1..], after[1..]);
      FirstFieldReadsBack(fields[0], widths[0], after[0], rest, widths, after);
      assert [fields[0]] + fields[1..] == fields;
    }
  }

  // ---------- order past the year 9999 ----------

  /** Digits of the year in the text: four, or more if it needs them. */
  function YearWidth(year: nat): nat {
    if |Decimal(year)| < 4 then 4 else |Decimal(year)|
  }

  lemma YearText(year: nat)
    ensures YearWidth(year) >= 4 && year < Pow10(YearWidth(year)) && Padded(year, 4) == Fixed(year, YearWidth(year))
  {
    var w := YearWidth(year);
    DecimalLength(year, w);
    PaddedIsFixed(year, w);
    assert |Decimal(year)| >= 4 ==> Padded(year, 4) == Decimal(year) == Padded(year, w);
  }

  lemma {:induction false} Pow10Monotone(v: nat, w: nat)
    requires v <= w
    ensures 1 <= Pow10(v) <= Pow10(w) && Pow10(w) == Pow10(v) * Pow10(w - v)
    decreases w
  {
    if v < w {
      Pow10Monotone(v, w - 1);
      assert 10 * (Pow10(v) * Pow10(w - 1 - v)) == Pow10(v) * (10 * Pow10(w - 1 - v));
    } else if v > 0 {
      Pow10Monotone(v - 1, w - 1);
    }
  }

  lemma WidthsRise(y: nat, z: nat)
    requires y <= z
    ensures YearWidth(y) <= YearWidth(z)
  {
    DecimalLength(y, |Decimal(z)|);
    DecimalLength(z, |Decimal(z)|);
  }

  /** The number without its last j digits. */
  function Drop(n: nat, j: nat): nat {
    if j == 0 then n else Drop(n / 10, j - 1)
  }

  lemma {:induction false} DropIsQuotient(n: nat, j: nat)
    ensures Pow10(j) >= 1 && Drop(n, j) == n / Pow10(j)
  {
    hide Pow10;
    Pow10Monotone(0, j);
    if j == 0 {
      PowZero(j);
    } else {
      DropIsQuotient(n / 10, j - 1);
      NextPow(j);
      DivideTwice(n, 10, Pow10(j - 1), Pow10(j));
    }
  }

  /** The first v of w digits. */
  lemma {:induction false} FixedPrefix(n: nat, v: nat, w: nat)
    requires v <= w
    ensures Fixed(n, w)[..v] == Fixed(Drop(n, w - v), v)
    decreases w
  {
    hide Fixed;
    if v == w {
      assert Fixed(n, w)[..w] == Fixed(n, w);
    } else {
      FixedPrefix(n / 10, v, w - 1);
      FixedFront(n, w, v);
    }
  }

  lemma FixedFront(n: nat, w: nat, v: nat)
    requires v < w
    ensures Fixed(n, w)[..v] == Fixed(n / 10, w - 1)[..v]
  {
  }

  lemma PowZero(n: nat)
    requires n == 0
    ensures Pow10(n) == 1
  {
  }

  lemma NextPow(n: nat)
    requires n > 0
    ensures Pow10(n) == 10 * Pow10(n - 1)
  {
  }

  lemma PrefixFits(n: nat, v: nat, w: nat)
    requires v <= w && n < Pow10(w)
    ensures Pow10(w - v) >= 1 && n / Pow10(w - v) < Pow10(v)
  {
    hide Pow10;
    Pow10Monotone(v, w);
    Pow10Monotone(0, w - v);
    QuotientBelow(n, Pow10(v), Pow10(w - v));
  }

  /** A shorter number, ended by a dash, against a longer one. */
  lemma ShorterFirst(y: nat, v: nat, z: nat, w: nat, restY: string, restZ: string)
    requires v < w && y < Pow10(v) && z < Pow10(w)
    ensures Pow10(w - v) >= 1
    ensures TextBefore(Fixed(y, v) + "-" + restY, Fixed(z, w) + restZ) <==> y <= z / Pow10(w - v)
  {
    hide Fixed, Pow10;
    FixedPrefix(z, v, w);
    DropIsQuotient(z, w - v);
    PrefixFits(z, v, w);
    var front := z / Pow10(w - v);
    FixedOrder(y, front, v);
    var tail := Fixed(z, w)[v..] + restZ;
    LessConcat(Fixed(y, v), Fixed(front, v), "-" + restY, tail, CharBelow);
    assert Fixed(y, v) + "-" + restY == Fixed(y, v) + ("-" + restY);
    assert Fixed(z, w) + restZ == Fixed(front, v) + tail;
    DigitAt(z, w, v);
    assert tail[0] == Fixed(z, w)[v] && ("-" + restY)[0] == '-';
    assert CharBelow(("-" + restY)[0], tail[0]);
  }

  lemma {:induction false} DigitAt(n: nat, w: nat, i: nat)
    requires i < w
    ensures IsDigit(Fixed(n, w)[i])
  {
    if i < w - 1 {
      DigitAt(n / 10, w - 1, i);
    }
  }

  lemma {:induction false} TextTotal(a: string, b: string)
    ensures TextBefore(a, b) ==> !TextBefore(b, a)
    ensures a == b || TextBefore(a, b) || TextBefore(b, a)
  {
    if a != [] && b != [] {
      TextTotal(a[1..], b[1..]);
      assert a == [a[0]] + a[1..] && b == [b[0]] + b[1..];
    }
  }

  /** The text behind the year. */
  function AfterYear(secs: nat, millis: nat): string {
    Print(Fields(secs, millis)[1..], WIDTHS[1..], AFTER[1..])
  }

  function YearOf(secs: nat): nat {
    DaysToYmd(secs / 86400).year
  }

  lemma TextParts(secs: nat, millis: nat)
    ensures Iso8601(secs, millis) ==
            Fixed(YearOf(secs), YearWidth(YearOf(secs))) + "-" + AfterYear(secs, millis)
  {
    hide DaysToYmd, Padded, Fixed, YearWidth;
    YearText(YearOf(secs));
    assert Fields(secs, millis)[0] == YearOf(secs);
  }

  lemma YearsInOrder(secs: nat, secs2: nat)
    requires secs <= secs2
    ensures YearOf(secs) <= YearOf(secs2)
  {
    hide DaysToYmd, NaiveDate, IsDate;
    ClosedFormIsCalendar(secs / 86400);
    ClosedFormIsCalendar(secs2 / 86400);
    if secs / 86400 < secs2 / 86400 {
      DatesInOrder(secs / 86400, secs2 / 86400);
    }
  }

  /** With years of one width texts are in order. */
  lemma SameWidthInOrder(secs: nat, millis: nat, secs2: nat, millis2: nat)
    requires millis < 1000 && millis2 < 1000 && Earlier(secs, millis, secs2, millis2)
    requires YearWidth(YearOf(secs)) == YearWidth(YearOf(secs2))
    ensures TextBefore(Iso8601(secs, millis), Iso8601(secs2, millis2))
  {
    hide DaysToYmd, Padded, Fixed, YearWidth, Print, Less, Fit, Iso8601;
    var y, z := YearOf(secs), YearOf(secs2);
    var a, b := Fields(secs, millis), Fields(secs2, millis2);
    FieldsFit(secs, millis);
    FieldsFit(secs2, millis2);
    PrintOrder(a[1..], b[1..], WIDTHS[1..], AFTER[1..]);
    FieldsInOrder(secs, millis, secs2, millis2);
    assert a == [y] + a[1..] && b == [z] + b[1..];
    LessCons(y, z, a[1..], b[1..]);
    YearText(y);
    YearText(z);
    FixedOrder(y, z, YearWidth(y));
    TextParts(secs, millis);
    TextParts(secs2, millis2);
    FieldOrder(Fixed(y, YearWidth(y)), Fixed(z, YearWidth(z)), '-', AfterYear(secs, millis), AfterYear(secs2, millis2));
  }

  /** Of two instants, the text of the earlier sorts first exactly if its year is at most the leading digits of the later
      year, as many as it has itself; otherwise the texts sort the wrong way round. */
  lemma TextOrderExactly(secs: nat, millis: nat, secs2: nat, millis2: nat)
    requires millis < 1000 && millis2 < 1000 && Earlier(secs, millis, secs2, millis2)
    ensures var w, w2 := YearWidth(YearOf(secs)), YearWidth(YearOf(secs2));
            && w <= w2 && Pow10(w2 - w) >= 1
            && (TextBefore(Iso8601(secs, millis), Iso8601(secs2, millis2)) <==>
                YearOf(secs) <= YearOf(secs2) / Pow10(w2 - w))
    ensures TextBefore(Iso8601(secs, millis), Iso8601(secs2, millis2)) <==>
            !TextBefore(Iso8601(secs2, millis2), Iso8601(secs, millis))
  {
    hide YearOf, Padded, Fixed, YearWidth, Print, Less, Iso8601, AfterYear, Pow10;
    var y, z := YearOf(secs), YearOf(secs2);
    var w, w2 := YearWidth(y), YearWidth(z);
    var s, t := Iso8601(secs, millis), Iso8601(secs2, millis2);
    YearsInOrder(secs, secs2);
    WidthsRise(y, z);
    TextTotal(s, t);
    TextParts(secs, millis);
    TextParts(secs2, millis2);
    YearText(y);
    YearText(z);
    if w < w2 {
      ShorterFirst(y, w, z, w2, AfterYear(secs, millis), "-" + AfterYear(secs2, millis2));
      assert Fixed(z, w2) + "-" + AfterYear(secs2, millis2) == Fixed(z, w2) + ("-" + AfterYear(secs2, millis2));
      LengthsDiffer(secs, millis, secs2, millis2);
    } else {
      SameWidthInOrder(secs, millis, secs2, millis2);
      PowZero(w2 - w);
    }
  }

  lemma LengthsDiffer(secs: nat, millis: nat, secs2: nat, millis2: nat)
    requires millis < 1000 && millis2 < 1000 && YearWidth(YearOf(secs)) < YearWidth(YearOf(secs2))
    ensures Iso8601(secs, millis) != Iso8601(secs2, millis2)
  {
    hide YearOf, Fit, Print, Iso8601, Fields;
    TextParts(secs, millis);
    TextParts(secs2, millis2);
    FieldsFit(secs, millis);
    FieldsFit(secs2, millis2);
    PrintLength(Fields(secs, millis)[1..], WIDTHS[1..], AFTER[1..]);
    PrintLength(Fields(secs2, millis2)[1..], WIDTHS[1..], AFTER[1..]);
    TailWidth();
  }

  // ---------- reading any year ----------

  lemma {:induction false} DashAfterDigits(digits: string, rest: string)
    requires forall i :: 0 <= i < |digits| ==> IsDigit(digits[i])
    ensures FirstDash(digits + "-" + rest) == |digits|
  {
    if digits == "" {
      assert ("" + "-" + rest)[0] == '-';
    } else {
      assert (digits + "-" + rest)[1..] == digits[1..] + "-" + rest;
      DashAfterDigits(digits[1..], rest);
    }
  }

  lemma AllDigits(n: nat, w: nat)
    ensures forall i :: 0 <= i < w ==> IsDigit(Fixed(n, w)[i])
  {
    forall i: nat | i < w
      ensures IsDigit(Fixed(n, w)[i])
    {
      DigitAt(n, w, i);
    }
  }

  lemma PartsReadBack(secs: nat, millis: nat)
    requires millis < 1000
    ensures |Fields(secs, millis)| == 7
    ensures ParseFields(AfterYear(secs, millis), [2, 2, 2, 2, 2, 3], "-T::.Z") == Some(Fields(secs, millis)[1..])
  {
    hide DaysToYmd, Fit;
    assert WIDTHS[1..] == [2, 2, 2, 2, 2, 3] && AFTER[1..] == "-T::.Z";
    FieldsFit(secs, millis);
    FieldsReadBack(Fields(secs, millis)[1..], WIDTHS[1..], AFTER[1..]);
  }

  /** The six numbers behind the year. */
  lemma FieldsAre(secs: nat, millis: nat)
    ensures var d, t := DaysToYmd(secs / 86400), secs % 86400;
            Fields(secs, millis)[1..] == [d.month, d.day, t / 3600, t % 3600 / 60, t % 60, millis]
  {
    hide DaysToYmd;
  }

  lemma TextSplits(digits: string, rest: string)
    ensures var text := digits + "-" + rest;
            text[..|digits|] == digits && text[|digits| + 1..] == rest
  {
  }

  lemma InstantBack(secs: nat)
    ensures var d, t := DaysToYmd(secs / 86400), secs % 86400;
            86400 * DayNumber(Date(d.year, d.month, d.day)) + 3600 * (t / 3600) + 60 * (t % 3600 / 60) + t % 60 == secs
  {
    hide DaysToYmd, DayNumber, NaiveDate, IsDate;
    ClosedFormIsCalendar(secs / 86400);
    CountingBack(secs / 86400);
    ClockParts(secs % 86400);
    var d := DaysToYmd(secs / 86400);
    assert Date(d.year, d.month, d.day) == d;
  }

  /** Printing an instant and reading the text gives the instant again, in every year. */
  lemma ReadBack(secs: nat, millis: nat)
    requires millis < 1000
    ensures ParseIso8601(Iso8601(secs, millis)) == Some((secs, millis))
  {
    hide DaysToYmd, DayNumber, ParseFields, ParseDigits, AfterYear, Fixed, YearWidth, Fields, Iso8601, Pow10;
    var year := YearOf(secs);
    var digits, rest := Fixed(year, YearWidth(year)), AfterYear(secs, millis);
    TextParts(secs, millis);
    YearText(year);
    DigitsReadBack(year, YearWidth(year));
    AllDigits(year, YearWidth(year));
    DashAfterDigits(digits, rest);
    TextSplits(digits, rest);
    PartsReadBack(secs, millis);
    FieldsAre(secs, millis);
    InstantBack(secs);
  }

  // ---------- the characters ----------

  lemma PrintCons(x: nat, w: nat, c: char, fields: seq<nat>, widths: seq<nat>, after: string)
    requires |fields| == |widths| == |after| && w >= 1 && x < Pow10(w)
    ensures Print([x] + fields, [w] + widths, [c] + after) == Fixed(x, w) + [c] + Print(fields, widths, after)
  {
    hide Padded, Fixed;
    PaddedIsFixed(x, w);
    assert ([x] + fields)[1..] == fields && ([w] + widths)[1..] == widths && ([c] + after)[1..] == after;
  }

  /** Six numbers with their separators. */
  function Clock(f: seq<nat>): string
    requires |f| == 6
  {
    Fixed(f[0], 2) + "-" + (Fixed(f[1], 2) + "T" + (Fixed(f[2], 2) + ":" + (Fixed(f[3], 2) + ":"
    + (Fixed(f[4], 2) + "." + (Fixed(f[5], 3) + "Z")))))
  }

  lemma PrintClock(f: seq<nat>)
    requires |f| == 6 && Fit(f, [2, 2, 2, 2, 2, 3])
    ensures Print(f, [2, 2, 2, 2, 2, 3], "-T::.Z") == Clock(f)
  {
    hide Fixed, Print, Pow10;
    NothingPrinted();
    PrintOne(f, 5, 3, 'Z', [], "");
    PrintOne(f, 4, 2, '.', [3], "Z");
    PrintOne(f, 3, 2, ':', [2, 3], ".Z");
    PrintOne(f, 2, 2, ':', [2, 2, 3], ":.Z");
    PrintOne(f, 1, 2, 'T', [2, 2, 2, 3], "::.Z");
    PrintOne(f, 0, 2, '-', [2, 2, 2, 2, 3], "T::.Z");
    assert [3] + [] == [3] && ['Z'] + "" == "Z" && f[6..] == [];
    assert [2] + [3] == [2, 3] && ['.'] + "Z" == ".Z";
    assert [2] + [2, 3] == [2, 2, 3] && [':'] + ".Z" == ":.Z";
    assert [2] + [2, 2, 3] == [2, 2, 2, 3] && [':'] + ":.Z" == "::.Z";
    assert [2] + [2, 2, 2, 3] == [2, 2, 2, 2, 3] && ['T'] + "::.Z" == "T::.Z";
    assert [2] + [2, 2, 2, 2, 3] == [2, 2, 2, 2, 2, 3] && ['-'] + "T::.Z" == "-T::.Z";
    assert f[0..] == f && Fixed(f[5], 3) + ['Z'] + "" == Fixed(f[5], 3) + "Z";
  }

  /** Number i with its separator, before the others. */
  lemma PrintOne(f: seq<nat>, i: nat, w: nat, c: char, widths: seq<nat>, after: string)
    requires i < |f| && |f| - i - 1 == |widths| == |after| && w >= 1 && f[i] < Pow10(w)
    ensures Print(f[i..], [w] + widths, [c] + after) == Fixed(f[i], w) + [c] + Print(f[i + 1..], widths, after)
  {
    hide Fixed, Print, Pow10;
    PrintCons(f[i], w, c, f[i + 1..], widths, after);
    assert [f[i]] + f[i + 1..] == f[i..];
  }

  lemma NothingPrinted()
    ensures Print([], [], "") == ""
  {
  }

  lemma PartAt(part: string, sep: string, rest: string, i: nat)
    requires |sep| == 1 && i < |part| + 1 + |rest|
    ensures (part + sep + rest)[i] ==
            if i < |part| then part[i] else if i == |part| then sep[0] else rest[i - |part| - 1]
  {
  }

  /** The nineteen characters behind the year and its hyphen. */
  lemma ClockChars(f: seq<nat>)
    requires |f| == 6
    ensures var t := Clock(f);
            && |t| == 19
            && t[2] == '-' && t[5] == 'T' && t[8] == ':' && t[11] == ':' && t[14] == '.' && t[18] == 'Z'
            && forall i :: 0 <= i < 19 && i !in {2, 5, 8, 11, 14, 18} ==> IsDigit(t[i])
  {
    hide Fixed, IsDigit;
    AllDigits(f[0], 2);
    AllDigits(f[1], 2);
    AllDigits(f[2], 2);
    AllDigits(f[3], 2);
    AllDigits(f[4], 2);
    AllDigits(f[5], 3);
    var e := Fixed(f[5], 3) + "Z";
    var d := Fixed(f[4], 2) + "." + e;
    var c := Fixed(f[3], 2) + ":" + d;
    var b := Fixed(f[2], 2) + ":" + c;
    var a := Fixed(f[1], 2) + "T" + b;
    assert Clock(f) == Fixed(f[0], 2) + "-" + a;
    assert |e| == 4 && |d| == 7 && |c| == 10 && |b| == 13 && |a| == 16;
    forall i | 0 <= i < 19 && i !in {2, 5, 8, 11, 14, 18}
      ensures IsDigit(Clock(f)[i])
    {
      PartAt(Fixed(f[0], 2), "-", a, i);
      if i > 2 {
        PartAt(Fixed(f[1], 2), "T", b, i - 3);
      }
      if i > 5 {
        PartAt(Fixed(f[2], 2), ":", c, i - 6);
      }
      if i > 8 {
        PartAt(Fixed(f[3], 2), ":", d, i - 9);
      }
      if i > 11 {
        PartAt(Fixed(f[4], 2), ".", e, i - 12);
      }
    }
  }

  lemma FromTheEnd(front: string, clock: string)
    requires |clock| == 19
    ensures var text := front + "-" + clock;
            && |text| == |front| + 20 && text[|front|] == '-'
            && (forall i :: 0 <= i < |front| ==> text[i] == front[i])
            && (forall i :: |front| < i < |text| ==> text[i] == clock[i - |front| - 1])
  {
  }

  /** Where the separators stand, counted from the end, in every year; everything else is a digit. */
  lemma Separators(secs: nat, millis: nat)
    requires millis < 1000
    ensures var text := Iso8601(secs, millis);
            var n := |text|;
            && n >= 24
            && text[n - 20] == '-' && text[n - 17] == '-' && text[n - 14] == 'T' && text[n - 11] == ':'
            && text[n - 8] == ':' && text[n - 5] == '.' && text[n - 1] == 'Z'
            && forall i :: 0 <= i < n && i !in {n - 20, n - 17, n - 14, n - 11, n - 8, n - 5, n - 1} ==> IsDigit(text[i])
  {
    hide DaysToYmd, Fixed, YearWidth, Iso8601, IsDigit, Clock, Fit, Fields;
    FieldsFit(secs, millis);
    var year, f := YearOf(secs), Fields(secs, millis)[1..];
    assert WIDTHS[1..] == [2, 2, 2, 2, 2, 3] && AFTER[1..] == "-T::.Z";
    PrintClock(f);
    ClockChars(f);
    TextParts(secs, millis);
    YearText(year);
    AllDigits(year, YearWidth(year));
    FromTheEnd(Fixed(year, YearWidth(year)), Clock(f));
  }

  /** For a year of four digits: positions 4, 7, 10, 13, 16, 19 and 23. */
  lemma SeparatorsOfShortYear(secs: nat, millis: nat)
    requires millis < 1000 && secs < 253402300800
    ensures var text := Iso8601(secs, millis);
            && |text| == 24
            && text[4] == '-' && text[7] == '-' && text[10] == 'T' && text[13] == ':' && text[16] == ':'
            && text[19] == '.' && text[23] == 'Z'
            && forall i :: 0 <= i < 24 && i !in {4, 7, 10, 13, 16, 19, 23} ==> IsDigit(text[i])
  {
    hide Iso8601;
    TwentyFourCharacters(secs, millis);
    Separators(secs, millis);
  }

  /** No two instants have the same text. */
  lemma TextsDiffer(secs: nat, millis: nat, secs2: nat, millis2: nat)
    requires millis < 1000 && millis2 < 1000
    ensures Iso8601(secs, millis) == Iso8601(secs2, millis2) <==> secs == secs2 && millis == millis2
  {
    hide Iso8601, ParseIso8601;
    ReadBack(secs, millis);
    ReadBack(secs2, millis2);
  }

  // ---------- order up to a bound ----------

  /** Text order is time order for all instants before some second. */
  ghost predicate OrderedBefore(bound: nat) {
    forall secs: nat, millis: nat, secs2: nat, millis2: nat ::
      secs < bound && secs2 < bound && millis < 1000 && millis2 < 1000 ==>
        (TextBefore(Iso8601(secs, millis), Iso8601(secs2, millis2)) <==> Earlier(secs, millis, secs2, millis2))
  }

  /** Timestamps sort chronologically up to the end of 9999, and no further. */
  lemma OrderEndsWith9999(bound: nat)
    ensures OrderedBefore(bound) <==> bound <= 253402300800
  {
    hide Iso8601, TextBefore, YearOf, YearWidth, Pow10;
    if bound <= 253402300800 {
      forall secs: nat, millis: nat, secs2: nat, millis2: nat |
        secs < bound && secs2 < bound && millis < 1000 && millis2 < 1000
        ensures TextBefore(Iso8601(secs, millis), Iso8601(secs2, millis2)) <==> Earlier(secs, millis, secs2, millis2)
      {
        ShortYearExactly(secs);
        ShortYearExactly(secs2);
        TextOrderIsTimeOrder(secs, millis, secs2, millis2);
      }
    } else {
      var last, first := 253402300799, 253402300800;
      TextOrderExactly(last, 0, first, 0);
      LastAndFirst(last, first);
      assert Earlier(last, 0, first, 0);
    }
  }

  lemma LastAndFirst(last: nat, first: nat)
    requires last == 253402300799 && first == last + 1
    ensures YearOf(last) == 9999 && YearOf(first) == 10000
    ensures YearWidth(9999) == 4 && YearWidth(10000) == 5 && Pow10(1) == 10
  {
    hide DaysToYmd, NaiveDate, IsDate;
    var days := 2932896;
    assert last / 86400 == days && first / 86400 == days + 1;
    LastShortDay(days);
    FirstLongDay(days);
    ClosedFormIsCalendar(days);
    ClosedFormIsCalendar(days + 1);
    FourAndFive(9999, 10000);
  }

  lemma FourAndFive(y: nat, z: nat)
    requires y == 9999 && z == 10000
    ensures YearWidth(y) == 4 && YearWidth(z) == 5 && Pow10(1) == 10
  {
    Powers();
    assert Pow10(5) == 10 * Pow10(4);
    DecimalLength(y, 4);
    DecimalLength(z, 4);
    DecimalLength(z, 5);
    assert Pow10(1) == 10 * Pow10(0);
  }
}

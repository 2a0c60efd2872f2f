/** Civil dates from Unix seconds: the closed-form kernel against counting days one at a time. */
module Calendar {
  import opened Common

  datatype Date = Date(year: int, month: int, day: int)

  datatype DateTime = DateTime(date: Date, hour: int, min: int, sec: int)

  const DAYS_PER_ERA := 146097

  /** The date computed from days, where day 0 is 1970-01-01. */
  function CivilFromDays(days: int): Date {
    var z := days + 719468;
    var era := Div(if z >= 0 then z else z - 146096, DAYS_PER_ERA);
    CivilInEra(era, z - era * DAYS_PER_ERA)
  }

  /** The date of day doe of a 400-year era that starts on 1 March. */
  function CivilInEra(era: int, doe: int): Date {
    var yoe := Div(doe - Div(doe, 1460) + Div(doe, 36524) - Div(doe, 146096), 365);
    var y := yoe + era * 400;
    var doy := doe - (365 * yoe + Div(yoe, 4) - Div(yoe, 100));
    var mp := Div(5 * doy + 2, 153);
    var d := doy - Div(153 * mp + 2, 5) + 1;
    var m := mp + (if mp < 10 then 3 else -9);
    Date(if m <= 2 then y + 1 else y, m, d)
  }

  function CivilFromSeconds(secs: int): DateTime {
    var sod := Rem(secs, SECONDS_PER_DAY);
    var sod' := if sod < 0 then sod + SECONDS_PER_DAY else sod;
    DateTime(CivilFromDays(Div(secs, SECONDS_PER_DAY)),
             Div(sod', 3600), Div(Rem(sod', 3600), 60), Rem(sod', 60))
  }

  // ---------------------------------------------------------------- the Gregorian calendar

  predicate IsLeap(year: int) {
    year % 4 == 0 && (year % 100 != 0 || year % 400 == 0)
  }

  function DaysInMonth(year: int, month: int): int {
    if month == 2 then (if IsLeap(year) then 29 else 28)
    else if month in {4, 6, 9, 11} then 30
    else 31
  }

  predicate IsDate(d: Date) {
    1 <= d.month <= 12 && 1 <= d.day <= DaysInMonth(d.year, d.month)
  }

  function NextDay(d: Date): Date {
    if d.day < DaysInMonth(d.year, d.month) then d.(day := d.day + 1)
    else if d.month < 12 then Date(d.year, d.month + 1, 1)
    else Date(d.year + 1, 1, 1)
  }

  function PreviousDay(d: Date): Date {
    if d.day > 1 then d.(day := d.day - 1)
    else if d.month > 1 then Date(d.year, d.month - 1, DaysInMonth(d.year, d.month - 1))
    else Date(d.year - 1, 12, 31)
  }

  /** Counting from 1970-01-01 one day at a time, in either direction. */
  function CountDays(n: int): Date
    decreases if n >= 0 then n else -n
  {
    if n == 0 then Date(1970, 1, 1)
    else if n > 0 then NextDay(CountDays(n - 1))
    else PreviousDay(CountDays(n + 1))
  }

  // ---------------------------------------------------------------- March-based years

  /** Days before March-based year y of a 400-year era; year 400 is where the next era starts. */
  function DaysBefore(y: int): int {
    365 * y + y / 4 - y / 100 + y / 400
  }

  /** The closed form finds the year of the era that contains day doe. */
  function YearOfEra(doe: int): int {
    (doe - doe / 1460 + doe / 36524 - doe / 146096) / 365
  }

  /** doe as c centuries of 36524 days, q four-year cycles of 1461 days and s days. */
  lemma {:induction false} SplitEraDay(doe: int) returns (c: int, q: int, s: int)
    requires 0 <= doe < DAYS_PER_ERA
    ensures doe == 36524 * c + 1461 * q + s
    ensures 0 <= c <= 3 && 0 <= q <= 24 && 0 <= s <= 1460
    ensures doe / 36524 - doe / 146096 == c
    ensures c < 3 && q == 24 ==> s <= 1459
  {
    c := if doe / 36524 == 4 then 3 else doe / 36524;
    var r := doe - 36524 * c;
    q := r / 1461;
    s := r % 1461;
  }

  lemma {:induction false} DaysBeforeSplit(c: int, q: int, j: int)
    requires 0 <= c <= 3 && 0 <= q <= 24 && 0 <= j <= 3
    ensures DaysBefore(100 * c + 4 * q + j) == 36524 * c + 1461 * q + 365 * j
  {}

  /** On those parts the corrected quotient is the year: 100 c + 4 q and up to 3 more. */
  lemma {:induction false} YearOfParts(c: int, q: int, s: int)
    requires 0 <= c <= 3 && 0 <= q <= 24 && 0 <= s <= 1460
    ensures var doe := 36524 * c + 1461 * q + s;
            var j := if s / 365 > 3 then 3 else s / 365;
            (doe - doe / 1460 + c) / 365 == 100 * c + 4 * q + j
  {}

  /** The closed form finds the year of the era that contains day doe. */
  lemma {:induction false} YearOfEraIsCorrect(doe: int)
    requires 0 <= doe < DAYS_PER_ERA
    ensures var y := YearOfEra(doe);
            0 <= y < 400 && DaysBefore(y) <= doe < DaysBefore(y + 1)
  {
    hide DaysBefore;
    var c, q, s := SplitEraDay(doe);
    var j := if s / 365 > 3 then 3 else s / 365;
    YearOfParts(c, q, s);
    assert YearOfEra(doe) == 100 * c + 4 * q + j;
    hide YearOfEra;
    YearBounds(c, q, s, j);
  }

  lemma {:induction false} YearBounds(c: int, q: int, s: int, j: int)
    requires 0 <= c <= 3 && 0 <= q <= 24 && 0 <= s <= 1460 && (c < 3 && q == 24 ==> s <= 1459)
    requires j == if s / 365 > 3 then 3 else s / 365
    ensures var y := 100 * c + 4 * q + j;
            0 <= y < 400 && DaysBefore(y) <= 36524 * c + 1461 * q + s < DaysBefore(y + 1)
  {
    DaysBeforeSplit(c, q, j);
    if j < 3 {
      DaysBeforeSplit(c, q, j + 1);
    } else if q < 24 {
      DaysBeforeSplit(c, q + 1, 0);
    } else if c < 3 {
      DaysBeforeSplit(c + 1, 0, 0);
    } else {
      assert DaysBefore(400) == DAYS_PER_ERA;
    }
  }

  function YearLength(y: int): int {
    if IsLeap(y + 1) then 366 else 365
  }

  /** The date of day doy of the year that starts on 1 March of year y. */
  function FromMarch(y: int, doy: int): Date {
    var mp := (5 * doy + 2) / 153;
    MarchDate(y, mp, doy - MonthStart(mp) + 1)
  }

  /** Day d of month mp, counted from March, of the year that starts on 1 March of year y. */
  function MarchDate(y: int, mp: int, d: int): Date {
    if mp < 10 then Date(y, mp + 3, d) else Date(y + 1, mp - 9, d)
  }

  /** Day of the March-based year on which its month mp starts. */
  function MonthStart(mp: int): int {
    (153 * mp + 2) / 5
  }

  lemma {:induction false} DaysBeforeStep(y: int)
    ensures DaysBefore(y + 1) == DaysBefore(y) + YearLength(y)
  {
    var n := y + 1;
    assert n / 4 - y / 4 == if n % 4 == 0 then 1 else 0;
    assert n / 100 - y / 100 == if n % 100 == 0 then 1 else 0;
    assert n / 400 - y / 400 == if n % 400 == 0 then 1 else 0;
    assert n % 400 == 0 ==> n % 100 == 0;
    assert n % 100 == 0 ==> n % 4 == 0;
  }

  lemma {:induction false} ModPeriod(n: int, era: int)
    ensures (n + era * 400) % 4 == n % 4
    ensures (n + era * 400) % 100 == n % 100
    ensures (n + era * 400) % 400 == n % 400
  {
    ModShift(n, 4, 100 * era);
    ModShift(n, 100, 4 * era);
    ModShift(n, 400, era);
  }

  lemma {:induction false} ModShift(n: int, m: int, k: int)
    requires m > 0
    ensures (n + m * k) % m == n % m
    decreases if k >= 0 then k else -k
  {
    if k > 0 {
      ModShift(n, m, k - 1);
      ModOnce(n + m * (k - 1), m);
      assert n + m * (k - 1) + m == n + m * k;
    } else if k < 0 {
      ModShift(n, m, k + 1);
      ModOnce(n + m * k, m);
      assert n + m * k + m == n + m * (k + 1);
    }
  }

  lemma {:induction false} ModOnce(x: int, m: int)
    requires m > 0
    ensures (x + m) % m == x % m
  {
    assert x + m == m * (x / m + 1) + x % m;
    QuotientUnique(x + m, m, x / m + 1, x % m);
  }

  lemma {:induction false} QuotientUnique(x: int, m: int, q: int, r: int)
    requires m > 0 && x == m * q + r && 0 <= r < m
    ensures x % m == r
  {
    var d := q - x / m;
    assert m * d == x % m - r;
    Grows(m, d);
  }

  lemma {:induction false} Grows(m: int, d: int)
    requires m > 0
    ensures (d > 0 ==> m * d >= m) && (d < 0 ==> m * d <= -m)
  {}

  lemma {:induction false} LeapPeriod(y: int, era: int)
    ensures YearLength(y + era * 400) == YearLength(y)
  {
    ModPeriod(y + 1, era);
  }

  lemma {:induction false} DayOfYear(doe: int)
    requires 0 <= doe < DAYS_PER_ERA
    ensures var y := YearOfEra(doe);
            && y == Div(doe - Div(doe, 1460) + Div(doe, 36524) - Div(doe, 146096), 365)
            && DaysBefore(y) == 365 * y + Div(y, 4) - Div(y, 100)
            && 0 <= y < 400 && 0 <= doe - DaysBefore(y) < YearLength(y)
  {
    YearOfEraIsCorrect(doe);
    var y := YearOfEra(doe);
    DaysBeforeStep(y);
    NumeratorIsPositive(doe);
    assert y / 400 == 0;
  }

  lemma {:induction false} YearLengthBound(y: int)
    ensures YearLength(y) <= 366
  {}

  lemma {:induction false} NumeratorIsPositive(doe: int)
    requires 0 <= doe < DAYS_PER_ERA
    ensures doe - doe / 1460 + doe / 36524 - doe / 146096 >= 0
  {}

  lemma {:induction false} MonthAndDay(doy: int)
    requires 0 <= doy <= 365
    ensures var mp := (5 * doy + 2) / 153;
            Div(5 * doy + 2, 153) == mp && Div(153 * mp + 2, 5) == (153 * mp + 2) / 5
  {}

  lemma {:induction false} ClosedFormInEra(era: int, doe: int)
    requires 0 <= doe < DAYS_PER_ERA
    ensures CivilInEra(era, doe) == FromMarch(YearOfEra(doe) + era * 400, doe - DaysBefore(YearOfEra(doe)))
  {
    DayOfYear(doe);
    YearLengthBound(YearOfEra(doe));
    hide YearOfEra, DaysBefore, Div, YearLength;
    MonthAndDay(doe - DaysBefore(YearOfEra(doe)));
  }

  lemma {:induction false} ClosedForm(days: int)
    ensures var z := days + 719468;
            CivilFromDays(days) == CivilInEra(z / DAYS_PER_ERA, z % DAYS_PER_ERA)
  {
    EraIsFloor(days + 719468);
    hide CivilInEra;
  }

  lemma {:induction false} EraIsFloor(z: int)
    ensures Div(if z >= 0 then z else z - 146096, DAYS_PER_ERA) == z / DAYS_PER_ERA
  {}

  /** The month the closed form picks is the one that contains the day. */
  lemma {:induction false} MonthOfDay(doy: int)
    requires 0 <= doy <= 365
    ensures var mp := (5 * doy + 2) / 153;
            0 <= mp <= 11 && MonthStart(mp) <= doy && (mp < 11 ==> doy < MonthStart(mp + 1))
  {}

  lemma {:induction false} MonthLength(y: int, mp: int)
    requires 0 <= mp <= 11
    ensures var d := MarchDate(y, mp, 1);
            && 1 <= d.month <= 12
            && DaysInMonth(d.year, d.month) ==
               (if mp < 11 then MonthStart(mp + 1) else YearLength(y)) - MonthStart(mp)
  {}

  /** Within a March-based year the next day number is the next calendar day; after the last one
      comes 1 March of the next year. */
  lemma {:induction false} NextInMarchYear(y: int, doy: int)
    requires 0 <= doy < YearLength(y)
    ensures IsDate(FromMarch(y, doy))
    ensures NextDay(FromMarch(y, doy)) ==
            if doy + 1 < YearLength(y) then FromMarch(y, doy + 1) else FromMarch(y + 1, 0)
  {
    var mp := (5 * doy + 2) / 153;
    YearLengthBound(y);
    MonthOfDay(doy);
    MonthLength(y, mp);
    assert FromMarch(y + 1, 0) == MarchDate(y + 1, 0, 1);
    assert FromMarch(y, doy) == MarchDate(y, mp, doy - MonthStart(mp) + 1);
    hide FromMarch, MonthStart, YearLength, DaysInMonth;
    if doy + 1 < YearLength(y) {
      var mp' := if mp < 11 && doy + 1 == MonthStart(mp + 1) then mp + 1 else mp;
      if mp' < 11 { MonthStartsIncrease(mp'); }
      FromMarchIs(y, doy + 1, mp');
    }
  }

  lemma {:induction false} MonthStartsIncrease(mp: int)
    requires 0 <= mp < 11
    ensures MonthStart(mp) < MonthStart(mp + 1)
  {}

  lemma {:induction false} FromMarchIs(y: int, doy: int, mp: int)
    requires 0 <= doy <= 365 && 0 <= mp <= 11
    requires MonthStart(mp) <= doy && (mp < 11 ==> doy < MonthStart(mp + 1))
    ensures FromMarch(y, doy) == MarchDate(y, mp, doy - MonthStart(mp) + 1)
  {
    hide MarchDate, MonthStart;
    MonthStartBounds(mp);
    MonthStartBounds(mp + 1);
    MonthNumber(doy, mp);
  }

  lemma {:induction false} MonthStartBounds(mp: int)
    ensures 153 * mp - 2 <= 5 * MonthStart(mp) <= 153 * mp + 2
  {}

  lemma {:induction false} MonthNumber(doy: int, mp: int)
    requires 153 * mp <= 5 * doy + 2 < 153 * (mp + 1)
    ensures (5 * doy + 2) / 153 == mp
  {}

  /** Every computed date is a Gregorian date, and consecutive days get consecutive dates. */
  lemma {:induction false} CivilSuccessor(days: int)
    ensures IsDate(CivilFromDays(days))
    ensures CivilFromDays(days + 1) == NextDay(CivilFromDays(days))
  {
    hide CivilInEra, CivilFromDays, IsDate, NextDay;
    var z := days + 719468;
    var era, doe := z / DAYS_PER_ERA, z % DAYS_PER_ERA;
    ClosedForm(days);
    ClosedForm(days + 1);
    EraStep(z);
    SuccessorInEra(era, doe);
  }

  lemma {:induction false} SuccessorInEra(era: int, doe: int)
    requires 0 <= doe < DAYS_PER_ERA
    ensures IsDate(CivilInEra(era, doe))
    ensures NextDay(CivilInEra(era, doe)) ==
            if doe + 1 < DAYS_PER_ERA then CivilInEra(era, doe + 1) else CivilInEra(era + 1, 0)
  {
    hide YearOfEra, DaysBefore, CivilInEra, IsDate, NextDay, FromMarch, YearLength, Div;
    var y := YearOfEra(doe);
    DayOfYear(doe);
    LeapPeriod(y, era);
    DaysBeforeStep(y);
    ClosedFormInEra(era, doe);
    NextInMarchYear(y + era * 400, doe - DaysBefore(y));
    if doe + 1 < DAYS_PER_ERA {
      SameOrNextYear(doe);
      ClosedFormInEra(era, doe + 1);
    } else {
      LastDayOfEra(y, doe);
      ClosedFormInEra(era + 1, 0);
    }
  }

  lemma {:induction false} LastDayOfEra(y: int, doe: int)
    requires doe == DAYS_PER_ERA - 1 && 0 <= y < 400 && DaysBefore(y) <= doe
    requires doe < DaysBefore(y + 1)
    ensures y == 399 && doe + 1 == DaysBefore(y + 1) && YearOfEra(0) == 0 && DaysBefore(0) == 0
  {}

  lemma {:induction false} EraStep(z: int)
    ensures if z % DAYS_PER_ERA + 1 < DAYS_PER_ERA
            then (z + 1) / DAYS_PER_ERA == z / DAYS_PER_ERA && (z + 1) % DAYS_PER_ERA == z % DAYS_PER_ERA + 1
            else (z + 1) / DAYS_PER_ERA == z / DAYS_PER_ERA + 1 && (z + 1) % DAYS_PER_ERA == 0
  {}

  lemma {:induction false} DaysBeforeIncreases(y: int, y': int)
    requires y <= y'
    ensures DaysBefore(y) + 365 * (y' - y) <= DaysBefore(y')
    decreases y' - y
  {
    if y < y' {
      DaysBeforeStep(y);
      DaysBeforeIncreases(y + 1, y');
    }
  }

  /** The year of the next day is the same one, or the next one on the last day. */
  lemma {:induction false} SameOrNextYear(doe: int)
    requires 0 <= doe && doe + 1 < DAYS_PER_ERA
    ensures var y := YearOfEra(doe);
            YearOfEra(doe + 1) == if doe + 1 < DaysBefore(y + 1) then y else y + 1
  {
    var y, y' := YearOfEra(doe), YearOfEra(doe + 1);
    YearOfEraIsCorrect(doe);
    YearOfEraIsCorrect(doe + 1);
    hide YearOfEra, DaysBefore;
    if y' < y {
      DaysBeforeIncreases(y' + 1, y);
    } else if y' > y {
      DaysBeforeIncreases(y + 1, y');
      if y' > y + 1 {
        DaysBeforeIncreases(y + 2, y');
        DaysBeforeIncreases(y + 1, y + 2);
      }
    }
  }

  lemma {:induction false} PreviousUndoesNext(d: Date)
    requires IsDate(d)
    ensures PreviousDay(NextDay(d)) == d
  {}

  /** The closed form is counting days one at a time from 1970-01-01, for every integer day. */
  lemma {:induction false} CivilCountsDays(days: int)
    ensures CivilFromDays(days) == CountDays(days)
    decreases if days >= 0 then days else -days
  {
    hide CivilFromDays, NextDay, PreviousDay, IsDate;
    if days == 0 {
      Epoch();
    } else if days > 0 {
      CivilCountsDays(days - 1);
      CivilSuccessor(days - 1);
    } else {
      CivilCountsDays(days + 1);
      CivilSuccessor(days);
      PreviousUndoesNext(CivilFromDays(days));
    }
  }

  lemma {:induction false} Epoch()
    ensures CivilFromDays(0) == Date(1970, 1, 1)
  {}

  /** The fields of the time of day recompose to the seconds since midnight. */
  lemma {:induction false} TimeOfDay(secs: int)
    ensures var t := CivilFromSeconds(secs);
            && 0 <= t.hour < 24 && 0 <= t.min < 60 && 0 <= t.sec < 60
            && 3600 * t.hour + 60 * t.min + t.sec == secs % SECONDS_PER_DAY
  {
    hide CivilFromDays;
    var sod := secs % SECONDS_PER_DAY;
    SecondOfDay(secs);
    SplitSecond(sod);
    hide Rem, Div;
  }

  lemma {:induction false} SecondOfDay(secs: int)
    ensures var sod := Rem(secs, SECONDS_PER_DAY);
            (if sod < 0 then sod + SECONDS_PER_DAY else sod) == secs % SECONDS_PER_DAY
  {}

  lemma {:induction false} SplitSecond(sod: int)
    requires 0 <= sod < SECONDS_PER_DAY
    ensures var h, m, s := Div(sod, 3600), Div(Rem(sod, 3600), 60), Rem(sod, 60);
            0 <= h < 24 && 0 <= m < 60 && 0 <= s < 60 && 3600 * h + 60 * m + s == sod
  {
    var h := sod / 3600;
    var r := sod - 3600 * h;
    var m := r / 60;
    var s := r - 60 * m;
    assert sod == 60 * (60 * h + m) + s && 0 <= s < 60;
    assert sod / 60 == 60 * h + m;
    assert Div(sod, 3600) == h && Rem(sod, 3600) == r && Div(r, 60) == m && Rem(sod, 60) == s;
    hide Div, Rem;
  }

  /** The date is that of the day the seconds fall in exactly when the seconds are not negative or
      stand on midnight; otherwise it is one day too late. */
  lemma {:induction false} DateIsRightIff(secs: int)
    ensures CivilFromSeconds(secs).date == CountDays(secs / SECONDS_PER_DAY)
            <==> secs >= 0 || secs % SECONDS_PER_DAY == 0
    ensures !(secs >= 0 || secs % SECONDS_PER_DAY == 0) ==>
              CivilFromSeconds(secs).date == NextDay(CountDays(secs / SECONDS_PER_DAY))
  {
    hide CivilFromDays;
    var day := secs / SECONDS_PER_DAY;
    CivilCountsDays(day);
    if secs >= 0 || secs % SECONDS_PER_DAY == 0 {
      assert Div(secs, SECONDS_PER_DAY) == day;
    } else {
      assert Div(secs, SECONDS_PER_DAY) == day + 1;
      CivilSuccessor(day);
    }
  }
}

/**
 The bucket functions of the pruner. Days and weeks are plain divisions; the month identifier is
 computed with a closed formula on days, and is proved here to name the civil month of the
 proleptic Gregorian calendar, counted day by day from 1970-01-01.
 */
module Calendar {
  import opened Blocks

  datatype Date = Date(year: nat, month: nat, day: nat)

  predicate LeapYear(y: nat) {
    y % 4 == 0 && (y % 100 != 0 || y % 400 == 0)
  }

  function DaysInMonth(y: nat, m: nat): nat
    requires 1 <= m <= 12
  {
    if m == 2 then (if LeapYear(y) then 29 else 28)
    else if m == 4 || m == 6 || m == 9 || m == 11 then 30
    else 31
  }

  predicate ValidDate(d: Date) {
    1 <= d.month <= 12 && 1 <= d.day <= DaysInMonth(d.year, d.month)
  }

  function NextDay(d: Date): (r: Date)
    requires ValidDate(d)
    ensures ValidDate(r)
  {
    if d.day < DaysInMonth(d.year, d.month) then Date(d.year, d.month, d.day + 1)
    else if d.month < 12 then Date(d.year, d.month + 1, 1)
    else Date(d.year + 1, 1, 1)
  }

  /** The civil date n days after 1970-01-01. */
  function Civil(n: nat): (d: Date)
    ensures ValidDate(d)
  {
    if n == 0 then Date(1970, 1, 1) else NextDay(Civil(n - 1))
  }

  // ---------------------------------------------------------------- the closed formula

  // A year of the formula starts on the first of March; an era is 400 such years.

  function YearOfEra(doe: nat): nat {
    (doe - doe / 1460 + doe / 36524 - doe / 146096) / 365
  }

  /** Days from the start of the era to the start of its year y. */
  function DaysBeforeYear(y: nat): int {
    365 * y + y / 4 - y / 100
  }

  /** Days of a year that starts in March: its last month is the February of the following civil year. */
  function YearLength(y: nat): nat {
    if LeapYear(y + 1) then 366 else 365
  }

  /** Days from the first of March to the start of month mp of the year. */
  function MonthStart(mp: nat): nat {
    (153 * mp + 2) / 5
  }

  function MonthOfYear(doy: nat): nat {
    (5 * doy + 2) / 153
  }

  /** The formula's month and year, from era and day of the era. */
  function CivilMonth(mp: nat): nat {
    if mp < 10 then mp + 3 else mp - 9
  }

  /** The date the formula's intermediate values stand for. */
  function DateOf(era: nat, yoe: nat, doy: nat): Date
    requires doy < 366
  {
    var mp := MonthOfYear(doy);
    MonthOfYearBounds(doy);
    var m := CivilMonth(mp);
    Date(yoe + era * 400 + (if m <= 2 then 1 else 0), m, doy - MonthStart(mp) + 1)
  }

  /** A day of the era lies in centuries, groups of four years, years and days. */
  lemma SplitDay(doe: nat) returns (c: nat, q: nat, s: nat, u: nat)
    requires doe < 146097
    ensures c < 4 && q < 25 && s < 4 && u < 366 && doe == 36524 * c + 1461 * q + 365 * s + u
    ensures u == 365 ==> s == 3 && (q < 24 || c == 3)
  {
    c := if doe == 146096 then 3 else doe / 36524;
    var r := doe - 36524 * c;
    q := r / 1461;
    var t := r - 1461 * q;
    s := if t == 1460 then 3 else t / 365;
    u := t - 365 * s;
  }

  lemma YearOfSplit(doe: nat, c: nat, q: nat, s: nat, u: nat)
    requires c < 4 && q < 25 && s < 4 && u < 366 && doe == 36524 * c + 1461 * q + 365 * s + u < 146097
    requires u == 365 ==> s == 3 && (q < 24 || c == 3)
    ensures YearOfEra(doe) == 100 * c + 4 * q + s
    ensures DaysBeforeYear(100 * c + 4 * q + s) == doe - u
  {
    var y := 100 * c + 4 * q + s;
    var fours := if 24 * c + q + 365 * s + u >= 1460 then 1 else 0;
    QuotientsOfSplit(doe, c, q, s, u);
    DivIs(doe - doe / 1460 + doe / 36524 - doe / 146096, 365, y, u - fours);
    hide DaysBeforeYear;
    DaysOfSplit(c, q, s);
  }

  lemma QuotientsOfSplit(doe: nat, c: nat, q: nat, s: nat, u: nat)
    requires c < 4 && q < 25 && s < 4 && u < 366 && doe == 36524 * c + 1461 * q + 365 * s + u < 146097
    requires u == 365 ==> s == 3 && (q < 24 || c == 3)
    ensures doe / 1460 == 25 * c + q + if 24 * c + q + 365 * s + u >= 1460 then 1 else 0
    ensures doe / 36524 - doe / 146096 == c
  {
    var w := 24 * c + q + 365 * s + u;
    if w >= 1460 {
      DivIs(doe, 1460, 25 * c + q + 1, w - 1460);
    } else {
      DivIs(doe, 1460, 25 * c + q, w);
    }
    if doe < 146096 {
      DivIs(doe, 36524, c, 1461 * q + 365 * s + u);
    }
  }

  lemma DaysOfSplit(c: nat, q: nat, s: nat)
    requires c < 4 && q < 25 && s < 4
    ensures DaysBeforeYear(100 * c + 4 * q + s) == 36524 * c + 1461 * q + 365 * s
  {
    var y := 100 * c + 4 * q + s;
    assert y / 4 == 25 * c + q && y / 100 == c;
  }

  /** The intermediate values stay in the ranges the program's comments give them, and name a day of a year. */
  lemma YearOfEraBounds(doe: nat)
    requires doe < 146097
    ensures YearOfEra(doe) <= 399
    ensures 0 <= doe - DaysBeforeYear(YearOfEra(doe)) < YearLength(YearOfEra(doe))
  {
    var c, q, s, u := SplitDay(doe);
    YearOfSplit(doe, c, q, s, u);
    YearLengthOfSplit(c, q, s);
  }

  lemma YearLengthOfSplit(c: nat, q: nat, s: nat)
    requires c < 4 && q < 25 && s < 4
    ensures YearLength(100 * c + 4 * q + s) == if s == 3 && (q < 24 || c == 3) then 366 else 365
  {
  }

  lemma MonthOfYearBounds(doy: nat)
    requires doy < 366
    ensures var mp := MonthOfYear(doy);
      mp <= 11 && MonthStart(mp) <= doy < MonthStart(mp + 1) && doy - MonthStart(mp) <= 30
  {
  }

  lemma LeapYearOfEra(era: nat, y: nat)
    ensures LeapYear(y + era * 400) == LeapYear(y)
  {
    DivIs(y + era * 400, 400, y / 400 + era, y % 400);
    DivIs(y + era * 400, 100, y / 100 + 4 * era, y % 100);
    DivIs(y + era * 400, 4, y / 4 + 100 * era, y % 4);
  }

  /** The length of month mp of the formula's year is that of the civil month it stands for. */
  lemma MonthLengths(era: nat, yoe: nat, mp: nat)
    requires mp <= 11
    ensures var m := CivilMonth(mp); var y := yoe + era * 400 + if m <= 2 then 1 else 0;
      && 1 <= m <= 12
      && DaysInMonth(y, m) == if mp < 11 then MonthStart(mp + 1) - MonthStart(mp) else YearLength(yoe) - 337
  {
    LeapYearOfEra(era, yoe + 1);
    if mp < 6 {
      assert mp == 0 || mp == 1 || mp == 2 || mp == 3 || mp == 4 || mp == 5;
    } else {
      assert mp == 6 || mp == 7 || mp == 8 || mp == 9 || mp == 10 || mp == 11;
    }
  }

  /** A month is found from any of its days. */
  lemma MonthOfDay(doy: nat, mp: nat)
    requires mp <= 11 && MonthStart(mp) <= doy < MonthStart(mp + 1)
    ensures MonthOfYear(doy) == mp
  {
  }

  lemma YearLengths(yoe: nat)
    ensures 365 <= YearLength(yoe) <= 366
    ensures MonthStart(11) == 337 && MonthStart(12) == 367 && MonthOfYear(0) == 0 && MonthStart(0) == 0
  {
  }

  /** The day after a day of a year, as the calendar counts. */
  lemma NextDayOfYear(era: nat, yoe: nat, doy: nat)
    requires doy < YearLength(yoe) <= 366
    ensures ValidDate(DateOf(era, yoe, doy))
    ensures NextDay(DateOf(era, yoe, doy))
         == if doy + 1 < YearLength(yoe) then DateOf(era, yoe, doy + 1) else DateOf(era, yoe + 1, 0)
  {
    hide YearLength, MonthStart, MonthOfYear, DaysInMonth;
    var mp := MonthOfYear(doy);
    MonthOfYearBounds(doy);
    MonthLengths(era, yoe, mp);
    YearLengths(yoe);
    if doy + 1 < YearLength(yoe) {
      if doy + 1 < MonthStart(mp + 1) {
        MonthOfDay(doy + 1, mp);
      } else {
        MonthStep(mp + 1);
        MonthOfDay(doy + 1, mp + 1);
      }
    } else {
      MonthsBefore(mp);
    }
  }

  lemma MonthsBefore(mp: nat)
    ensures mp < 11 ==> MonthStart(mp + 1) <= 337
  {
  }

  lemma MonthStep(mp: nat)
    ensures MonthStart(mp) < MonthStart(mp + 1)
  {
  }

  /** The date of a day counted from the start of era 0, the way the formula gets at it. */
  function FormulaDate(z: nat): Date {
    YearOfEraBounds(z % 146097);
    var yoe := YearOfEra(z % 146097);
    DateOf(z / 146097, yoe, z % 146097 - DaysBeforeYear(yoe))
  }

  /** A year and a day of it are found from the day of the era. */
  lemma YearIsUnique(doe: nat, y: nat)
    requires doe < 146097 && y <= 399 && 0 <= doe - DaysBeforeYear(y) < YearLength(y)
    ensures YearOfEra(doe) == y
  {
    YearOfEraBounds(doe);
    var z := YearOfEra(doe);
    if y < z { YearsInOrder(y, z); }
    if z < y { YearsInOrder(z, y); }
  }

  lemma {:induction false} YearsInOrder(y: nat, z: nat)
    requires y < z <= 399
    ensures DaysBeforeYear(y) + YearLength(y) <= DaysBeforeYear(z)
  {
    YearEnd(z - 1);
    if y + 1 < z {
      YearsInOrder(y, z - 1);
    }
  }

  lemma YearEnd(y: nat)
    requires y <= 398
    ensures DaysBeforeYear(y) + YearLength(y) == DaysBeforeYear(y + 1)
  {
    assert LeapYear(y + 1) == ((y + 1) % 4 == 0 && (y + 1) % 100 != 0);
  }

  lemma FormulaStep(z: nat)
    ensures ValidDate(FormulaDate(z)) && FormulaDate(z + 1) == NextDay(FormulaDate(z))
  {
    hide *;
    var era, doe := EraOf(z);
    YearOfEraBounds(doe);
    FormulaDateIs(z, era, doe);
    NextDayOfYear(era, YearOfEra(doe), doe - DaysBeforeYear(YearOfEra(doe)));
    FormulaNext(z, era, doe);
  }

  /** The date after day doe of an era, through the formula. */
  lemma FormulaNext(z: nat, era: nat, doe: nat)
    requires z == era * 146097 + doe && doe < 146097
    requires YearOfEra(doe) <= 399 && 0 <= doe - DaysBeforeYear(YearOfEra(doe)) < YearLength(YearOfEra(doe)) <= 366
    ensures var yoe := YearOfEra(doe); var doy := doe - DaysBeforeYear(yoe);
      FormulaDate(z + 1) == if doy + 1 < YearLength(yoe) then DateOf(era, yoe, doy + 1) else DateOf(era, yoe + 1, 0)
  {
    hide *;
    var yoe := YearOfEra(doe);
    var doy := doe - DaysBeforeYear(yoe);
    YearLengths(yoe);
    EraEnd(yoe);
    if doy + 1 < YearLength(yoe) {
      StepTo(z, era, doe, yoe);
    } else if yoe < 399 {
      YearLengths(yoe + 1);
      StepTo(z, era, doe, yoe + 1);
    } else {
      YearIsUnique(0, 0);
      FormulaDateIs(z + 1, era + 1, 0);
      SameYear(era);
    }
  }

  lemma StepTo(z: nat, era: nat, doe: nat, year: nat)
    requires z == era * 146097 + doe && doe + 1 < 146097 && year <= 399
    requires 0 <= doe + 1 - DaysBeforeYear(year) < YearLength(year) <= 366
    ensures FormulaDate(z + 1) == DateOf(era, year, doe + 1 - DaysBeforeYear(year))
  {
    hide YearOfEra, DaysBeforeYear, YearLength, DateOf, FormulaDate;
    YearIsUnique(doe + 1, year);
    FormulaDateIs(z + 1, era, doe + 1);
  }

  lemma EraOf(z: nat) returns (era: nat, doe: nat)
    ensures z == era * 146097 + doe && doe < 146097
  {
    era, doe := z / 146097, z % 146097;
  }

  lemma FormulaDateIs(z: nat, era: nat, doe: nat)
    requires z == era * 146097 + doe && doe < 146097
    ensures YearOfEra(doe) <= 399 && 0 <= doe - DaysBeforeYear(YearOfEra(doe)) < YearLength(YearOfEra(doe)) <= 366
    ensures FormulaDate(z) == DateOf(era, YearOfEra(doe), doe - DaysBeforeYear(YearOfEra(doe)))
  {
    YearOfEraBounds(doe);
    assert z / 146097 == era && z % 146097 == doe;
    hide YearOfEra, DaysBeforeYear, DateOf, LeapYear;
  }

  /** Where a year of an era ends, and that only the last one ends with the era. */
  lemma EraEnd(y: nat)
    requires y <= 399
    ensures DaysBeforeYear(0) == 0 && YearLength(0) > 0
    ensures y < 399 ==> DaysBeforeYear(y) + YearLength(y) == DaysBeforeYear(y + 1) <= 145731
    ensures y == 399 ==> DaysBeforeYear(y) + YearLength(y) == 146097
  {
    if y < 399 {
      YearEnd(y);
      if y < 398 { YearsInOrder(y + 1, 399); }
    }
  }

  lemma SameYear(era: nat)
    ensures DateOf(era, 400, 0) == DateOf(era + 1, 0, 0)
  {
  }

  lemma EpochDate()
    ensures FormulaDate(719468) == Date(1970, 1, 1)
  {
    YearIsUnique(135080, 369);
    FormulaDateIs(719468, 4, 135080);
    hide FormulaDate, YearOfEra;
    assert DaysBeforeYear(369) == 134774;
    assert MonthOfYear(306) == 10;
  }

  /** The formula's date is the civil date, for every day number. */
  lemma {:induction false} FormulaIsCivil(n: nat)
    ensures FormulaDate(n + 719468) == Civil(n)
  {
    if n > 0 {
      hide FormulaDate;
      FormulaIsCivil(n - 1);
      FormulaStep(n - 1 + 719468);
    } else {
      EpochDate();
    }
  }

  // ---------------------------------------------------------------- buckets

  function ToDays(p: nat): nat {
    p / 86_400_000_000_000
  }

  /** Weeks change from Sunday to Monday. The sum is kept in 64 bits. */
  function ToWeeks(p: nat): nat {
    ToSize(p + 259_200_000_000_000) / 604_800_000_000_000
  }

  function ToMonthIdentifier(p: nat): nat {
    MonthIdentifier(ToDays(p))
  }

  function MonthIdentifier(days: nat): nat {
    var z := days + 719468;
    var era := z / 146097;
    var doe := z - era * 146097;
    YearOfEraBounds(doe);
    var yoe := YearOfEra(doe);
    var y := yoe + era * 400;
    var doy := doe - DaysBeforeYear(yoe);
    var m := CivilMonth(MonthOfYear(doy));
    (y + if m <= 2 then 1 else 0) * 100 + m
  }

  lemma MonthIdentifierOfDay(day: nat)
    ensures MonthIdentifier(day) == Civil(day).year * 100 + Civil(day).month
  {
    hide *;
    FormulaIsCivil(day);
    MonthIdentifierOfFormula(day);
  }

  lemma MonthIdentifierOfFormula(day: nat)
    ensures var d := FormulaDate(day + 719468); MonthIdentifier(day) == d.year * 100 + d.month
  {
    hide *;
    var era, doe := EraOf(day + 719468);
    FormulaDateIs(day + 719468, era, doe);
    MonthIdentifierIs(day, era, doe);
  }

  lemma MonthIdentifierIs(day: nat, era: nat, doe: nat)
    requires day + 719468 == era * 146097 + doe && doe < 146097
    requires 0 <= doe - DaysBeforeYear(YearOfEra(doe)) < YearLength(YearOfEra(doe)) <= 366
    ensures var d := DateOf(era, YearOfEra(doe), doe - DaysBeforeYear(YearOfEra(doe)));
      MonthIdentifier(day) == d.year * 100 + d.month
  {
    hide YearOfEra, DaysBeforeYear, YearLength, MonthOfYear, MonthStart, CivilMonth;
    DivIs(day + 719468, 146097, era, doe);
  }

  /** The month identifier is the civil year times 100 plus the civil month. */
  lemma MonthIdentifierIsCivil(p: nat)
    ensures var d := Civil(ToDays(p)); ToMonthIdentifier(p) == d.year * 100 + d.month
  {
    hide Civil, ToDays, MonthIdentifier;
    MonthIdentifierOfDay(ToDays(p));
  }

  lemma {:induction false} CivilInOrder(n: nat, m: nat)
    requires n <= m
    ensures Civil(n).year * 100 + Civil(n).month <= Civil(m).year * 100 + Civil(m).month
  {
    if n < m {
      CivilInOrder(n, m - 1);
    }
  }

  /** Month identifiers never decrease, and are equal for two times exactly when these fall in the same civil month. */
  lemma MonthIdentifiersInOrder(p: nat, q: nat)
    ensures p <= q ==> ToMonthIdentifier(p) <= ToMonthIdentifier(q)
    ensures var d, e := Civil(ToDays(p)), Civil(ToDays(q));
      ToMonthIdentifier(p) == ToMonthIdentifier(q) <==> d.year == e.year && d.month == e.month
  {
    hide ToMonthIdentifier, Civil;
    MonthIdentifierIsCivil(p);
    MonthIdentifierIsCivil(q);
    if p <= q {
      CivilInOrder(ToDays(p), ToDays(q));
    }
  }
}

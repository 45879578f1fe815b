/** Day identifiers, counted from 1970-01-01, against the proleptic Gregorian calendar. */
module Calendar {
  import opened Integers

  // ---------------------------------------------------------------- the calendar

  datatype Date = Date(year: int, month: int, day: int)

  predicate IsLeap(year: int) {
    year % 4 == 0 && (year % 100 != 0 || year % 400 == 0)
  }

  function DaysInMonth(year: int, month: int): int {
    if month == 2 then if IsLeap(year) then 29 else 28
    else if month == 4 || month == 6 || month == 9 || month == 11 then 30
    else 31
  }

  predicate IsDate(d: Date) {
    1 <= d.month <= 12 && 1 <= d.day <= DaysInMonth(d.year, d.month)
  }

  function NextDate(d: Date): Date {
    if d.day < DaysInMonth(d.year, d.month) then d.(day := d.day + 1)
    else if d.month < 12 then Date(d.year, d.month + 1, 1)
    else Date(d.year + 1, 1, 1)
  }

  predicate Earlier(d: Date, e: Date) {
    d.year < e.year || (d.year == e.year && (d.month < e.month || (d.month == e.month && d.day < e.day)))
  }

  // ---------------------------------------------------------------- the encoder

  const DAY_OF_YEAR: seq<int> := [0, 0, 31, 59, 90, 120, 151, 181, 212, 243, 273, 304, 334, 365]

  datatype Encoded = DayId(id: int) | InvalidMonth

  /** `getDayIdByYearMonthDay`. */
  function DayIdByYearMonthDay(year: int, month: int, day: int): Encoded {
    if month < 1 || month > 12 then InvalidMonth else DayId(DayNumber(year, month, day))
  }

  function DayOfYear(year: int, month: int, day: int): int
    requires 1 <= month <= 12
  {
    var n := DAY_OF_YEAR[month] + day - 1;
    if month > 2 && TruncMod(year, 4) == 0 && (TruncMod(year, 100) != 0 || TruncMod(year, 400) == 0) then n + 1 else n
  }

  function DayNumber(year: int, month: int, day: int): int
    requires 1 <= month <= 12
  {
    year * 365 + Div(year - 1, 4) - Div(year - 1, 100) + Div(year - 1, 400) + DayOfYear(year, month, day) - 719527
  }

  /** Days from the epoch to January 1 of a year, with Euclidean quotients. */
  function YearStart(year: int): int {
    year * 365 + (year - 1) / 4 - (year - 1) / 100 + (year - 1) / 400 - 719527
  }

  lemma RemainderIsZeroAlike(a: int, b: int)
    requires b > 0
    ensures TruncMod(a, b) == 0 <==> a % b == 0
  {
    if a < 0 {
      var q, r := -a / b, -a % b;
      assert -a == q * b + r;
      assert -q * b == -(q * b) && (-q - 1) * b == -(q * b) - b;
      if r == 0 {
        EuclideanIsUnique(a, b, -q, 0);
      } else {
        EuclideanIsUnique(a, b, -q - 1, b - r);
      }
    }
  }

  /** The same count from leap years and the lengths of the months. */
  function DayCount(year: int, month: int, day: int): int
    requires 1 <= month <= 12
  {
    YearStart(year) + DAY_OF_YEAR[month] + day - 1 + if month > 2 && IsLeap(year) then 1 else 0
  }

  /** The formula of the encoder is that count. */
  lemma EncoderIsDayCount(year: int, month: int, day: int)
    requires 1 <= month <= 12
    ensures DayNumber(year, month, day) == DayCount(year, month, day)
  {
    DivIsEuclidean(year - 1, 4);
    DivIsEuclidean(year - 1, 100);
    DivIsEuclidean(year - 1, 400);
    RemainderIsZeroAlike(year, 4);
    RemainderIsZeroAlike(year, 100);
    RemainderIsZeroAlike(year, 400);
  }

  lemma YearLength(year: int)
    ensures YearStart(year + 1) - YearStart(year) == if IsLeap(year) then 366 else 365
  {
    QuotientSteps(year, 4);
    QuotientSteps(year, 100);
    QuotientSteps(year, 400);
    MultiplesNest(year);
  }

  lemma MultiplesNest(year: int)
    ensures year % 400 == 0 ==> year % 100 == 0
    ensures year % 100 == 0 ==> year % 4 == 0
  {
  }

  lemma NextDateCountsOn(d: Date)
    requires IsDate(d)
    ensures var n := NextDate(d);
            IsDate(n) && DayCount(n.year, n.month, n.day) == DayCount(d.year, d.month, d.day) + 1
  {
    if d.day == DaysInMonth(d.year, d.month) {
      if d.month == 12 {
        YearLength(d.year);
      } else {
        MonthLength(d.year, d.month);
      }
    }
  }

  lemma EpochIsDayZero()
    ensures DayNumber(1970, 1, 1) == 0
  {
  }

  /** The encoder counts days: the epoch is day 0, and the next date has the next day number. */
  lemma EncoderCountsDays(d: Date)
    requires IsDate(d)
    ensures DayNumber(1970, 1, 1) == 0
    ensures var n := NextDate(d);
            IsDate(n) && DayNumber(n.year, n.month, n.day) == DayNumber(d.year, d.month, d.day) + 1
  {
    var n := NextDate(d);
    NextDateCountsOn(d);
    EpochIsDayZero();
    EncoderIsDayCount(d.year, d.month, d.day);
    EncoderIsDayCount(n.year, n.month, n.day);
  }

  lemma MonthLength(year: int, month: int)
    requires 1 <= month < 12
    ensures DAY_OF_YEAR[month + 1] + (if month + 1 > 2 && IsLeap(year) then 1 else 0) ==
            DAY_OF_YEAR[month] + (if month > 2 && IsLeap(year) then 1 else 0) + DaysInMonth(year, month)
  {
  }

  lemma {:induction false} YearsAreOrdered(y: int, z: int)
    requires y <= z
    ensures YearStart(y) + 365 * (z - y) <= YearStart(z)
    decreases z - y
  {
    if y < z {
      YearLength(z - 1);
      YearsAreOrdered(y, z - 1);
    }
  }

  lemma DayCountIsMonotone(d: Date, e: Date)
    requires IsDate(d) && IsDate(e) && Earlier(d, e)
    ensures DayCount(d.year, d.month, d.day) < DayCount(e.year, e.month, e.day)
  {
    if d.year < e.year {
      YearLength(d.year);
      YearsAreOrdered(d.year + 1, e.year);
      MonthsAreOrdered(d.year, d.month, 12);
      MonthsAreOrdered(e.year, 1, e.month);
    } else {
      MonthsAreOrdered(d.year, d.month, e.month);
    }
  }

  /** The days before a month, which start with 0 in January, cover the earlier months of the year. */
  lemma MonthsAreOrdered(year: int, month: int, later: int)
    requires 1 <= month <= later <= 12
    ensures month < later ==> DayCount(year, month, 1) + DaysInMonth(year, month) <= DayCount(year, later, 1)
    ensures DayCount(year, later, 1) + DaysInMonth(year, later) <= YearStart(year) + if IsLeap(year) then 366 else 365
    ensures DayCount(year, month, 1) >= YearStart(year)
  {
  }

  /** Day numbers are in the order of the dates. */
  lemma EncoderIsMonotone(d: Date, e: Date)
    requires IsDate(d) && IsDate(e) && Earlier(d, e)
    ensures DayNumber(d.year, d.month, d.day) < DayNumber(e.year, e.month, e.day)
  {
    DayCountIsMonotone(d, e);
    EncoderIsDayCount(d.year, d.month, d.day);
    EncoderIsDayCount(e.year, e.month, e.day);
  }

  // ---------------------------------------------------------------- the decoder

  /** Every intermediate of the decoder that has a name. */
  datatype Decoding = Decoding(
    j: int, g: int, dg: int, c: int, dc: int, b: int, db: int, a: int, da: int,
    y: int, m: int, d: int, yyyy: int, mm: int, dd: int)

  function CenturyOf(dg: int): int {
    TruncDiv((TruncDiv(dg, 36524) + 1) * 3, 4)
  }

  function YearIn(db: int): int {
    TruncDiv((TruncDiv(db, 365) + 1) * 3, 4)
  }

  function Decode(dayId: int): Decoding {
    var j := dayId + 2472632;
    var g := Div(j, 146097);
    var dg := j - g * 146097;
    var c := CenturyOf(dg);
    var dc := dg - c * 36524;
    var b := TruncDiv(dc, 1461);
    var db := dc - b * 1461;
    var a := YearIn(db);
    var da := db - a * 365;
    var y := g * 400 + c * 100 + b * 4 + a;
    var m := TruncDiv(da * 5 + 308, 153) - 2;
    var d := da - TruncDiv((m + 4) * 153, 5) + 122;
    Decoding(j, g, dg, c, dc, b, db, a, da, y, m, d,
             y - 4800 + TruncDiv(m + 2, 12), TruncMod(m + 2, 12) + 1, d + 1)
  }

  function Packed(year: int, month: int, day: int): int {
    var n := Abs(year) * 10000 + month * 100 + day;
    if year >= 0 then n else -n
  }

  /** `getYearMonthDayByDayId`. */
  function YearMonthDayByDayId(dayId: int): int {
    var s := Decode(dayId);
    Packed(s.yyyy, s.mm, s.dd)
  }

  /** Signed year, month and day of a packed date. */
  function Split(packed: int): Date {
    var n := Abs(packed);
    Date(if packed >= 0 then n / 10000 else -(n / 10000), n / 100 % 100, n % 100)
  }

  /** Of a 400-year cycle, the century; the last one is a day longer. */
  lemma Century(dg: int)
    requires 0 <= dg < 146097
    ensures var c := CenturyOf(dg);
            0 <= c <= 3 && 0 <= dg - c * 36524 <= 36524 && (dg - c * 36524 == 36524 ==> c == 3)
  {
  }

  /** Of a century, the span of four years. */
  lemma Span(dc: int)
    requires 0 <= dc <= 36524
    ensures var b := TruncDiv(dc, 1461);
            0 <= b <= 24 && 0 <= dc - b * 1461 <= 1460 && (b == 24 && dc - b * 1461 == 1460 ==> dc == 36524)
  {
  }

  /** Of a span, the year; the last one is a day longer. */
  lemma YearOfSpan(db: int)
    requires 0 <= db <= 1460
    ensures var a := YearIn(db);
            0 <= a <= 3 && 0 <= db - a * 365 <= 365 && (db - a * 365 == 365 ==> a == 3 && db == 1460)
  {
  }

  /** Of a year that begins on March 1, the month. */
  lemma MonthOfYear(da: int)
    requires 0 <= da <= 365
    ensures var m := TruncDiv(da * 5 + 308, 153) - 2;
            && 0 <= m <= 11
            && TruncDiv((m + 4) * 153, 5) - 122 == (153 * m + 2) / 5
            && (153 * m + 2) / 5 <= da < (153 * m + 155) / 5
            && TruncMod(m + 2, 12) + 1 == (if m < 10 then m + 3 else m - 9)
            && TruncDiv(m + 2, 12) == (if m < 10 then 0 else 1)
  {
  }

  /** The day as a number of cycles, centuries, spans, years and days. */
  lemma Cycles(dayId: int)
    ensures var s := Decode(dayId);
            && s.j == 146097 * s.g + 36524 * s.c + 1461 * s.b + 365 * s.a + s.da
            && 0 <= s.dg < 146097 && 0 <= s.dc <= 36524 && 0 <= s.db <= 1460
            && 0 <= s.c <= 3 && 0 <= s.b <= 24 && 0 <= s.a <= 3 && 0 <= s.da <= 365
            && (s.da == 365 ==> s.a == 3 && (s.b == 24 ==> s.c == 3))
  {
    var s := Decode(dayId);
    CycleOf(s.j);
    Century(s.dg);
    Span(s.dc);
    YearOfSpan(s.db);
  }

  lemma CycleOf(j: int)
    ensures 0 <= j - Div(j, 146097) * 146097 < 146097
  {
    DivIsEuclidean(j, 146097);
  }

  lemma Months(dayId: int)
    ensures var s := Decode(dayId);
            && 0 <= s.m <= 11 && 0 <= s.d <= 30
            && s.da == (153 * s.m + 2) / 5 + s.d
            && s.mm == (if s.m < 10 then s.m + 3 else s.m - 9)
            && s.yyyy == s.y - 4800 + (if s.m < 10 then 0 else 1)
            && (s.m < 11 ==> s.d + 1 <= DaysInMonth(s.yyyy, s.mm))
  {
    var s := Decode(dayId);
    Cycles(dayId);
    MonthOfYear(s.da);
    MonthLengths(s.m);
  }

  lemma MonthLengths(m: int)
    requires 0 <= m <= 11
    ensures (153 * m + 155) / 5 - (153 * m + 2) / 5 ==
            if m == 1 || m == 3 || m == 6 || m == 8 || m == 11 then 30 else 31
    ensures m == 11 ==> (153 * m + 2) / 5 == 337
  {
  }

  /** Days of the first y years of a count that begins in March of a leap year. */
  function MarchCount(y: int): int {
    365 * y + y / 4 - y / 100 + y / 400
  }

  /** The same days by cycles, centuries, spans and years. */
  lemma MarchYears(g: int, c: int, b: int, a: int)
    requires 0 <= c <= 3 && 0 <= b <= 24 && 0 <= a <= 3
    ensures var y := 400 * g + 100 * c + 4 * b + a;
            MarchCount(y) == 146097 * g + 36524 * c + 1461 * b + 365 * a
  {
    var y := 400 * g + 100 * c + 4 * b + a;
    EuclideanIsUnique(y, 4, 100 * g + 25 * c + b, a);
    EuclideanIsUnique(y, 100, 4 * g + c, 4 * b + a);
    EuclideanIsUnique(y, 400, g, 100 * c + 4 * b + a);
  }

  /** A March year that has a 366th day ends in a leap year. */
  lemma LongYearIsLeap(g: int, c: int, b: int)
    requires 0 <= c <= 3 && 0 <= b <= 24 && (b == 24 ==> c == 3)
    ensures IsLeap(400 * g + 100 * c + 4 * b + 4 - 4800)
  {
    var n := 400 * g + 100 * c + 4 * b + 4 - 4800;
    EuclideanIsUnique(n, 4, 100 * g + 25 * c + b + 1 - 1200, 0);
    if b < 24 {
      EuclideanIsUnique(n, 100, 4 * g + c - 48, 4 * b + 4);
    } else {
      EuclideanIsUnique(n, 400, g + 1 - 12, 0);
    }
  }

  lemma DecodedIsDate(dayId: int)
    ensures var s := Decode(dayId); IsDate(Date(s.yyyy, s.mm, s.dd))
  {
    var s := Decode(dayId);
    Cycles(dayId);
    Months(dayId);
    if s.m == 11 {
      MonthLengths(11);
      if s.da == 365 {
        LongYearIsLeap(s.g, s.c, s.b);
      }
    }
  }

  /** January 1 of a year in terms of the count that begins in March. */
  lemma MarchStart(y: int)
    ensures YearStart(y - 4800) + 59 + (if IsLeap(y - 4800) then 1 else 0) ==
            MarchCount(y) - 2472632
  {
    var z := y - 4800;
    QuotientSteps(z, 4);
    QuotientSteps(z, 100);
    QuotientSteps(z, 400);
    MultiplesNest(z);
    EuclideanIsUnique(z, 4, y / 4 - 1200, y % 4);
    EuclideanIsUnique(z, 100, y / 100 - 48, y % 100);
    EuclideanIsUnique(z, 400, y / 400 - 12, y % 400);
  }

  lemma TableOfMarchMonths(m: int)
    requires 0 <= m <= 11
    ensures m < 10 ==> DAY_OF_YEAR[m + 3] == 59 + (153 * m + 2) / 5
    ensures m >= 10 ==> DAY_OF_YEAR[m - 9] == (153 * m + 2) / 5 - 306
  {
  }

  lemma MarchDateCount(y: int, m: int, d: int)
    requires 0 <= m <= 11
    ensures DayCount(y - 4800 + (if m < 10 then 0 else 1), if m < 10 then m + 3 else m - 9, d + 1) ==
            MarchCount(y) + (153 * m + 2) / 5 + d - 2472632
  {
    MarchStart(y);
    TableOfMarchMonths(m);
    YearLength(y - 4800);
  }

  lemma DecodedDayCount(s: Decoding)
    requires s.j == 146097 * s.g + 36524 * s.c + 1461 * s.b + 365 * s.a + s.da
    requires 0 <= s.c <= 3 && 0 <= s.b <= 24 && 0 <= s.a <= 3 && s.y == s.g * 400 + s.c * 100 + s.b * 4 + s.a
    requires 0 <= s.m <= 11 && s.da == (153 * s.m + 2) / 5 + s.d && s.dd == s.d + 1
    requires s.mm == (if s.m < 10 then s.m + 3 else s.m - 9)
    requires s.yyyy == s.y - 4800 + (if s.m < 10 then 0 else 1)
    ensures DayCount(s.yyyy, s.mm, s.dd) == s.j - 2472632
  {
    MarchYears(s.g, s.c, s.b, s.a);
    MarchDateCount(s.y, s.m, s.d);
  }

  /** The decoder yields a date, and the encoder takes that date back to the day. */
  lemma DecodedDateEncodes(dayId: int)
    ensures var s := Decode(dayId);
            IsDate(Date(s.yyyy, s.mm, s.dd)) && DayNumber(s.yyyy, s.mm, s.dd) == dayId
  {
    var s := Decode(dayId);
    DecodedIsDate(dayId);
    Cycles(dayId);
    Months(dayId);
    DecodedDayCount(s);
    EncoderIsDayCount(s.yyyy, s.mm, s.dd);
  }

  // ---------------------------------------------------------------- round trips

  lemma SplitOfPacked(d: Date)
    requires IsDate(d)
    ensures Split(Packed(d.year, d.month, d.day)) == d
  {
    var n := Abs(d.year) * 10000 + d.month * 100 + d.day;
    assert n / 10000 == Abs(d.year);
    assert n / 100 == Abs(d.year) * 100 + d.month;
  }

  /** Decoding a day, splitting the result and encoding it gives the day back, for every day there is. */
  lemma DayIdRoundTrip(dayId: int)
    ensures var d := Split(YearMonthDayByDayId(dayId));
            && IsDate(d) && DayIdByYearMonthDay(d.year, d.month, d.day) == DayId(dayId)
            && YearMonthDayByDayId(dayId) ==
               if d.year >= 0 then d.year * 10000 + d.month * 100 + d.day
               else -(-d.year * 10000 + d.month * 100 + d.day)
  {
    var s := Decode(dayId);
    DecodedDateEncodes(dayId);
    SplitOfPacked(Date(s.yyyy, s.mm, s.dd));
  }

  lemma DecodedEncodedDate(d: Date)
    requires IsDate(d)
    ensures var s := Decode(DayNumber(d.year, d.month, d.day)); d == Date(s.yyyy, s.mm, s.dd)
  {
    var id := DayNumber(d.year, d.month, d.day);
    var e := Date(Decode(id).yyyy, Decode(id).mm, Decode(id).dd);
    DecodedDateEncodes(id);
    if Earlier(d, e) {
      EncoderIsMonotone(d, e);
    } else if Earlier(e, d) {
      EncoderIsMonotone(e, d);
    }
  }

  /** Decoding an encoded date gives the date back, for every date there is. */
  lemma DateRoundTrip(d: Date)
    requires IsDate(d)
    ensures var e := DayIdByYearMonthDay(d.year, d.month, d.day);
            && e.DayId?
            && YearMonthDayByDayId(e.id) ==
               if d.year >= 0 then d.year * 10000 + d.month * 100 + d.day
               else -(-d.year * 10000 + d.month * 100 + d.day)
  {
    DecodedEncodedDate(d);
  }

  /** The encoder refuses a month if and only if the calendar has no such month. */
  lemma EncoderRefusesMonthsIff(year: int, month: int, day: int)
    ensures DayIdByYearMonthDay(year, month, day).InvalidMonth? <==>
            month !in {1, 2, 3, 4, 5, 6, 7, 8, 9, 10, 11, 12}
  {
  }

  // ---------------------------------------------------------------- 32-bit arithmetic

  /** No operation of the decoder leaves the 32-bit range: the cycle part, then the month and packing part. */
  predicate CyclesFit(s: Decoding) {
    var (p, q) := (TruncDiv(s.dg, 36524) + 1, TruncDiv(s.db, 365) + 1);
    && InInt32(s.j) && InInt32(s.j + 1) && InInt32(s.g + 1) && InInt32(s.g)
    && InInt32(s.g * 146097) && InInt32(s.dg) && InInt32(p) && InInt32(p * 3) && InInt32(s.c)
    && InInt32(s.c * 36524) && InInt32(s.dc) && InInt32(s.b) && InInt32(s.b * 1461) && InInt32(s.db)
    && InInt32(q) && InInt32(q * 3) && InInt32(s.a) && InInt32(s.a * 365) && InInt32(s.da)
    && InInt32(s.g * 400) && InInt32(s.c * 100) && InInt32(s.g * 400 + s.c * 100) && InInt32(s.b * 4)
    && InInt32(s.g * 400 + s.c * 100 + s.b * 4) && InInt32(s.y)
  }

  predicate PackingFits(s: Decoding) {
    var n := (s.m + 4) * 153;
    && InInt32(s.da * 5) && InInt32(s.da * 5 + 308) && InInt32(s.m + 2) && InInt32(s.m)
    && InInt32(s.m + 4) && InInt32(n) && InInt32(s.da - TruncDiv(n, 5)) && InInt32(s.d)
    && InInt32(s.y - 4800) && InInt32(s.yyyy) && InInt32(s.mm - 1) && InInt32(s.mm) && InInt32(s.dd)
    && InInt32(Abs(s.yyyy)) && InInt32(Abs(s.yyyy) * 10000) && InInt32(s.mm * 100)
    && InInt32(Abs(s.yyyy) * 10000 + s.mm * 100)
    && InInt32(Abs(s.yyyy) * 10000 + s.mm * 100 + s.dd) && InInt32(Packed(s.yyyy, s.mm, s.dd))
  }

  predicate DecoderFits(dayId: int) {
    CyclesFit(Decode(dayId)) && PackingFits(Decode(dayId))
  }

  /** No operation of the encoder leaves the 32-bit range, given its three quotients and its day of the year. */
  predicate SumsFit(year: int, t: int, p: int, q: int, r: int, n: int) {
    && InInt32(t) && InInt32(t - 1) && InInt32(n) && InInt32(year * 365) && InInt32(year - 1) && InInt32(year)
    && InInt32(p) && InInt32(p + 1) && InInt32(q) && InInt32(q + 1) && InInt32(r) && InInt32(r + 1)
    && InInt32(year * 365 + p) && InInt32(year * 365 + p - q) && InInt32(year * 365 + p - q + r)
    && InInt32(year * 365 + p - q + r + n) && InInt32(year * 365 + p - q + r + n - 719527)
  }

  predicate EncoderFits(year: int, month: int, day: int)
    requires 1 <= month <= 12
  {
    SumsFit(year, DAY_OF_YEAR[month] + day, Div(year - 1, 4), Div(year - 1, 100), Div(year - 1, 400),
            DayOfYear(year, month, day))
  }

  /** Decoding a day stays within 32 bits, operation by operation, exactly when the year it finds is at most
      214748 away from year 0. */
  lemma DecoderFitsIff(dayId: int)
    ensures DecoderFits(dayId) <==> Abs(Decode(dayId).yyyy) <= 214748
  {
    var s := Decode(dayId);
    Cycles(dayId);
    Months(dayId);
    if Abs(s.yyyy) <= 214748 {
      CyclesFitNearYearZero(s);
      PackingFitsNearYearZero(s);
    }
  }

  lemma CyclesFitNearYearZero(s: Decoding)
    requires -300_000 <= s.y <= 300_000 && s.y == s.g * 400 + s.c * 100 + s.b * 4 + s.a
    requires s.j == 146097 * s.g + s.dg && 0 <= s.dg < 146097 && 0 <= s.dc <= 36524 && 0 <= s.db <= 1460
    requires 0 <= s.c <= 3 && 0 <= s.b <= 24 && 0 <= s.a <= 3 && 0 <= s.da <= 365
    ensures CyclesFit(s)
  {
    assert 0 <= TruncDiv(s.dg, 36524) <= 4 && 0 <= TruncDiv(s.db, 365) <= 4;
    assert -1000 <= s.g <= 1000;
  }

  lemma PackingFitsNearYearZero(s: Decoding)
    requires Abs(s.yyyy) <= 214748 && -300_000 <= s.y <= 300_000
    requires 0 <= s.da <= 365 && 0 <= s.m <= 11 && 0 <= s.d <= 30 && 1 <= s.mm <= 12 && s.dd == s.d + 1
    ensures PackingFits(s)
  {
  }

  lemma EncoderFitsNearYearZero(d: Date)
    requires IsDate(d) && Abs(d.year) <= 214748
    ensures EncoderFits(d.year, d.month, d.day)
  {
    SmallQuotients(d.year - 1);
    assert 0 <= DAY_OF_YEAR[d.month] <= 365;
    SmallSumsFit(d.year, DAY_OF_YEAR[d.month] + d.day, Div(d.year - 1, 4), Div(d.year - 1, 100), Div(d.year - 1, 400),
                 DayOfYear(d.year, d.month, d.day));
  }

  lemma SmallQuotients(n: int)
    requires Abs(n) <= 214749
    ensures Abs(Div(n, 4)) <= 214750 && Abs(Div(n, 100)) <= 214750 && Abs(Div(n, 400)) <= 214750
  {
  }

  lemma SmallSumsFit(year: int, t: int, p: int, q: int, r: int, n: int)
    requires Abs(year) <= 214748 && Abs(p) <= 214750 && Abs(q) <= 214750 && Abs(r) <= 214750
    requires 0 <= t <= 1000 && 0 <= n <= 1000
    ensures SumsFit(year, t, p, q, r, n)
  {
  }

  /** A date goes there and back without a 32-bit overflow exactly when its year is at most 214748 away
      from year 0. */
  lemma RoundTripFitsIff(d: Date)
    requires IsDate(d)
    ensures EncoderFits(d.year, d.month, d.day) && DecoderFits(DayNumber(d.year, d.month, d.day))
            <==> Abs(d.year) <= 214748
  {
    var id := DayNumber(d.year, d.month, d.day);
    DecodedEncodedDate(d);
    DecoderFitsIff(id);
    if Abs(d.year) <= 214748 {
      EncoderFitsNearYearZero(d);
    }
  }
}

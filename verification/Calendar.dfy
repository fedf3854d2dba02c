/** Unix day numbers and the proleptic Gregorian calendar: the arithmetic
    conversion behind every `created_at` stamp, against a calendar that only
    knows how to step from one day to the next. */
module Calendar {
  import opened Strings

  datatype Date = Date(year: int, month: int, day: int)

  // ---- The reference calendar ------------------------------------------

  predicate Leap(y: int) {
    y % 4 == 0 && (y % 100 != 0 || y % 400 == 0)
  }

  function MonthLength(y: int, m: int): int {
    if m == 2 then (if Leap(y) then 29 else 28)
    else if m == 4 || m == 6 || m == 9 || m == 11 then 30
    else 31
  }

  predicate ValidDate(a: Date) {
    1 <= a.month <= 12 && 1 <= a.day <= MonthLength(a.year, a.month)
  }

  function NextDay(a: Date): Date {
    if a.day < MonthLength(a.year, a.month) then Date(a.year, a.month, a.day + 1)
    else if a.month < 12 then Date(a.year, a.month + 1, 1)
    else Date(a.year + 1, 1, 1)
  }

  function PreviousDay(a: Date): Date {
    if a.day > 1 then Date(a.year, a.month, a.day - 1)
    else if a.month > 1 then Date(a.year, a.month - 1, MonthLength(a.year, a.month - 1))
    else Date(a.year - 1, 12, 31)
  }

  /** The date reached by walking `z` days from 1970-01-01, one day at a time. */
  function WalkFromEpoch(z: int): (a: Date)
    ensures ValidDate(a)
    decreases if z < 0 then -z else z
  {
    if z == 0 then Date(1970, 1, 1)
    else if z > 0 then NextDay(WalkFromEpoch(z - 1))
    else PreviousDay(WalkFromEpoch(z + 1))
  }

  // ---- The conversion under study --------------------------------------

  /** Division that truncates toward zero, as on i64; the divisor is positive. */
  function TruncDiv(a: int, b: int): int
    requires b > 0
  {
    if a >= 0 then a / b else -((-a) / b)
  }

  function CivilFromDays(days: int): Date {
    var z := days + 719468;
    var era := TruncDiv(if z >= 0 then z else z - 146096, 146097);
    DateInEra(era, z - era * 146097)
  }

  /** The date of day `doe` of a 400-year era that begins on 1 March. */
  function DateInEra(era: int, doe: int): Date {
    var yoe := (doe - doe / 1460 + doe / 36524 - doe / 146096) / 365;
    var y := yoe + era * 400;
    var doy := doe - DaysBeforeYear(yoe);
    var mp := (5 * doy + 2) / 153;
    var d := doy - DaysBeforeMonth(mp) + 1;
    var m := if mp < 10 then mp + 3 else mp - 9;
    Date(if m <= 2 then y + 1 else y, m, d)
  }

  /** The inverse day count. Years are counted from March so that the leap day
      is the last day of its year. */
  function DaysFromCivil(a: Date): int {
    var y := MarchYear(a);
    y / 400 * 146097 + DaysBeforeYear(y % 400) + DaysBeforeMonth(MarchMonth(a)) + a.day - 1 - 719468
  }

  function MarchYear(a: Date): int {
    if a.month <= 2 then a.year - 1 else a.year
  }

  function MarchMonth(a: Date): int {
    if a.month > 2 then a.month - 3 else a.month + 9
  }

  function DaysBeforeYear(yoe: int): int {
    365 * yoe + yoe / 4 - yoe / 100
  }

  function DaysBeforeMonth(mp: int): int {
    (153 * mp + 2) / 5
  }

  // ---- The conversion inverts the day count ----------------------------

  /** The era is a floor division even though the machine truncates. */
  lemma EraIsFloor(z: int)
    ensures TruncDiv(if z >= 0 then z else z - 146096, 146097) == z / 146097
  {
  }

  /** `doe` lies in the year `k` of its era. */
  predicate InYear(doe: int, k: int) {
    0 <= k < 400
    && DaysBeforeYear(k) <= doe < DaysBeforeYear(k + 1) + if k == 399 then 1 else 0
  }

  lemma QuadCount(doe: int, k: int)
    requires InYear(doe, k)
    ensures doe / 1460 == if doe < 365 * (k + 1) then k / 4 else (k + 1) / 4
  {
    var q := if doe < 365 * (k + 1) then k / 4 else (k + 1) / 4;
    assert 1460 * q <= doe < 1460 * q + 1460;
  }

  lemma CenturyCount(doe: int, k: int)
    requires InYear(doe, k)
    ensures k / 100 <= doe / 36524 - doe / 146096 <= (k + 1) / 100
  {
    var c := k / 100;
    assert 36524 * c <= doe;
    var e := (k + 1) / 100;
    if k == 399 && doe == 146096 {
    } else {
      assert doe < 36524 * e + 36524;
    }
  }

  /** The year-of-era formula picks the year `k` whose days contain `doe`. */
  lemma YearOfEra(doe: int, k: int)
    requires InYear(doe, k)
    ensures (doe - doe / 1460 + doe / 36524 - doe / 146096) / 365 == k
  {
    QuadCount(doe, k);
    CenturyCount(doe, k);
    var quads, centuries := doe / 1460, doe / 36524 - doe / 146096;
    assert 365 * k <= doe - quads + centuries < 365 * (k + 1);
  }

  /** The days of month `mp`, counted from March, in year-of-era `yoe`. */
  function MarchMonthLength(yoe: int, mp: int): int {
    if mp < 11 then DaysBeforeMonth(mp + 1) - DaysBeforeMonth(mp)
    else DaysBeforeYear(yoe + 1) + (if yoe == 399 then 1 else 0) - DaysBeforeYear(yoe) - DaysBeforeMonth(11)
  }

  /** Whether a year is a leap year depends on its place in the era only. */
  lemma LeapRepeats(era: int, n: int)
    ensures Leap(era * 400 + n) == Leap(n)
  {
    assert (era * 400 + n) / 4 == era * 100 + n / 4;
    assert (era * 400 + n) / 100 == era * 4 + n / 100;
    assert (era * 400 + n) / 400 == era + n / 400;
  }

  lemma LeapEndsYear(yoe: int)
    requires 0 <= yoe < 400
    ensures MarchMonthLength(yoe, 11) == if Leap(yoe + 1) then 29 else 28
  {
    assert (yoe + 1) / 4 - yoe / 4 == if (yoe + 1) % 4 == 0 then 1 else 0;
    assert (yoe + 1) / 100 - yoe / 100 == if (yoe + 1) % 100 == 0 then 1 else 0;
  }

  lemma FebruaryLength(y: int)
    ensures MonthLength(y, 2) == MarchMonthLength((y - 1) % 400, 11)
  {
    hide MarchMonthLength;
    LeapRepeats((y - 1) / 400, (y - 1) % 400 + 1);
    LeapEndsYear((y - 1) % 400);
  }

  lemma MarchMonths(a: Date)
    requires 1 <= a.month <= 12
    ensures MonthLength(a.year, a.month) == MarchMonthLength(MarchYear(a) % 400, MarchMonth(a))
  {
    if a.month == 2 {
      FebruaryLength(a.year);
    }
  }

  lemma MonthOfYear(mp: int, doy: int)
    requires 0 <= mp <= 11
    requires DaysBeforeMonth(mp) <= doy < if mp == 11 then 366 else DaysBeforeMonth(mp + 1)
    ensures (5 * doy + 2) / 153 == mp
  {
  }

  lemma InMonthInYear(yoe: int, mp: int, d: int)
    requires 0 <= yoe < 400 && 0 <= mp <= 11 && 1 <= d <= MarchMonthLength(yoe, mp)
    ensures InYear(DaysBeforeYear(yoe) + DaysBeforeMonth(mp) + d - 1, yoe)
    ensures DaysBeforeMonth(mp) <= DaysBeforeMonth(mp) + d - 1
    ensures DaysBeforeMonth(mp) + d - 1 < if mp == 11 then 366 else DaysBeforeMonth(mp + 1)
  {
    if mp < 11 {
      assert DaysBeforeMonth(mp + 1) <= 337;
    }
  }

  lemma CivilInEra(era: int, doe: int)
    requires 0 <= doe < 146097
    ensures CivilFromDays(era * 146097 + doe - 719468) == DateInEra(era, doe)
  {
    hide DateInEra, TruncDiv;
    var z := era * 146097 + doe;
    EraIsFloor(z);
    assert z / 146097 == era;
  }

  lemma DateInEraOf(era: int, yoe: int, mp: int, d: int)
    requires 0 <= yoe < 400 && 0 <= mp <= 11 && 1 <= d <= MarchMonthLength(yoe, mp)
    ensures DateInEra(era, DaysBeforeYear(yoe) + DaysBeforeMonth(mp) + d - 1)
         == Date(yoe + era * 400 + (if mp < 10 then 0 else 1), if mp < 10 then mp + 3 else mp - 9, d)
  {
    hide InYear, MarchMonthLength;
    var doe := DaysBeforeYear(yoe) + DaysBeforeMonth(mp) + d - 1;
    InMonthInYear(yoe, mp, d);
    YearOfEra(doe, yoe);
    MonthOfYear(mp, doe - DaysBeforeYear(yoe));
  }

  lemma DayOfEraBound(doe: int, k: int)
    requires InYear(doe, k)
    ensures 0 <= doe < 146097
  {
  }

  lemma CivilInvertsDayCount(a: Date)
    requires ValidDate(a)
    ensures CivilFromDays(DaysFromCivil(a)) == a
  {
    hide CivilFromDays, DateInEra, InYear, MarchMonthLength;
    var era, yoe, mp := MarchYear(a) / 400, MarchYear(a) % 400, MarchMonth(a);
    var doe := DaysBeforeYear(yoe) + DaysBeforeMonth(mp) + a.day - 1;
    MarchMonths(a);
    InMonthInYear(yoe, mp, a.day);
    DateInEraOf(era, yoe, mp, a.day);
    DayOfEraBound(doe, yoe);
    CivilInEra(era, doe);
  }

  // ---- The day count follows the reference calendar --------------------

  lemma NextMarchYear(y: int)
    ensures (y + 1) / 400 * 146097 + DaysBeforeYear((y + 1) % 400)
         == y / 400 * 146097 + DaysBeforeYear(y % 400 + 1) + if y % 400 == 399 then 1 else 0
  {
    if y % 400 == 399 {
      assert (y + 1) / 400 == y / 400 + 1 && (y + 1) % 400 == 0;
    } else {
      assert (y + 1) / 400 == y / 400 && (y + 1) % 400 == y % 400 + 1;
    }
  }

  lemma NextDayAddsOne(a: Date)
    requires ValidDate(a)
    ensures ValidDate(NextDay(a)) && DaysFromCivil(NextDay(a)) == DaysFromCivil(a) + 1
  {
    MarchMonths(a);
    if a.day == MonthLength(a.year, a.month) {
      var b := NextDay(a);
      if a.month == 2 {
        NextMarchYear(MarchYear(a));
        assert MarchYear(b) == MarchYear(a) + 1;
      } else {
        assert MarchYear(b) == MarchYear(a) && MarchMonth(b) == MarchMonth(a) + 1;
      }
    }
  }

  lemma PreviousThenNext(a: Date)
    requires ValidDate(a)
    ensures ValidDate(PreviousDay(a)) && NextDay(PreviousDay(a)) == a
  {
  }

  lemma WalkSteps(z: int)
    ensures WalkFromEpoch(z + 1) == NextDay(WalkFromEpoch(z))
  {
    if z < 0 {
      PreviousThenNext(WalkFromEpoch(z + 1));
    }
  }

  lemma EpochIsDayZero()
    ensures DaysFromCivil(Date(1970, 1, 1)) == 0
  {
  }

  lemma {:induction false} WalkCountsDays(z: int)
    ensures DaysFromCivil(WalkFromEpoch(z)) == z
    decreases if z < 0 then -z else z
  {
    hide DaysFromCivil, NextDay, PreviousDay, ValidDate;
    if z == 0 {
      EpochIsDayZero();
    } else if z > 0 {
      WalkCountsDays(z - 1);
      NextDayAddsOne(WalkFromEpoch(z - 1));
    } else {
      WalkCountsDays(z + 1);
      PreviousThenNext(WalkFromEpoch(z + 1));
      NextDayAddsOne(WalkFromEpoch(z));
    }
  }

  // ---- Main results -----------------------------------------------------

  /** Every day number, before or after 1970, converts to the date that walking
      the calendar day by day arrives at, and the day count takes it back. */
  lemma CivilIsGregorian(z: int)
    ensures CivilFromDays(z) == WalkFromEpoch(z)
    ensures ValidDate(CivilFromDays(z))
    ensures DaysFromCivil(CivilFromDays(z)) == z
  {
    WalkCountsDays(z);
    CivilInvertsDayCount(WalkFromEpoch(z));
  }

  /** Stepping the day number by one steps the converted date by one day. */
  lemma CivilSteps(z: int)
    ensures CivilFromDays(0) == Date(1970, 1, 1)
    ensures CivilFromDays(z + 1) == NextDay(CivilFromDays(z))
  {
    CivilIsGregorian(0);
    CivilIsGregorian(z);
    CivilIsGregorian(z + 1);
    WalkSteps(z);
  }

  predicate Before(a: Date, b: Date) {
    a.year < b.year
    || (a.year == b.year && (a.month < b.month || (a.month == b.month && a.day < b.day)))
  }

  lemma NextDayIsLater(a: Date)
    requires ValidDate(a)
    ensures Before(a, NextDay(a))
  {
  }

  lemma {:induction false} WalkIsMonotone(z: int, w: int)
    requires z < w
    ensures Before(WalkFromEpoch(z), WalkFromEpoch(w))
    decreases w - z
  {
    WalkSteps(w - 1);
    NextDayIsLater(WalkFromEpoch(w - 1));
    if z < w - 1 {
      WalkIsMonotone(z, w - 1);
    }
  }

  /** Later day numbers convert to lexicographically later dates, and only they do. */
  lemma CivilIsMonotone(z: int, w: int)
    ensures z < w <==> Before(CivilFromDays(z), CivilFromDays(w))
  {
    hide CivilFromDays, WalkFromEpoch, DaysFromCivil, ValidDate;
    CivilIsGregorian(z);
    CivilIsGregorian(w);
    if z < w {
      WalkIsMonotone(z, w);
    } else if w < z {
      WalkIsMonotone(w, z);
    }
  }

  // ---- Time stamps (section 5.6 of RFC 3339) -----------------------------

  lemma YearsSinceEpoch(z: nat)
    ensures CivilFromDays(z).year >= 1970
  {
    hide CivilFromDays;
    CivilSteps(0);
    CivilIsMonotone(0, z);
  }

  /** A two-place field behind its separator, then the rest of the stamp. */
  function Field(separator: char, n: nat, rest: string): string {
    [separator] + (Padded(n, 2) + rest)
  }

  function ClockText(rem: nat): string {
    Field('T', rem / 3600, Field(':', rem % 3600 / 60, Field(':', rem % 60, "Z")))
  }

  function MonthToSecond(a: Date, rem: nat): string
    requires ValidDate(a)
  {
    Field('-', a.month, Field('-', a.day, ClockText(rem)))
  }

  /** Seconds since the epoch as `YYYY-MM-DDTHH:MM:SSZ`. */
  function FormatRfc3339(secs: nat): string {
    var days := secs / 86400;
    CivilIsGregorian(days);
    YearsSinceEpoch(days);
    var a := CivilFromDays(days);
    Padded(a.year, 4) + MonthToSecond(a, secs % 86400)
  }

  /** A numeral field of equal width on both sides decides before what follows it. */
  lemma FieldOrder(m: nat, n: nat, width: nat, x: string, y: string)
    requires |Padded(m, width)| == |Padded(n, width)|
    ensures Less(Padded(m, width) + x, Padded(n, width) + y) <==> m < n || (m == n && Less(x, y))
    ensures Padded(m, width) + x == Padded(n, width) + y <==> m == n && x == y
  {
    hide Padded, Less, Value;
    var a, b := Padded(m, width), Padded(n, width);
    ValueOfPadded(m, width);
    ValueOfPadded(n, width);
    NumeralOrder(a, b);
    LessBlocks(a, x, b, y);
    assert (a + x)[..|a|] == a && (a + x)[|a|..] == x;
    assert (b + y)[..|b|] == b && (b + y)[|b|..] == y;
  }

  lemma TwoPlaces(m: nat, n: nat, c: char, x: string, y: string)
    requires m < 100 && n < 100 && |x| == |y|
    ensures Less(Field(c, m, x), Field(c, n, y)) <==> m < n || (m == n && Less(x, y))
    ensures Field(c, m, x) == Field(c, n, y) <==> m == n && x == y
    ensures |Field(c, m, x)| == |Field(c, n, y)|
  {
    hide Padded;
    assert Power10(2) == 10 * Power10(1) == 100;
    PaddedWidth(m, 2);
    PaddedWidth(n, 2);
    FieldOrder(m, n, 2, x, y);
    assert ([c] + (Padded(m, 2) + x))[1..] == Padded(m, 2) + x;
    assert ([c] + (Padded(n, 2) + y))[1..] == Padded(n, 2) + y;
  }

  lemma ClockSum(r: nat)
    ensures r == 3600 * (r / 3600) + 60 * (r % 3600 / 60) + r % 60
  {
    assert r % 60 == r % 3600 % 60;
  }

  lemma SecondsOrder(h: nat, m: nat, s: nat, g: nat, n: nat, t: nat)
    requires m < 60 && n < 60 && s < 60 && t < 60
    ensures 3600 * h + 60 * m + s < 3600 * g + 60 * n + t
       <==> (h < g || (h == g && (m < n || (m == n && s < t))))
  {
  }

  lemma ClockParts(r: nat, q: nat)
    ensures r < q <==> (r / 3600 < q / 3600 || (r / 3600 == q / 3600
      && (r % 3600 / 60 < q % 3600 / 60 || (r % 3600 / 60 == q % 3600 / 60 && r % 60 < q % 60))))
    ensures r / 3600 == q / 3600 && r % 3600 / 60 == q % 3600 / 60 && r % 60 == q % 60 ==> r == q
  {
    ClockSum(r);
    ClockSum(q);
    SecondsOrder(r / 3600, r % 3600 / 60, r % 60, q / 3600, q % 3600 / 60, q % 60);
  }

  lemma ClockOrder(r: nat, q: nat)
    requires r < 86400 && q < 86400
    ensures Less(ClockText(r), ClockText(q)) <==> r < q
    ensures ClockText(r) == ClockText(q) <==> r == q
    ensures |ClockText(r)| == |ClockText(q)|
  {
    hide Less, Field;
    var rs, qs := Field(':', r % 60, "Z"), Field(':', q % 60, "Z");
    LessIrreflexive("Z");
    ClockParts(r, q);
    TwoPlaces(r % 60, q % 60, ':', "Z", "Z");
    TwoPlaces(r % 3600 / 60, q % 3600 / 60, ':', rs, qs);
    var rm, qm := Field(':', r % 3600 / 60, rs), Field(':', q % 3600 / 60, qs);
    TwoPlaces(r / 3600, q / 3600, 'T', rm, qm);
  }

  lemma MonthToSecondOrder(a: Date, r: nat, b: Date, q: nat)
    requires ValidDate(a) && ValidDate(b) && r < 86400 && q < 86400
    ensures var x, y := MonthToSecond(a, r), MonthToSecond(b, q);
            && |x| == |y|
            && (x == y <==> a.month == b.month && a.day == b.day && r == q)
            && (Less(x, y) <==> (a.month < b.month || (a.month == b.month
                                 && (a.day < b.day || (a.day == b.day && r < q)))))
  {
    hide Less, Field, ClockText;
    ClockOrder(r, q);
    var x, y := Field('-', a.day, ClockText(r)), Field('-', b.day, ClockText(q));
    TwoPlaces(a.day, b.day, '-', ClockText(r), ClockText(q));
    TwoPlaces(a.month, b.month, '-', x, y);
  }

  /** The stamp of one instant is never the stamp of another; and while years
      are printed equally wide, text order is time order. */
  lemma StampOrder(s: nat, t: nat)
    ensures FormatRfc3339(s) == FormatRfc3339(t) <==> s == t
    ensures |FormatRfc3339(s)| == |FormatRfc3339(t)| ==>
      (Less(FormatRfc3339(s), FormatRfc3339(t)) <==> s < t)
  {
    hide Less, Padded, CivilFromDays, MonthToSecond, DaysFromCivil, ValidDate;
    var d, e := s / 86400, t / 86400;
    CivilIsGregorian(d);
    CivilIsGregorian(e);
    YearsSinceEpoch(d);
    YearsSinceEpoch(e);
    CivilIsMonotone(d, e);
    CivilIsMonotone(e, d);
    var a, b := CivilFromDays(d), CivilFromDays(e);
    var x, y := MonthToSecond(a, s % 86400), MonthToSecond(b, t % 86400);
    MonthToSecondOrder(a, s % 86400, b, t % 86400);
    if |Padded(a.year, 4)| == |Padded(b.year, 4)| {
      FieldOrder(a.year, b.year, 4, x, y);
    }
  }

  // ---- Reading a stamp ---------------------------------------------------

  datatype Instant = Instant(date: Date, hour: nat, minute: nat, second: nat)

  /** The numeral that makes up a piece of text. */
  function Numeral(t: string): Option<nat> {
    if t != "" && AllDigits(t) then Some(Value(t)) else None
  }

  /** A date and a time of day as section 5.6 of RFC 3339 writes them in UTC, with
      whatever the year has beyond its four places in front. */
  function ReadStamp(t: string): Option<Instant> {
    var n := |t| - 16;
    if n < 4 || t[n] != '-' || t[n + 3] != '-' || t[n + 6] != 'T' || t[n + 9] != ':' || t[n + 12] != ':'
       || t[n + 15] != 'Z' then None
    else
      match (Numeral(t[..n]), Numeral(t[n + 1..n + 3]), Numeral(t[n + 4..n + 6]))
      case (Some(y), Some(m), Some(d)) =>
        (match (Numeral(t[n + 7..n + 9]), Numeral(t[n + 10..n + 12]), Numeral(t[n + 13..n + 15]))
         case (Some(h), Some(mi), Some(s)) => Some(Instant(Date(y, m, d), h, mi, s))
         case _ => None)
      case _ => None
  }

  lemma NumeralOf(t: string)
    requires t != "" && AllDigits(t)
    ensures Numeral(t) == Some(Value(t))
  {
  }

  /** Five fields behind a year of any width. */
  lemma StampReads(year: string, a: nat, b: nat, c: nat, d: nat, e: nat)
    requires |year| >= 4 && AllDigits(year) && a < 100 && b < 100 && c < 100 && d < 100 && e < 100
    ensures ReadStamp(year + Field('-', a, Field('-', b, Field('T', c, Field(':', d, Field(':', e, "Z"))))))
         == Some(Instant(Date(Value(year), a, b), c, d, e))
  {
    hide Field, Numeral, Value;
    var t5 := Field(':', e, "Z");
    var t4 := Field(':', d, t5);
    var t3 := Field('T', c, t4);
    var t2 := Field('-', b, t3);
    var t, n := year + Field('-', a, t2), |year|;
    assert t[..n] == year && t[n..] == Field('-', a, t2);
    NumeralOf(year);
    FieldAt(t, n, '-', a, t2);
    FieldAt(t, n + 3, '-', b, t3);
    FieldAt(t, n + 6, 'T', c, t4);
    FieldAt(t, n + 9, ':', d, t5);
    FieldAt(t, n + 12, ':', e, "Z");
  }

  lemma FieldAt(t: string, i: nat, c: char, n: nat, rest: string)
    requires i <= |t| && t[i..] == Field(c, n, rest) && n < 100
    ensures |t| == i + 3 + |rest| && t[i] == c && Numeral(t[i + 1..i + 3]) == Some(n) && t[i + 3..] == rest
    ensures rest != "" ==> t[i + 3] == rest[0]
  {
    hide Padded, Value;
    assert Power10(2) == 10 * Power10(1) == 100;
    PaddedWidth(n, 2);
    ValueOfPadded(n, 2);
    var f := Field(c, n, rest);
    assert f[1..3] == Padded(n, 2) && f[3..] == rest;
    assert t[i..][1..3] == t[i + 1..i + 3] && t[i..][3..] == t[i + 3..];
    assert t[i..][0] == t[i];
    assert rest != "" ==> t[i + 3..][0] == t[i + 3];
  }

  /** A stamp shows its instant: read back, it gives the day that walking the
      calendar arrives at, and the time of day. */
  lemma StampShowsInstant(secs: nat)
    ensures var r := ReadStamp(FormatRfc3339(secs));
            && r.Some? && r.value.date == WalkFromEpoch(secs / 86400)
            && r.value.hour < 24 && r.value.minute < 60 && r.value.second < 60
            && 86400 * (secs / 86400) + 3600 * r.value.hour + 60 * r.value.minute + r.value.second == secs
  {
    hide Padded, CivilFromDays, DaysFromCivil, WalkFromEpoch, ReadStamp, Field, Value;
    var days, rem := secs / 86400, secs % 86400;
    CivilIsGregorian(days);
    YearsSinceEpoch(days);
    var a := CivilFromDays(days);
    ClockSum(rem);
    ValueOfPadded(a.year, 4);
    StampReads(Padded(a.year, 4), a.month, a.day, rem / 3600, rem % 3600 / 60, rem % 60);
  }

  // ---- Stamps as sort keys ---------------------------------------------------

  /** The first second of the year 10000. */
  const YEAR_10000: nat := 253402300800

  lemma TurnOfTheYear10000()
    ensures CivilFromDays(2932896).year == 9999 && CivilFromDays(2932897).year == 10000
  {
    hide CivilFromDays;
    CivilInvertsDayCount(Date(9999, 12, 31));
    CivilInvertsDayCount(Date(10000, 1, 1));
  }

  lemma FourDigitYears(secs: nat)
    requires secs < YEAR_10000
    ensures CivilFromDays(secs / 86400).year <= 9999
  {
    hide CivilFromDays;
    TurnOfTheYear10000();
    CivilIsMonotone(2932896, secs / 86400);
    CivilIsMonotone(secs / 86400, 2932896);
  }

  /** Every stamp up to the end of the year 9999 is twenty characters long. */
  lemma StampWidth(secs: nat)
    requires secs < YEAR_10000
    ensures |FormatRfc3339(secs)| == 20
  {
    hide Padded, CivilFromDays, DaysFromCivil;
    FourDigitYears(secs);
    CivilIsGregorian(secs / 86400);
    YearsSinceEpoch(secs / 86400);
    var a := CivilFromDays(secs / 86400);
    assert Power10(4) == 10 * Power10(3) == 100 * Power10(2) == 1000 * Power10(1) == 10000;
    assert Power10(2) == 10 * Power10(1) == 100;
    PaddedWidth(a.year, 4);
    PaddedWidth(a.month, 2);
    PaddedWidth(a.day, 2);
    PaddedWidth(secs % 86400 / 3600, 2);
    PaddedWidth(secs % 86400 % 3600 / 60, 2);
    PaddedWidth(secs % 86400 % 60, 2);
  }

  /** Up to the year 9999, sorting stamps as text sorts them by time... */
  lemma StampsSortByTime(s: nat, t: nat)
    requires s < YEAR_10000 && t < YEAR_10000
    ensures Less(FormatRfc3339(s), FormatRfc3339(t)) <==> s < t
  {
    hide CivilFromDays, FormatRfc3339, Less;
    StampWidth(s);
    StampWidth(t);
    StampOrder(s, t);
  }

  lemma LeadingDigits()
    ensures Digits(9999)[0] == '9' && |Digits(9999)| == 4
    ensures Digits(10000)[0] == '1' && |Digits(10000)| == 5
  {
    assert Digits(99) == Digits(9) + "9";
    assert Digits(9999) == Digits(999) + "9";
    assert Digits(100) == Digits(10) + "0";
    assert Digits(10000) == Digits(1000) + "0";
  }

  /** ...and the first instant of the year 10000 already sorts before the last
      one of 9999. */
  lemma StampsStopSorting()
    ensures Less(FormatRfc3339(YEAR_10000), FormatRfc3339(YEAR_10000 - 1))
  {
    hide CivilFromDays, Digits, MonthToSecond, DaysFromCivil, WalkFromEpoch, Zeros;
    LeadingDigits();
    TurnOfTheYear10000();
  }

  /** Text order is time order among the first `n` instants exactly when none of
      them lies in the year 10000 or later. */
  lemma StampsSortIff(n: nat)
    ensures (forall s: nat, t: nat :: s < n && t < n ==> (Less(FormatRfc3339(s), FormatRfc3339(t)) <==> s < t))
       <==> n <= YEAR_10000
  {
    hide FormatRfc3339, Less;
    if n <= YEAR_10000 {
      forall s: nat, t: nat | s < n && t < n ensures Less(FormatRfc3339(s), FormatRfc3339(t)) <==> s < t {
        StampsSortByTime(s, t);
      }
    } else {
      StampsStopSorting();
    }
  }
}

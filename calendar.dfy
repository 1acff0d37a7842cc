/** The liturgical calendar engine of `liturgicalCalendar.js`: Easter by the
    anonymous Gregorian (Butcher) computus, Epiphany under the French
    transfer-to-Sunday rule, the twelve fixed feasts, the start of Advent and
    the first-match-wins resolution of a date into a season descriptor. */
module LiturgicalCalendar {
  import opened Dates

  datatype Option<T> = None | Some(value: T)

  /** The keys of `LITURGICAL_COLORS`; the display strings are left out. */
  datatype Color = Violet | Blanc | Rouge | Vert | Rose | Noir | Or

  /** `{ name, season, color, rank }`; a fixed feast has no season, which is
      the empty string here. */
  datatype Descriptor = Descriptor(name: string, season: string, color: Color, rank: string)

  /** An entry of `getFixedFeasts(year)`. */
  datatype Feast = Feast(date: Date, name: string, color: Color, rank: string)

  // ---------------------------------------------------------------------------
  // JavaScript integer operators

  /** `x % n` in JavaScript for a non-negative dividend, where its truncating
      remainder is the mathematical one; every dividend the model passes is
      non-negative for the years it covers, and each caller proves it. */
  function JsRem(x: int, n: int): (r: int)
    requires x >= 0 && n > 0
    ensures 0 <= r < n
    ensures x == n * FloorDiv(x, n) + r
  {
    x % n
  }

  /** `Math.floor(x / n)` for a positive divisor (Dafny's `/` rounds down there). */
  function FloorDiv(x: int, n: int): (q: int)
    requires n > 0
    ensures n * q <= x < n * q + n
  {
    x / n
  }

  // ---------------------------------------------------------------------------
  // getEaster

  /** h of `getEaster`, from a (the year mod 19) and b (its century). */
  function EasterH(a: int, b: int): (h: int)
    requires 0 <= a < 19 && b >= 0
    ensures 0 <= h < 30
  {
    var d := FloorDiv(b, 4);
    var f := FloorDiv(b + 8, 25);
    var g := FloorDiv(b - f + 1, 3);
    JsRem(19 * a + b - d - g + 15, 30)
  }

  /** l of `getEaster`, from b (the century), c (the year of the century) and h. */
  function EasterL(b: int, c: int, h: int): (l: int)
    requires b >= 0 && 0 <= c < 100 && 0 <= h < 30
    ensures 0 <= l < 7
  {
    var e := JsRem(b, 4);
    var i := FloorDiv(c, 4);
    var k := JsRem(c, 4);
    JsRem(32 + 2 * e + 2 * i - h - k, 7)
  }

  /** The steps of `getEaster` up to h + l - 7m: the number of days from
      22 March to Easter, which is 0 .. 34. */
  function EasterOffset(year: int): (s: int)
    requires year >= 1
    ensures 0 <= s <= 34
  {
    var a := JsRem(year, 19);
    var b := FloorDiv(year, 100);
    var c := JsRem(year, 100);
    var h := EasterH(a, b);
    var l := EasterL(b, c, h);
    var m := FloorDiv(a + 11 * h + 22 * l, 451);
    OffsetBounds(a, h, l, m);
    h + l - 7 * m
  }

  /** Month and day of Easter, from the offset as `getEaster` derives them:
      a day of 22 March .. 25 April. */
  function EasterMonthDay(year: int): (md: (int, int))
    requires year >= 1
    ensures (md.0 == 3 && 22 <= md.1 <= 31) || (md.0 == 4 && 1 <= md.1 <= 25)
  {
    OffsetMonthDay(EasterOffset(year))
  }

  /** `Math.floor((s + 114) / 31)` and `((s + 114) % 31) + 1` for the offset s:
      for an offset of 0 .. 34 this is the day s days after 22 March. */
  function OffsetMonthDay(s: int): (md: (int, int))
    requires s >= 0
    ensures s <= 34 ==> (s <= 9 && md == (3, 22 + s)) || (10 <= s && md == (4, s - 9))
  {
    (FloorDiv(s + 114, 31), JsRem(s + 114, 31) + 1)
  }

  /** The day the offset leads to is a Sunday (stated on the closed form of
      the day number of 22 March). */
  lemma EasterOffsetSunday(year: int)
    requires year >= 1
    ensures (MarchCount(year) + 80 + EasterOffset(year) + 1) % 7 == 0
  {
    var a := JsRem(year, 19);
    var b := FloorDiv(year, 100);
    var c := JsRem(year, 100);
    var h := EasterH(a, b);
    var l := EasterL(b, c, h);
    var m := FloorDiv(a + 11 * h + 22 * l, 451);
    assert EasterOffset(year) == h + l - 7 * m;
    assert l == (32 + 2 * (b % 4) + 2 * (c / 4) - h - c % 4) % 7;
    EasterArithmetic(year, b, c, h, l, m);
  }

  /** The weekday argument of the computus on plain integers. */
  lemma EasterArithmetic(year: int, b: int, c: int, h: int, l: int, m: int)
    requires year >= 1 && b == year / 100 && c == year % 100
    requires l == (32 + 2 * (b % 4) + 2 * (c / 4) - h - c % 4) % 7
    ensures (MarchCount(year) + 80 + h + l - 7 * m + 1) % 7 == 0
  {
    var d, e, i, k := b / 4, b % 4, c / 4, c % 4;
    CenturyDigits(year);
    var q := (32 + 2 * e + 2 * i - h - k) / 7;
    assert 32 + 2 * e + 2 * i - h - k == 7 * q + l;
    WeekdayOfOffset(365 * (year - 1) + (100 * d + 25 * e + i) - (4 * d + e) + d + 80 + h + l - 7 * m,
                    year, d, e, i, k, h, l, q, m);
  }

  /** The quotients of a year by 4, 100 and 400, in terms of its century b
      split as 4d + e and its year of the century c split as 4i + k. */
  lemma CenturyDigits(year: int)
    requires year >= 0
    ensures var b, c := year / 100, year % 100;
      var d, e, i, k := b / 4, b % 4, c / 4, c % 4;
      year / 4 == 100 * d + 25 * e + i && year / 100 == 4 * d + e && year / 400 == d
      && year == 400 * d + 100 * e + 4 * i + k
  {
  }

  /** For a year from 1 on, the computus lands on 22 March .. 25 April, and
      the day it gives is a Sunday. */
  lemma EasterComputus(year: int)
    requires year >= 1
    ensures var (month, day) := EasterMonthDay(year);
      (month == 3 && 22 <= day <= 31) || (month == 4 && 1 <= day <= 25)
    ensures var (month, day) := EasterMonthDay(year);
      ValidDate(Date(year, month, day)) && Weekday(Date(year, month, day)) == Sunday
  {
    EasterOffsetSunday(year);
    OffsetFacts(year, EasterOffset(year));
  }

  /** An offset of 0 .. 34 days after 22 March at which the closed-form count
      is a Sunday leads to a Sunday between 22 March and 25 April. */
  lemma OffsetFacts(year: int, s: int)
    requires year >= 1 && 0 <= s <= 34 && (MarchCount(year) + 80 + s + 1) % 7 == 0
    ensures var (month, day) := OffsetMonthDay(s);
      ((month == 3 && 22 <= day <= 31) || (month == 4 && 1 <= day <= 25))
      && ValidDate(Date(year, month, day)) && Weekday(Date(year, month, day)) == Sunday
  {
    var month, day := (s + 114) / 31, (s + 114) % 31 + 1;
    OffsetDate(year, s);
    SundayFromOffset(year, s, Date(year, month, day));
  }

  /** A date s days after 22 March, where the closed-form count says that
      day is a Sunday, is a Sunday. */
  lemma SundayFromOffset(year: int, s: int, date: Date)
    requires year >= 1 && ValidDate(date)
    requires DayNumber(date) == YearStart(year) + (if IsLeapYear(year) then 1 else 0) + 80 + s
    requires (MarchCount(year) + 80 + s + 1) % 7 == 0
    ensures Weekday(date) == Sunday
  {
    MarchFirstDayNumber(year);
    WeekdayOfDayNumber(date, MarchCount(year) + 80 + s);
  }

  /** The computus on some years: 2000, 2016 (Easter on 27 March, so Good
      Friday falls on the Annunciation), 2024 and 2025. */
  lemma EasterExamples()
    ensures EasterMonthDay(2000) == (4, 23) && EasterMonthDay(2016) == (3, 27)
    ensures EasterMonthDay(2024) == (3, 31) && EasterMonthDay(2025) == (4, 20)
  {
    EasterIn2000();
    EasterIn2016();
    EasterIn2024();
    EasterIn2025();
  }

  lemma EasterIn2000()
    ensures EasterMonthDay(2000) == (4, 23)
  {
    assert JsRem(2000, 19) == 5 && FloorDiv(2000, 100) == 20 && JsRem(2000, 100) == 0;
    assert EasterH(5, 20) == 29;
    assert EasterL(20, 0, 29) == 3;
    assert EasterOffset(2000) == 32;
  }

  lemma EasterIn2016()
    ensures EasterMonthDay(2016) == (3, 27)
  {
    assert JsRem(2016, 19) == 2 && FloorDiv(2016, 100) == 20 && JsRem(2016, 100) == 16;
    assert EasterH(2, 20) == 2;
    assert EasterL(20, 16, 2) == 3;
    assert EasterOffset(2016) == 5;
  }

  lemma EasterIn2024()
    ensures EasterMonthDay(2024) == (3, 31)
  {
    assert JsRem(2024, 19) == 10 && FloorDiv(2024, 100) == 20 && JsRem(2024, 100) == 24;
    assert EasterH(10, 20) == 4;
    assert EasterL(20, 24, 4) == 5;
    assert EasterOffset(2024) == 9;
  }

  lemma EasterIn2025()
    ensures EasterMonthDay(2025) == (4, 20)
  {
    assert JsRem(2025, 19) == 11 && FloorDiv(2025, 100) == 20 && JsRem(2025, 100) == 25;
    assert EasterH(11, 20) == 23;
    assert EasterL(20, 25, 23) == 6;
    assert EasterOffset(2025) == 29;
  }

  /** The number of days from 22 March to Easter, h + l - 7m, is 0 .. 34. */
  lemma OffsetBounds(a: int, h: int, l: int, m: int)
    requires 0 <= a < 19 && 0 <= h < 30 && 0 <= l < 7
    requires m == (a + 11 * h + 22 * l) / 451
    ensures 0 <= h + l - 7 * m <= 34
  {
    assert m == 0 || m == 1;
    if m == 1 {
      assert 11 * (h + 2 * l) >= 433;
    }
  }

  /** The month and day the computus derives from an offset s of 0 .. 34 days
      after 22 March name the date s days after 22 March. */
  lemma OffsetDate(year: int, s: int)
    requires year >= 1 && 0 <= s <= 34
    ensures var month, day := (s + 114) / 31, (s + 114) % 31 + 1;
      ((month == 3 && 22 <= day <= 31) || (month == 4 && 1 <= day <= 25))
      && ValidDate(Date(year, month, day))
      && DayNumber(Date(year, month, day))
         == YearStart(year) + (if IsLeapYear(year) then 1 else 0) + 80 + s
  {
  }

  /** The weekday step of the computus: with l chosen as it is, the day
      number n of 22 March plus h + l - 7m, written out in the digits of the
      year, is that of a Sunday. */
  lemma WeekdayOfOffset(n: int, year: int, d: int, e: int, i: int, k: int,
                        h: int, l: int, q: int, m: int)
    requires year == 400 * d + 100 * e + 4 * i + k
    requires n == 365 * (year - 1) + (100 * d + 25 * e + i) - (4 * d + e) + d + 80 + h + l - 7 * m
    requires 32 + 2 * e + 2 * i - h - k == 7 * q + l
    ensures (n + 1) % 7 == 0
  {
    assert n + 1 == 7 * (20871 * d + 5218 * e + 209 * i + 52 * k - 36 - q - m);
  }

  /** 365(y - 1) + y/4 - y/100 + y/400: the day number of 1 January of
      year y plus its leap day, if any; 22 March is 80 days after it. */
  function MarchCount(y: int): int
  {
    365 * (y - 1) + y / 4 - y / 100 + y / 400
  }

  /** The closed form of the day number of 1 January, plus the leap day. */
  lemma MarchFirstDayNumber(y: int)
    requires y >= 1
    ensures YearStart(y) + (if IsLeapYear(y) then 1 else 0) == MarchCount(y)
  {
    YearStartClosedForm(y);
    LeapYearByQuotients(y);
  }

  /** `getEaster(year)`: Easter Sunday of the year, between 22 March and
      25 April. */
  function Easter(year: int): (r: Date)
    requires year >= 1
    ensures ValidDate(r) && r.year == year
    ensures (r.month == 3 && 22 <= r.day) || (r.month == 4 && r.day <= 25)
    ensures DayNumber(Date(year, 3, 22)) <= DayNumber(r) <= DayNumber(Date(year, 4, 25))
    ensures Weekday(r) == Sunday
  {
    EasterComputus(year);
    var (month, day) := EasterMonthDay(year);
    Date(year, month, day)
  }

  // ---------------------------------------------------------------------------
  // LITURGICAL_COLORS

  /** The keys of `LITURGICAL_COLORS`, in the order the table lists them. */
  const ColorKeys: seq<string> := ["violet", "blanc", "rouge", "vert", "rose", "noir", "or"]

  /** The key string a descriptor carries for a colour. It is never empty, so
      the `|| 'blanc'` default of the fixed-feast rule never takes effect. */
  function ColorKey(c: Color): (k: string)
    ensures k in ColorKeys && k != ""
  {
    match c
    case Violet => "violet"
    case Blanc => "blanc"
    case Rouge => "rouge"
    case Vert => "vert"
    case Rose => "rose"
    case Noir => "noir"
    case Or => "or"
  }

  /** Distinct colours have distinct keys. */
  lemma ColorKeyInjective(c: Color, c': Color)
    ensures ColorKey(c) == ColorKey(c') ==> c == c'
  {
  }

  // ---------------------------------------------------------------------------
  // The names, seasons and ranks descriptors carry

  // Fixed feasts
  const MaryMotherOfGodName := "Sainte Marie, Mère de Dieu"
  const EpiphanyName := "Épiphanie du Seigneur"
  const PresentationName := "Présentation du Seigneur"
  const SaintJosephName := "Saint Joseph"
  const AnnunciationName := "Annonciation du Seigneur"
  const JohnTheBaptistName := "Nativité de saint Jean-Baptiste"
  const PeterAndPaulName := "Saints Pierre et Paul"
  const AssumptionName := "Assomption de la Vierge Marie"
  const AllSaintsName := "Toussaint"
  const AllSoulsName := "Commémoration des fidèles défunts"
  const ImmaculateConceptionName := "Immaculée Conception"
  const ChristmasName := "Nativité du Seigneur (Noël)"

  // Movable named days and season-range names
  const AshWednesdayName := "Mercredi des Cendres"
  const HolyThursdayName := "Jeudi Saint"
  const GoodFridayName := "Vendredi Saint"
  const HolySaturdayName := "Samedi Saint"
  const EasterSundayName := "Dimanche de Pâques"
  const PentecostName := "Pentecôte"
  const OctaveName := "Octave de Noël"
  const LentTimeName := "Temps du Carême"

  // Seasons
  const AdventSeason := "Avent"
  const ChristmasSeason := "Temps de Noël"
  const LentSeason := "Carême"
  const HolyWeekSeason := "Semaine Sainte"
  const EasterSeason := "Temps Pascal"
  const OrdinarySeason := "Temps Ordinaire"

  // Ranks (a plain day of a season has the empty rank)
  const Solemnity := "Solennité"
  const FeastRank := "Fête"

  // ---------------------------------------------------------------------------
  // getFixedFeasts

  /** The month and day of one of the twelve entries of `getFixedFeasts`. */
  predicate IsFixedFeastDay(month: int, day: int)
  {
    (month == 1 && (day == 1 || day == 6)) || (month == 2 && day == 2)
    || (month == 3 && (day == 19 || day == 25)) || (month == 6 && (day == 24 || day == 29))
    || (month == 8 && day == 15) || (month == 11 && (day == 1 || day == 2))
    || (month == 12 && (day == 8 || day == 25))
  }

  /** `getFixedFeasts(year)`: the twelve fixed-date feasts of the year, all
      in that year, on the twelve fixed-feast days. */
  function FixedFeasts(year: int): (r: seq<Feast>)
    ensures |r| == 12
    ensures forall i | 0 <= i < 12 :: r[i].date.year == year && (year >= 1 ==> ValidDate(r[i].date))
    ensures forall i | 0 <= i < 12 :: IsFixedFeastDay(r[i].date.month, r[i].date.day)
  {
    [ Feast(Date(year, 1, 1), MaryMotherOfGodName, Blanc, Solemnity),
      Feast(Date(year, 1, 6), EpiphanyName, Blanc, Solemnity),
      Feast(Date(year, 2, 2), PresentationName, Blanc, FeastRank),
      Feast(Date(year, 3, 19), SaintJosephName, Blanc, Solemnity),
      Feast(Date(year, 3, 25), AnnunciationName, Blanc, Solemnity),
      Feast(Date(year, 6, 24), JohnTheBaptistName, Blanc, Solemnity),
      Feast(Date(year, 6, 29), PeterAndPaulName, Rouge, Solemnity),
      Feast(Date(year, 8, 15), AssumptionName, Blanc, Solemnity),
      Feast(Date(year, 11, 1), AllSaintsName, Blanc, Solemnity),
      Feast(Date(year, 11, 2), AllSoulsName, Noir, ""),
      Feast(Date(year, 12, 8), ImmaculateConceptionName, Blanc, Solemnity),
      Feast(Date(year, 12, 25), ChristmasName, Blanc, Solemnity) ]
  }

  /** The twelve feasts fall on pairwise distinct dates, and each is white,
      red or black. */
  lemma FixedFeastsTable(year: int)
    ensures forall i, j | 0 <= i < j < 12 :: FixedFeasts(year)[i].date != FixedFeasts(year)[j].date
    ensures forall i | 0 <= i < 12 :: FixedFeasts(year)[i].color in {Blanc, Rouge, Noir}
  {
  }

  /** The first feast of the list that falls on the given day, as the
      `for (const feast of fixed)` scan finds it. */
  function FeastOn(feasts: seq<Feast>, date: Date): (r: Option<Feast>)
    ensures r.Some? ==> r.value in feasts && IsSameDay(date, r.value.date)
    ensures r.None? <==> forall f | f in feasts :: !IsSameDay(date, f.date)
    ensures r.Some? ==>
      exists i | 0 <= i < |feasts| ::
        feasts[i] == r.value && forall j | 0 <= j < i :: !IsSameDay(date, feasts[j].date)
  {
    if feasts == [] then None
    else if IsSameDay(date, feasts[0].date) then Some(feasts[0])
    else FeastOn(feasts[1..], date)
  }

  /** `{ ...feast, color: feast.color || 'blanc' }`: the feast as a descriptor,
      without a season. */
  function FeastDescriptor(f: Feast): (r: Descriptor)
    ensures r.name == f.name && r.rank == f.rank && r.season == ""
    ensures r.color == (if ColorKey(f.color) != "" then f.color else Blanc)
  {
    Descriptor(f.name, "", f.color, f.rank)
  }

  // ---------------------------------------------------------------------------
  // getEpiphany

  /** The Sunday among 2 .. 8 January of the year: there is exactly one. */
  function Epiphany(year: int): (r: Date)
    requires year >= 1
    ensures ValidDate(r) && r.year == year && r.month == 1 && 2 <= r.day <= 8
    ensures Weekday(r) == Sunday
    ensures forall d | 2 <= d <= 8 && Weekday(Date(year, 1, d)) == Sunday :: d == r.day
  {
    var w := Weekday(Date(year, 1, 2));
    var day := 2 + (7 - w) % 7;
    SundayInFirstWeek(year, day);
    Date(year, 1, day)
  }

  /** The weekday of d January is the remainder of YearStart(year) + d. */
  lemma JanuaryWeekday(year: int, d: int)
    requires year >= 1 && 1 <= d <= 31
    ensures Weekday(Date(year, 1, d)) == (YearStart(year) + d) % 7
  {
  }

  /** The day 2 + (7 - w) % 7 of January, w the weekday of 2 January, is the
      one Sunday among 2 .. 8 January. */
  lemma SundayInFirstWeek(year: int, day: int)
    requires year >= 1 && day == 2 + (7 - Weekday(Date(year, 1, 2))) % 7
    ensures 2 <= day <= 8 && Weekday(Date(year, 1, day)) == Sunday
    ensures forall d | 2 <= d <= 8 && Weekday(Date(year, 1, d)) == Sunday :: d == day
  {
    var t := YearStart(year);
    JanuaryWeekday(year, 2);
    JanuaryWeekday(year, day);
    SundayOfWeek(t, day);
    forall d | 2 <= d <= 8 && Weekday(Date(year, 1, d)) == Sunday
      ensures d == day
    {
      JanuaryWeekday(year, d);
      SundayOfWeek(t, d);
    }
  }

  /** Of the seven numbers t + 2 .. t + 8, the one that is a multiple of 7 is
      t + 2 + (7 - (t + 2) % 7) % 7. */
  lemma SundayOfWeek(t: int, d: int)
    ensures var s := 2 + (7 - (t + 2) % 7) % 7;
      2 <= s <= 8 && (t + s) % 7 == 0
      && (2 <= d <= 8 && (t + d) % 7 == 0 ==> d == s)
  {
  }

  /** `getEpiphany(year)`: scan 2 .. 8 January for the Sunday, with the
      6 January fallback of the source, which the scan never reaches. */
  method GetEpiphany(year: int) returns (r: Date)
    requires year >= 1
    ensures r == Epiphany(year)
  {
    var d := 2;
    while d <= 8
      invariant 2 <= d <= 9
      invariant forall j | 2 <= j < d :: Weekday(Date(year, 1, j)) != Sunday
    {
      var date := Date(year, 1, d);
      if Weekday(date) == Sunday {
        return date;
      }
      d := d + 1;
    }
    return Date(year, 1, 6);
  }

  // ---------------------------------------------------------------------------
  // Advent

  /** `new Date(year, month - 1, day)`: a day of the month outside the month
      is counted on from the first of the month, as the Date constructor does. */
  function MakeDate(year: int, month: int, day: int): (r: Date)
    requires year >= 1 && 1 <= month <= 12
    requires DayNumber(Date(year, month, 1)) + day - 1 >= 0
    ensures ValidDate(r) && DayNumber(r) == DayNumber(Date(year, month, 1)) + day - 1
    ensures 1 <= day <= DaysInMonth(year, month) ==> r == Date(year, month, day)
  {
    var r := FromDayNumber(DayNumber(Date(year, month, 1)) + day - 1);
    if 1 <= day <= DaysInMonth(year, month) then
      DayNumberInjective(r, Date(year, month, day));
      r
    else
      r
  }

  /** The first Sunday of Advent: `new Date(year, 11, 25 - daysToSunday - 21)`
      where daysToSunday is Christmas's weekday, 7 for a Sunday. */
  function AdventStart(year: int): (r: Date)
    requires year >= 1
    ensures ValidDate(r) && Weekday(r) == Sunday
    ensures 22 <= DayNumber(Date(year, 12, 25)) - DayNumber(r) <= 28
    ensures DayNumber(Date(year, 12, 25)) - DayNumber(r) == 28
        <==> Weekday(Date(year, 12, 25)) == Sunday
  {
    var christmas := Date(year, 12, 25);
    var christmasWeekday := Weekday(christmas);
    var daysToSunday := if christmasWeekday == 0 then 7 else christmasWeekday;
    DecemberDays(year);
    var r := MakeDate(year, 12, 25 - daysToSunday - 21);
    SundayBeforeChristmas(christmas, daysToSunday, r);
    r
  }

  /** 1 December is at least 334 days into the count, and 25 December is
      24 days after it. */
  lemma DecemberDays(year: int)
    requires year >= 1
    ensures DayNumber(Date(year, 12, 1)) >= 334
    ensures DayNumber(Date(year, 12, 25)) == DayNumber(Date(year, 12, 1)) + 24
  {
  }

  /** A dated example: 25 December 2025 is a Thursday. */
  lemma ChristmasIn2025()
    ensures Weekday(Date(2025, 12, 25)) == 4
  {
    DayNumbersIn2025();
  }

  /** So Advent 2025 starts on Sunday 30 November (the year is a parameter
      so that the verifier does not evaluate the day count of a literal
      year step by step). */
  lemma AdventIn2025(year: int)
    requires year == 2025
    ensures AdventStart(year) == Date(year, 11, 30)
  {
    DayNumbersIn2025();
    SundayOfWindow(AdventStart(year), Date(year, 11, 30));
  }

  /** The day numbers of 25 December and 30 November 2025. */
  lemma DayNumbersIn2025()
    ensures DayNumber(Date(2025, 12, 25)) == 739609
    ensures DayNumber(Date(2025, 11, 30)) == 739584
  {
    YearStartClosedForm(2025);
    assert YearStart(2025) == 739251;
  }

  /** 30 November 2025 is the only Sunday 22 .. 28 days before day 739609
      (25 December 2025). */
  lemma SundayOfWindow(r: Date, start: Date)
    requires ValidDate(r) && ValidDate(start) && Weekday(r) == Sunday
    requires 22 <= 739609 - DayNumber(r) <= 28 && DayNumber(start) == 739584
    ensures r == start
  {
    WeekdayOfDayNumber(r, DayNumber(r));
    OnlySundayOfWindow(DayNumber(r));
    DayNumberInjective(r, start);
  }

  /** Day 739584 is the only n in 739581 .. 739587 with (n + 1) % 7 == 0. */
  lemma OnlySundayOfWindow(n: int)
    requires 739581 <= n <= 739587 && (n + 1) % 7 == 0
    ensures n == 739584
  {
  }

  /** The date `back` + 21 days before Christmas, `back` being Christmas's
      weekday (7 for a Sunday), is a Sunday 22 .. 28 days before it. */
  lemma SundayBeforeChristmas(christmas: Date, back: int, r: Date)
    requires ValidDate(christmas) && ValidDate(r)
    requires back == if Weekday(christmas) == 0 then 7 else Weekday(christmas)
    requires DayNumber(r) == DayNumber(christmas) - back - 21
    ensures Weekday(r) == Sunday
    ensures 22 <= DayNumber(christmas) - DayNumber(r) <= 28
    ensures DayNumber(christmas) - DayNumber(r) == 28 <==> Weekday(christmas) == Sunday
  {
    WeekdayOfDayNumber(christmas, DayNumber(christmas));
    WeekdayOfDayNumber(r, DayNumber(r));
    SundayBefore(DayNumber(christmas), back);
  }

  /** Going back from day n by its weekday (7 for a Sunday) and 21 more days
      lands on a Sunday, 22 .. 28 days earlier, 28 exactly when n is a Sunday. */
  lemma SundayBefore(n: int, back: int)
    requires back == if (n + 1) % 7 == 0 then 7 else (n + 1) % 7
    ensures (n - back - 21 + 1) % 7 == 0
    ensures 22 <= back + 21 <= 28
    ensures back + 21 == 28 <==> (n + 1) % 7 == 0
  {
  }

  /** The four ordinals of the Advent Sundays, and the words after them. */
  const AdventOrdinals: seq<string> := ["1er", "2e", "3e", "4e"]
  const AdventSundaySuffix := " dimanche de l'Avent"

  /** `getSundayOfAdvent(date, adventStart)`: the ordinal of the Advent week,
      counted in whole weeks from adventStart and capped at the fourth; a
      negative count indexes outside the ordinals, which JavaScript renders
      as "undefined". */
  function SundayOfAdvent(date: Date, adventStart: Date): (r: string)
    requires ValidDate(date) && ValidDate(adventStart)
    ensures DayNumber(adventStart) <= DayNumber(date)
        ==> exists w | 0 <= w < 4 :: r == AdventOrdinals[w] + AdventSundaySuffix
  {
    var weeks := FloorDiv(DayNumber(date) - DayNumber(adventStart), 7);
    var w := if weeks < 3 then weeks else 3;
    var ordinal := if weeks < 0 then "undefined" else AdventOrdinals[w];
    ordinal + AdventSundaySuffix
  }

  // ---------------------------------------------------------------------------
  // getLiturgicalSeason

  /** The descriptor `getLiturgicalSeason(date)` returns: the first rule that
      matches wins, in the source's order. */
  function LiturgicalSeason(date: Date): (r: Descriptor)
    requires ValidDate(date)
    ensures r.season == "" <==> FeastOn(FixedFeasts(date.year), date).Some?
  {
    SeasonOf(date, FeastOn(FixedFeasts(date.year), date), YearLandmarks(date.year))
  }

  /** The dates of a year that `getLiturgicalSeason` compares a date with. */
  datatype Landmarks = Landmarks(
    easter: Date, adventStart: Date, ashWednesday: Date, holyThursday: Date,
    goodFriday: Date, holySaturday: Date, pentecost: Date, epiphany: Date)

  predicate LandmarksValid(k: Landmarks)
  {
    ValidDate(k.easter) && ValidDate(k.adventStart) && ValidDate(k.ashWednesday)
    && ValidDate(k.holyThursday) && ValidDate(k.goodFriday) && ValidDate(k.holySaturday)
    && ValidDate(k.pentecost) && ValidDate(k.epiphany)
  }

  /** The landmarks of a year: the movable days are counted from Easter. */
  function YearLandmarks(year: int): (k: Landmarks)
    requires year >= 1
    ensures LandmarksValid(k)
  {
    var easter := Easter(year);
    Landmarks(easter, AdventStart(year), AddDays(easter, -46), AddDays(easter, -3),
              AddDays(easter, -2), AddDays(easter, -1), AddDays(easter, 49), Epiphany(year))
  }

  /** The rules of `getLiturgicalSeason` in the source's order, given the
      fixed feast the scan found on the date, if any, and the landmarks of
      the date's year. */
  function SeasonOf(date: Date, feast: Option<Feast>, k: Landmarks): (r: Descriptor)
    requires ValidDate(date) && LandmarksValid(k)
    ensures r.season == "" <==> feast.Some?
    ensures feast.None? ==> r.color in {Violet, Blanc, Rouge, Vert}
  {
    var year := date.year;
    var christmas := Date(year, 12, 25);
    var n := DayNumber(date);
    match feast
    case Some(f) => FeastDescriptor(f)
    case None =>
      if IsSameDay(date, k.ashWednesday) then
        Descriptor(AshWednesdayName, LentSeason, Violet, FeastRank)
      else if IsSameDay(date, k.holyThursday) then
        Descriptor(HolyThursdayName, HolyWeekSeason, Blanc, Solemnity)
      else if IsSameDay(date, k.goodFriday) then
        Descriptor(GoodFridayName, HolyWeekSeason, Rouge, Solemnity)
      else if IsSameDay(date, k.holySaturday) then
        Descriptor(HolySaturdayName, HolyWeekSeason, Violet, "")
      else if IsSameDay(date, k.easter) then
        Descriptor(EasterSundayName, EasterSeason, Blanc, Solemnity)
      else if IsSameDay(date, k.pentecost) then
        Descriptor(PentecostName, EasterSeason, Rouge, Solemnity)
      else if n >= DayNumber(k.adventStart) && n < DayNumber(christmas) then
        Descriptor(SundayOfAdvent(date, k.adventStart), AdventSeason, Violet, "")
      else if n >= DayNumber(christmas) && n <= DayNumber(Date(year, 12, 31)) then
        Descriptor(ChristmasSeason, ChristmasSeason, Blanc, "")
      else if n >= DayNumber(Date(year, 1, 1)) && n < DayNumber(k.epiphany) then
        Descriptor(OctaveName, ChristmasSeason, Blanc, "")
      else if n >= DayNumber(k.ashWednesday) && n < DayNumber(k.easter) then
        Descriptor(LentTimeName, LentSeason, Violet, "")
      else if n >= DayNumber(k.easter) && n < DayNumber(k.pentecost) then
        Descriptor(EasterSeason, EasterSeason, Blanc, "")
      else
        Descriptor(OrdinarySeason, OrdinarySeason, Vert, "")
  }

  /** `getLiturgicalSeason(date)`: computes the year's boundaries, then
      resolves the date against them. */
  method GetLiturgicalSeason(date: Date) returns (r: Descriptor)
    requires ValidDate(date)
    ensures r == LiturgicalSeason(date)
  {
    var year := date.year;
    var easter := Easter(year);
    var fixed := FixedFeasts(year);
    var adventStart := AdventStart(year);
    var ashWednesday := AddDays(easter, -46);
    var holyThursday := AddDays(easter, -3);
    var goodFriday := AddDays(easter, -2);
    var holySaturday := AddDays(easter, -1);
    var pentecost := AddDays(easter, 49);
    var epiphany := GetEpiphany(year);
    var landmarks := Landmarks(easter, adventStart, ashWednesday, holyThursday,
                               goodFriday, holySaturday, pentecost, epiphany);
    r := ResolveSeason(date, fixed, landmarks);
  }

  /** The body of `getLiturgicalSeason` once the boundaries are known: the
      scan of the fixed feasts, then the movable days and the ranges in
      order. The loop is proved against the recursive `FeastOn`; the rules
      after it are the source's statements one by one, the same rules that
      `SeasonOf` states as an expression. */
  method ResolveSeason(date: Date, fixed: seq<Feast>, k: Landmarks) returns (r: Descriptor)
    requires ValidDate(date) && LandmarksValid(k)
    ensures r == SeasonOf(date, FeastOn(fixed, date), k)
  {
    var year := date.year;
    var christmas := Date(year, 12, 25);
    var i := 0;
    while i < |fixed|
      invariant 0 <= i <= |fixed|
      invariant FeastOn(fixed[i..], date) == FeastOn(fixed, date)
    {
      assert fixed[i..][1..] == fixed[i + 1..];
      if IsSameDay(date, fixed[i].date) {
        return FeastDescriptor(fixed[i]);
      }
      i := i + 1;
    }

    var n := DayNumber(date);
    if IsSameDay(date, k.ashWednesday) {
      return Descriptor(AshWednesdayName, LentSeason, Violet, FeastRank);
    }
    if IsSameDay(date, k.holyThursday) {
      return Descriptor(HolyThursdayName, HolyWeekSeason, Blanc, Solemnity);
    }
    if IsSameDay(date, k.goodFriday) {
      return Descriptor(GoodFridayName, HolyWeekSeason, Rouge, Solemnity);
    }
    if IsSameDay(date, k.holySaturday) {
      return Descriptor(HolySaturdayName, HolyWeekSeason, Violet, "");
    }
    if IsSameDay(date, k.easter) {
      return Descriptor(EasterSundayName, EasterSeason, Blanc, Solemnity);
    }
    if IsSameDay(date, k.pentecost) {
      return Descriptor(PentecostName, EasterSeason, Rouge, Solemnity);
    }
    if n >= DayNumber(k.adventStart) && n < DayNumber(christmas) {
      return Descriptor(SundayOfAdvent(date, k.adventStart), AdventSeason, Violet, "");
    }
    if n >= DayNumber(christmas) && n <= DayNumber(Date(year, 12, 31)) {
      return Descriptor(ChristmasSeason, ChristmasSeason, Blanc, "");
    }
    if n >= DayNumber(Date(year, 1, 1)) && n < DayNumber(k.epiphany) {
      return Descriptor(OctaveName, ChristmasSeason, Blanc, "");
    }
    if n >= DayNumber(k.ashWednesday) && n < DayNumber(k.easter) {
      return Descriptor(LentTimeName, LentSeason, Violet, "");
    }
    if n >= DayNumber(k.easter) && n < DayNumber(k.pentecost) {
      return Descriptor(EasterSeason, EasterSeason, Blanc, "");
    }
    return Descriptor(OrdinarySeason, OrdinarySeason, Vert, "");
  }
}

/** What `getLiturgicalSeason` promises, stated over the model: fixed feasts
    win over everything, the movable named days win over the ranges, the
    Advent labels stay within the four Sundays, and each range yields its
    season when nothing earlier claims the date. */
module SeasonProperties {
  import opened Dates
  import opened LiturgicalCalendar

  /** The position in `getFixedFeasts` of the feast on a fixed-feast day. */
  function FeastIndex(month: int, day: int): (i: int)
    requires IsFixedFeastDay(month, day)
    ensures 0 <= i < 12
  {
    if month == 1 then (if day == 1 then 0 else 1)
    else if month == 2 then 2
    else if month == 3 then (if day == 19 then 3 else 4)
    else if month == 6 then (if day == 24 then 5 else 6)
    else if month == 8 then 7
    else if month == 11 then (if day == 1 then 8 else 9)
    else (if day == 8 then 10 else 11)
  }

  lemma FeastIndexDate(year: int, month: int, day: int)
    requires IsFixedFeastDay(month, day)
    ensures FixedFeasts(year)[FeastIndex(month, day)].date == Date(year, month, day)
  {
  }

  /** The fixed-feast scan finds a feast on a date exactly when the date's
      month and day are those of one of the twelve entries. */
  lemma FixedFeastDays(date: Date)
    requires ValidDate(date)
    ensures FeastOn(FixedFeasts(date.year), date).Some? <==> IsFixedFeastDay(date.month, date.day)
  {
    var fixed := FixedFeasts(date.year);
    if IsFixedFeastDay(date.month, date.day) {
      var i := FeastIndex(date.month, date.day);
      FeastIndexDate(date.year, date.month, date.day);
      assert fixed[i] in fixed && IsSameDay(date, fixed[i].date);
    }
  }

  /** The scan finds on each feast's date that very feast, since the dates
      are pairwise distinct. */
  lemma FeastOnOwnDate(year: int, i: int)
    requires 0 <= i < 12
    ensures FeastOn(FixedFeasts(year), FixedFeasts(year)[i].date) == Some(FixedFeasts(year)[i])
  {
    var fixed := FixedFeasts(year);
    FixedFeastsTable(year);
    assert fixed[i] in fixed;
    var r := FeastOn(fixed, fixed[i].date);
    var j :| 0 <= j < 12 && fixed[j] == r.value;
    assert j == i;
  }

  /** Rule 1: a date that is one of the fixed feasts resolves to that feast,
      whatever movable day or range it also lies in. */
  lemma FixedFeastWins(year: int, i: int)
    requires year >= 1 && 0 <= i < 12
    ensures LiturgicalSeason(FixedFeasts(year)[i].date) == FeastDescriptor(FixedFeasts(year)[i])
  {
    FeastOnOwnDate(year, i);
  }

  /** 25 December is Christmas, never the Christmas-season range. */
  lemma ChristmasIsNativity(year: int)
    requires year >= 1
    ensures LiturgicalSeason(Date(year, 12, 25))
         == Descriptor(ChristmasName, "", Blanc, Solemnity)
  {
    FixedFeastWins(year, 11);
  }

  /** 25 March is the Annunciation, even when it is Holy Thursday, Good
      Friday, Holy Saturday or Easter Sunday. */
  lemma AnnunciationIsShown(year: int)
    requires year >= 1
    ensures LiturgicalSeason(Date(year, 3, 25))
         == Descriptor(AnnunciationName, "", Blanc, Solemnity)
  {
    var f := FixedFeasts(year)[4];
    assert f == Feast(Date(year, 3, 25), AnnunciationName, Blanc, Solemnity);
    FixedFeastWins(year, 4);
  }

  /** In a year whose Easter is 27 March (2016, for one), Good Friday is
      25 March and shows the Annunciation. */
  lemma GoodFridayOnAnnunciation(year: int)
    requires year >= 1 && Easter(year) == Date(year, 3, 27)
    ensures AddDays(Easter(year), -2) == Date(year, 3, 25)
    ensures LiturgicalSeason(AddDays(Easter(year), -2))
         == Descriptor(AnnunciationName, "", Blanc, Solemnity)
  {
    DayNumberInjective(AddDays(Easter(year), -2), Date(year, 3, 25));
    AnnunciationIsShown(year);
  }

  /** The day numbers of Epiphany, Ash Wednesday, Easter, Pentecost, the first
      Sunday of Advent and Christmas increase in that order, so the ranges of
      rules 3 to 7 are disjoint and follow each other through the year. */
  lemma BoundariesInOrder(year: int)
    requires year >= 1
    ensures DayNumber(Date(year, 1, 1)) < DayNumber(Epiphany(year))
    ensures DayNumber(Epiphany(year)) < DayNumber(AddDays(Easter(year), -46))
    ensures DayNumber(AddDays(Easter(year), -46)) < DayNumber(Easter(year))
    ensures DayNumber(Easter(year)) < DayNumber(AddDays(Easter(year), 49))
    ensures DayNumber(AddDays(Easter(year), 49)) < DayNumber(AdventStart(year))
    ensures DayNumber(AdventStart(year)) < DayNumber(Date(year, 12, 25))
  {
  }

  /** Where the fixed feasts lie, counted from 1 January and, after
      February, from 22 March (the earliest Easter). */
  lemma FixedFeastDayNumbers(d: Date)
    requires ValidDate(d) && IsFixedFeastDay(d.month, d.day)
    ensures var s := DayNumber(Date(d.year, 1, 1));
      var t := DayNumber(Date(d.year, 3, 22));
      var n := DayNumber(d);
      n == s || n == s + 5 || n == s + 32
      || n == t - 3 || n == t + 3 || n == t + 94 || n == t + 99 || n == t + 146
      || n == t + 224 || n == t + 225 || n == t + 261 || n == t + 278
  {
  }

  /** A date whose day number avoids the fixed feasts' is no fixed-feast day. */
  lemma NoFixedFeast(d: Date)
    requires ValidDate(d)
    requires var s := DayNumber(Date(d.year, 1, 1));
      var t := DayNumber(Date(d.year, 3, 22));
      var n := DayNumber(d);
      n != s && n != s + 5 && n != s + 32
      && n != t - 3 && n != t + 3 && n != t + 94 && n != t + 99 && n != t + 146
      && n != t + 224 && n != t + 225 && n != t + 261 && n != t + 278
    ensures !IsFixedFeastDay(d.month, d.day)
  {
    if IsFixedFeastDay(d.month, d.day) {
      FixedFeastDayNumbers(d);
    }
  }

  // ---------------------------------------------------------------------------
  // The year's boundaries

  /** What the contracts of Easter, AdventStart and Epiphany, and the
      offsets of the movable days from Easter, say about a year's landmarks. */
  predicate Boundaries(year: int, k: Landmarks)
  {
    year >= 1 && LandmarksValid(k)
    && k.easter.year == year && Weekday(k.easter) == Sunday
    && DayNumber(Date(year, 3, 22)) <= DayNumber(k.easter) <= DayNumber(Date(year, 4, 25))
    && DayNumber(k.ashWednesday) == DayNumber(k.easter) - 46
    && DayNumber(k.holyThursday) == DayNumber(k.easter) - 3
    && DayNumber(k.goodFriday) == DayNumber(k.easter) - 2
    && DayNumber(k.holySaturday) == DayNumber(k.easter) - 1
    && DayNumber(k.pentecost) == DayNumber(k.easter) + 49
    && Weekday(k.adventStart) == Sunday
    && 22 <= DayNumber(Date(year, 12, 25)) - DayNumber(k.adventStart) <= 28
    && (DayNumber(Date(year, 12, 25)) - DayNumber(k.adventStart) == 28
        <==> Weekday(Date(year, 12, 25)) == Sunday)
    && k.epiphany.year == year && k.epiphany.month == 1 && 2 <= k.epiphany.day <= 8
  }

  lemma BoundariesOfYear(year: int)
    requires year >= 1
    ensures Boundaries(year, YearLandmarks(year))
  {
  }

  /** A date whose day number is within year y's days is a date of year y. */
  lemma InYear(d: Date, year: int)
    requires ValidDate(d) && year >= 1
    requires DayNumber(Date(year, 1, 1)) <= DayNumber(d) <= DayNumber(Date(year, 12, 31))
    ensures d.year == year
  {
    YearStartStep(year);
    YearOfDate(d, year);
  }

  /** Ash Wednesday falls on a Wednesday and Pentecost on a Sunday, since
      Easter is a Sunday. */
  lemma MovableWeekdays(easter: Date, ashWednesday: Date, pentecost: Date)
    requires ValidDate(easter) && ValidDate(ashWednesday) && ValidDate(pentecost)
    requires Weekday(easter) == Sunday
    requires DayNumber(ashWednesday) == DayNumber(easter) - 46
    requires DayNumber(pentecost) == DayNumber(easter) + 49
    ensures Weekday(ashWednesday) == Wednesday && Weekday(pentecost) == Sunday
  {
    WeekdayShift(easter, -46, ashWednesday);
    WeekdayShift(easter, 49, pentecost);
  }

  lemma AshWednesdayWith(year: int, k: Landmarks)
    requires Boundaries(year, k)
    ensures k.ashWednesday.year == year
    ensures !IsFixedFeastDay(k.ashWednesday.month, k.ashWednesday.day)
    ensures SeasonOf(k.ashWednesday, None, k) == Descriptor(AshWednesdayName, LentSeason, Violet, FeastRank)
  {
    InYear(k.ashWednesday, year);
    NoFixedFeast(k.ashWednesday);
  }

  /** Ash Wednesday, 46 days before Easter, is a Wednesday, and no fixed feast
      can fall on it (it lies between 4 February and 10 March). */
  lemma AshWednesdayIsNamed(year: int)
    requires year >= 1
    ensures var ash := AddDays(Easter(year), -46);
      Weekday(ash) == Wednesday
      && LiturgicalSeason(ash) == Descriptor(AshWednesdayName, LentSeason, Violet, FeastRank)
  {
    var k := YearLandmarks(year);
    BoundariesOfYear(year);
    MovableWeekdays(k.easter, k.ashWednesday, k.pentecost);
    AshWednesdayWith(year, k);
    FixedFeastDays(k.ashWednesday);
  }

  lemma HolyThursdayWith(year: int, k: Landmarks)
    requires Boundaries(year, k)
    requires k.holyThursday != Date(year, 3, 19) && k.holyThursday != Date(year, 3, 25)
    ensures k.holyThursday.year == year
    ensures !IsFixedFeastDay(k.holyThursday.month, k.holyThursday.day)
    ensures SeasonOf(k.holyThursday, None, k) == Descriptor(HolyThursdayName, HolyWeekSeason, Blanc, Solemnity)
  {
    var d := k.holyThursday;
    InYear(d, year);
    DayNumberInjective(d, Date(year, 3, 19));
    DayNumberInjective(d, Date(year, 3, 25));
    NoFixedFeast(d);
  }

  /** Holy Thursday shows as such unless it is Saint Joseph (19 March) or the
      Annunciation (25 March). */
  lemma HolyThursdayIsNamed(year: int)
    requires year >= 1
    requires AddDays(Easter(year), -3) != Date(year, 3, 19)
    requires AddDays(Easter(year), -3) != Date(year, 3, 25)
    ensures LiturgicalSeason(AddDays(Easter(year), -3))
         == Descriptor(HolyThursdayName, HolyWeekSeason, Blanc, Solemnity)
  {
    BoundariesOfYear(year);
    HolyThursdayWith(year, YearLandmarks(year));
    FixedFeastDays(YearLandmarks(year).holyThursday);
  }

  lemma GoodFridayWith(year: int, k: Landmarks)
    requires Boundaries(year, k)
    requires k.goodFriday != Date(year, 3, 25)
    ensures k.goodFriday.year == year
    ensures !IsFixedFeastDay(k.goodFriday.month, k.goodFriday.day)
    ensures SeasonOf(k.goodFriday, None, k) == Descriptor(GoodFridayName, HolyWeekSeason, Rouge, Solemnity)
  {
    var d := k.goodFriday;
    InYear(d, year);
    DayNumberInjective(d, Date(year, 3, 25));
    NoFixedFeast(d);
  }

  /** Good Friday lies inside Lent's range [Ash Wednesday, Easter), yet shows
      as Good Friday, unless it is the Annunciation. */
  lemma GoodFridayIsNamed(year: int)
    requires year >= 1
    requires AddDays(Easter(year), -2) != Date(year, 3, 25)
    ensures var d := AddDays(Easter(year), -2);
      DayNumber(AddDays(Easter(year), -46)) <= DayNumber(d) < DayNumber(Easter(year))
      && LiturgicalSeason(d) == Descriptor(GoodFridayName, HolyWeekSeason, Rouge, Solemnity)
  {
    BoundariesOfYear(year);
    GoodFridayWith(year, YearLandmarks(year));
    FixedFeastDays(YearLandmarks(year).goodFriday);
  }

  lemma HolySaturdayWith(year: int, k: Landmarks)
    requires Boundaries(year, k)
    requires k.holySaturday != Date(year, 3, 25)
    ensures k.holySaturday.year == year
    ensures !IsFixedFeastDay(k.holySaturday.month, k.holySaturday.day)
    ensures SeasonOf(k.holySaturday, None, k) == Descriptor(HolySaturdayName, HolyWeekSeason, Violet, "")
  {
    var d := k.holySaturday;
    InYear(d, year);
    DayNumberInjective(d, Date(year, 3, 25));
    NoFixedFeast(d);
  }

  /** Holy Saturday shows as such unless it is the Annunciation. */
  lemma HolySaturdayIsNamed(year: int)
    requires year >= 1
    requires AddDays(Easter(year), -1) != Date(year, 3, 25)
    ensures LiturgicalSeason(AddDays(Easter(year), -1))
         == Descriptor(HolySaturdayName, HolyWeekSeason, Violet, "")
  {
    BoundariesOfYear(year);
    HolySaturdayWith(year, YearLandmarks(year));
    FixedFeastDays(YearLandmarks(year).holySaturday);
  }

  lemma EasterSundayWith(year: int, k: Landmarks)
    requires Boundaries(year, k)
    requires k.easter != Date(year, 3, 25)
    ensures !IsFixedFeastDay(k.easter.month, k.easter.day)
    ensures SeasonOf(k.easter, None, k) == Descriptor(EasterSundayName, EasterSeason, Blanc, Solemnity)
  {
    DayNumberInjective(k.easter, Date(year, 3, 25));
    NoFixedFeast(k.easter);
  }

  /** Easter Sunday shows as "Dimanche de Pâques", not as the Eastertide range
      it opens, unless it is the Annunciation. */
  lemma EasterSundayIsNamed(year: int)
    requires year >= 1
    requires Easter(year) != Date(year, 3, 25)
    ensures LiturgicalSeason(Easter(year))
         == Descriptor(EasterSundayName, EasterSeason, Blanc, Solemnity)
  {
    BoundariesOfYear(year);
    EasterSundayWith(year, YearLandmarks(year));
    FixedFeastDays(YearLandmarks(year).easter);
  }

  lemma PentecostWith(year: int, k: Landmarks)
    requires Boundaries(year, k)
    ensures k.pentecost.year == year
    ensures !IsFixedFeastDay(k.pentecost.month, k.pentecost.day)
    ensures SeasonOf(k.pentecost, None, k) == Descriptor(PentecostName, EasterSeason, Rouge, Solemnity)
  {
    InYear(k.pentecost, year);
    NoFixedFeast(k.pentecost);
  }

  /** Pentecost, 49 days after Easter, is a Sunday between 10 May and 13 June,
      where no fixed feast falls. */
  lemma PentecostIsNamed(year: int)
    requires year >= 1
    ensures var p := AddDays(Easter(year), 49);
      Weekday(p) == Sunday
      && LiturgicalSeason(p) == Descriptor(PentecostName, EasterSeason, Rouge, Solemnity)
  {
    var k := YearLandmarks(year);
    BoundariesOfYear(year);
    MovableWeekdays(k.easter, k.ashWednesday, k.pentecost);
    PentecostWith(year, k);
    FixedFeastDays(k.pentecost);
  }

  // ---------------------------------------------------------------------------
  // Advent

  /** A date no fixed feast claims resolves as the movable days and the
      ranges of its year say. */
  lemma NoFeastSeason(date: Date)
    requires ValidDate(date) && !IsFixedFeastDay(date.month, date.day)
    ensures LiturgicalSeason(date) == SeasonOf(date, None, YearLandmarks(date.year))
  {
    FixedFeastDays(date);
  }

  lemma AdventStartWith(year: int, k: Landmarks)
    requires Boundaries(year, k)
    ensures k.adventStart.year == year
    ensures (k.adventStart.month == 11 && 27 <= k.adventStart.day)
         || (k.adventStart.month == 12 && k.adventStart.day <= 3)
    ensures Weekday(Date(year, 12, 25)) == Sunday <==> k.adventStart == Date(year, 11, 27)
  {
    var s := k.adventStart;
    AdventStartInYear(year, k);
    LateNovemberWindow(s, Date(year, 12, 25));
    DayNumberInjective(s, Date(year, 11, 27));
  }

  lemma AdventStartInYear(year: int, k: Landmarks)
    requires Boundaries(year, k)
    ensures k.adventStart.year == year
  {
    InYear(k.adventStart, year);
  }

  /** A date of the year 22 .. 28 days before 25 December lies in
      27 November .. 3 December. */
  lemma LateNovemberWindow(d: Date, christmas: Date)
    requires ValidDate(d) && christmas == Date(d.year, 12, 25)
    requires 22 <= DayNumber(christmas) - DayNumber(d) <= 28
    ensures (d.month == 11 && 27 <= d.day) || (d.month == 12 && d.day <= 3)
  {
  }

  /** The first Sunday of Advent falls between 27 November and 3 December,
      on 27 November exactly when Christmas is a Sunday (four full weeks
      before it). */
  lemma AdventStartWindow(year: int)
    requires year >= 1
    ensures var s := AdventStart(year);
      s.year == year && ((s.month == 11 && 27 <= s.day) || (s.month == 12 && s.day <= 3))
      && (Weekday(Date(year, 12, 25)) == Sunday <==> s == Date(year, 11, 27))
  {
    BoundariesOfYear(year);
    AdventStartWith(year, YearLandmarks(year));
  }

  /** `getSundayOfAdvent`: the label of the week whole weeks from the first
      Sunday; the first three weeks have their own ordinal, everything from
      the fourth week on is the fourth, and a date before the start has no
      ordinal. */
  lemma SundayOfAdventWeeks(date: Date, start: Date, w: int)
    requires ValidDate(date) && ValidDate(start) && 0 <= w
    requires 7 * w <= DayNumber(date) - DayNumber(start) < 7 * w + 7
    ensures SundayOfAdvent(date, start)
         == (if w < 3 then AdventOrdinals[w] else "4e") + AdventSundaySuffix
  {
  }

  lemma SundayOfAdventBefore(date: Date, start: Date)
    requires ValidDate(date) && ValidDate(start) && DayNumber(date) < DayNumber(start)
    ensures SundayOfAdvent(date, start) == "undefined" + AdventSundaySuffix
  {
  }

  /** The movable days of a set of landmarks come in their calendar order. */
  predicate Ordered(k: Landmarks)
    requires LandmarksValid(k)
  {
    DayNumber(k.epiphany) < DayNumber(k.ashWednesday) < DayNumber(k.holyThursday)
    && DayNumber(k.holyThursday) < DayNumber(k.goodFriday) < DayNumber(k.holySaturday)
    && DayNumber(k.holySaturday) < DayNumber(k.easter) < DayNumber(k.pentecost)
    && DayNumber(k.pentecost) < DayNumber(k.adventStart)
  }

  /** Dates of distinct day numbers are not the same day. */
  lemma NotSameDay(a: Date, b: Date)
    requires ValidDate(a) && ValidDate(b) && DayNumber(a) != DayNumber(b)
    ensures !IsSameDay(a, b)
  {
  }

  /** A date whose day number is none of the movable days' is none of them. */
  lemma NoMovableDay(date: Date, k: Landmarks)
    requires ValidDate(date) && LandmarksValid(k)
    requires var n := DayNumber(date);
      n != DayNumber(k.ashWednesday) && n != DayNumber(k.holyThursday)
      && n != DayNumber(k.goodFriday) && n != DayNumber(k.holySaturday)
      && n != DayNumber(k.easter) && n != DayNumber(k.pentecost)
    ensures !IsSameDay(date, k.ashWednesday) && !IsSameDay(date, k.holyThursday)
    ensures !IsSameDay(date, k.goodFriday) && !IsSameDay(date, k.holySaturday)
    ensures !IsSameDay(date, k.easter) && !IsSameDay(date, k.pentecost)
  {
    NotSameDay(date, k.ashWednesday);
    NotSameDay(date, k.holyThursday);
    NotSameDay(date, k.goodFriday);
    NotSameDay(date, k.holySaturday);
    NotSameDay(date, k.easter);
    NotSameDay(date, k.pentecost);
  }

  lemma AdventSeasonOf(date: Date, k: Landmarks)
    requires ValidDate(date) && LandmarksValid(k) && Ordered(k)
    requires DayNumber(k.adventStart) <= DayNumber(date) < DayNumber(Date(date.year, 12, 25))
    ensures SeasonOf(date, None, k) == Descriptor(SundayOfAdvent(date, k.adventStart), AdventSeason, Violet, "")
  {
    NoMovableDay(date, k);
  }

  lemma AdventDayWith(date: Date, k: Landmarks)
    requires Boundaries(date.year, k) && ValidDate(date)
    requires DayNumber(k.adventStart) <= DayNumber(date) < DayNumber(Date(date.year, 12, 25))
    requires date != Date(date.year, 12, 8)
    ensures !IsFixedFeastDay(date.month, date.day)
    ensures SeasonOf(date, None, k) == Descriptor(SundayOfAdvent(date, k.adventStart), AdventSeason, Violet, "")
  {
    OrderedOfBoundaries(date.year, k);
    AdventSeasonOf(date, k);
    AdventMonthDay(date, k.adventStart);
  }

  /** A day from the start of Advent to 24 December lies in
      27 November .. 24 December. */
  lemma AdventMonthDay(date: Date, start: Date)
    requires ValidDate(date) && ValidDate(start)
    requires 22 <= DayNumber(Date(date.year, 12, 25)) - DayNumber(start) <= 28
    requires DayNumber(start) <= DayNumber(date) < DayNumber(Date(date.year, 12, 25))
    ensures (date.month == 11 && 27 <= date.day) || (date.month == 12 && date.day <= 24)
  {
  }

  lemma OrderedOfBoundaries(year: int, k: Landmarks)
    requires Boundaries(year, k)
    ensures Ordered(k)
  {
  }

  /** A day from the first Sunday of Advent to 24 December is an Advent day
      in violet (8 December, the Immaculate Conception, takes precedence),
      labelled with its week, which is one of the four: the label is never
      capped and never "undefined" there. */
  lemma AdventWeekLabel(date: Date)
    requires ValidDate(date)
    requires DayNumber(AdventStart(date.year)) <= DayNumber(date) < DayNumber(Date(date.year, 12, 25))
    requires date != Date(date.year, 12, 8)
    ensures LiturgicalSeason(date)
         == Descriptor(SundayOfAdvent(date, AdventStart(date.year)), AdventSeason, Violet, "")
    ensures var w := (DayNumber(date) - DayNumber(AdventStart(date.year))) / 7;
      0 <= w <= 3 && SundayOfAdvent(date, AdventStart(date.year)) == AdventOrdinals[w] + AdventSundaySuffix
  {
    var k := YearLandmarks(date.year);
    BoundariesOfYear(date.year);
    AdventDayWith(date, k);
    NoFeastSeason(date);
    AdventWeek(date, k.adventStart);
  }

  /** Fewer than 28 days from the start, the week index is 0 .. 3 and the
      label is that week's ordinal. */
  lemma AdventWeek(date: Date, start: Date)
    requires ValidDate(date) && ValidDate(start)
    requires 0 <= DayNumber(date) - DayNumber(start) < 28
    ensures var w := (DayNumber(date) - DayNumber(start)) / 7;
      0 <= w <= 3 && SundayOfAdvent(date, start) == AdventOrdinals[w] + AdventSundaySuffix
  {
    var w := (DayNumber(date) - DayNumber(start)) / 7;
    SundayOfAdventWeeks(date, start, w);
  }

  lemma AdventSundayWith(year: int, k: Landmarks, j: int, s: Date)
    requires Boundaries(year, k) && 0 <= j <= 3
    requires ValidDate(s) && DayNumber(s) == DayNumber(k.adventStart) + 7 * j
    requires s != Date(year, 12, 8)
    ensures s.year == year && Weekday(s) == Sunday
    ensures !IsFixedFeastDay(s.month, s.day)
    ensures SeasonOf(s, None, k) == Descriptor(AdventOrdinals[j] + AdventSundaySuffix, AdventSeason, Violet, "")
  {
    AdventSundayInYear(year, k, j, s);
    AdventDayWith(s, k);
    SundayOfAdventWeeks(s, k.adventStart, j);
    WeeksLater(k.adventStart, j, s);
  }

  /** Whole weeks after a Sunday is a Sunday. */
  lemma WeeksLater(start: Date, j: int, s: Date)
    requires ValidDate(start) && ValidDate(s) && Weekday(start) == Sunday
    requires DayNumber(s) == DayNumber(start) + 7 * j
    ensures Weekday(s) == Sunday
  {
    WeekdayOfDayNumber(s, DayNumber(s));
    WeekdayOfDayNumber(start, DayNumber(start));
    ModSevenShift(j, DayNumber(start) + 1);
  }

  lemma AdventSundayInYear(year: int, k: Landmarks, j: int, s: Date)
    requires Boundaries(year, k) && 0 <= j <= 3
    requires ValidDate(s) && DayNumber(s) == DayNumber(k.adventStart) + 7 * j
    ensures s.year == year
  {
    InYear(s, year);
  }

  /** The j-th Sunday of Advent (j = 0 .. 3 from the first) is a Sunday and
      carries the j-th ordinal, unless it is 8 December. */
  lemma AdventSundays(year: int, j: int)
    requires year >= 1 && 0 <= j <= 3
    requires AddDays(AdventStart(year), 7 * j) != Date(year, 12, 8)
    ensures var s := AddDays(AdventStart(year), 7 * j);
      Weekday(s) == Sunday
      && LiturgicalSeason(s) == Descriptor(AdventOrdinals[j] + AdventSundaySuffix, AdventSeason, Violet, "")
  {
    var s := AddDays(AdventStart(year), 7 * j);
    BoundariesOfYear(year);
    AdventSundayWith(year, YearLandmarks(year), j, s);
    NoFeastSeason(s);
  }

  /** The first Sunday of Advent itself is "1er dimanche de l'Avent". */
  lemma FirstSundayOfAdvent(year: int)
    requires year >= 1
    ensures LiturgicalSeason(AdventStart(year))
         == Descriptor(AdventOrdinals[0] + AdventSundaySuffix, AdventSeason, Violet, "")
  {
    var k := YearLandmarks(year);
    BoundariesOfYear(year);
    AdventStartWith(year, k);
    AdventSundayWith(year, k, 0, k.adventStart);
    NoFeastSeason(k.adventStart);
  }

  // ---------------------------------------------------------------------------
  // The ranges

  /** Within one month, a later day has a larger day number. */
  lemma SameMonthOrder(a: Date, b: Date)
    requires ValidDate(a) && ValidDate(b) && a.year == b.year && a.month == b.month
    ensures DayNumber(b) - DayNumber(a) == b.day - a.day
  {
  }

  lemma ChristmasWeekSeasonOf(date: Date, k: Landmarks)
    requires ValidDate(date) && LandmarksValid(k) && Ordered(k)
    requires DayNumber(k.adventStart) < DayNumber(Date(date.year, 12, 25)) < DayNumber(date)
    requires DayNumber(date) <= DayNumber(Date(date.year, 12, 31))
    ensures SeasonOf(date, None, k) == Descriptor(ChristmasSeason, ChristmasSeason, Blanc, "")
  {
    NoMovableDay(date, k);
  }

  /** 26 .. 31 December belong to the Christmas season, in white. */
  lemma ChristmasWeek(date: Date)
    requires ValidDate(date) && date.month == 12 && 26 <= date.day
    ensures LiturgicalSeason(date) == Descriptor(ChristmasSeason, ChristmasSeason, Blanc, "")
  {
    BoundariesOfYear(date.year);
    ChristmasWeekWith(date, YearLandmarks(date.year));
    NoFeastSeason(date);
  }

  lemma ChristmasWeekWith(date: Date, k: Landmarks)
    requires Boundaries(date.year, k) && ValidDate(date) && date.month == 12 && 26 <= date.day
    ensures SeasonOf(date, None, k) == Descriptor(ChristmasSeason, ChristmasSeason, Blanc, "")
  {
    OrderedOfBoundaries(date.year, k);
    SameMonthOrder(Date(date.year, 12, 25), date);
    SameMonthOrder(date, Date(date.year, 12, 31));
    ChristmasWeekSeasonOf(date, k);
  }

  lemma OctaveSeasonOf(date: Date, k: Landmarks)
    requires ValidDate(date) && LandmarksValid(k) && Ordered(k)
    requires DayNumber(k.adventStart) < DayNumber(Date(date.year, 12, 25))
    requires DayNumber(Date(date.year, 1, 1)) <= DayNumber(date) < DayNumber(k.epiphany)
    ensures SeasonOf(date, None, k) == Descriptor(OctaveName, ChristmasSeason, Blanc, "")
  {
    NoMovableDay(date, k);
  }

  /** The days from 2 January to the eve of the Epiphany Sunday, other than
      the fixed 6 January, are the Octave of Christmas. */
  lemma OctaveBeforeEpiphany(date: Date)
    requires ValidDate(date) && date.month == 1 && 2 <= date.day < Epiphany(date.year).day
    requires date.day != 6
    ensures LiturgicalSeason(date) == Descriptor(OctaveName, ChristmasSeason, Blanc, "")
  {
    BoundariesOfYear(date.year);
    OctaveWith(date, YearLandmarks(date.year));
    NoFeastSeason(date);
  }

  lemma OctaveWith(date: Date, k: Landmarks)
    requires Boundaries(date.year, k) && ValidDate(date)
    requires date.month == 1 && 2 <= date.day < k.epiphany.day
    ensures SeasonOf(date, None, k) == Descriptor(OctaveName, ChristmasSeason, Blanc, "")
  {
    OrderedOfBoundaries(date.year, k);
    SameMonthOrder(Date(date.year, 1, 1), date);
    SameMonthOrder(date, k.epiphany);
    OctaveSeasonOf(date, k);
  }

  lemma LentSeasonOf(date: Date, k: Landmarks)
    requires ValidDate(date) && LandmarksValid(k) && Ordered(k)
    requires DayNumber(k.adventStart) < DayNumber(Date(date.year, 12, 25))
    requires DayNumber(k.ashWednesday) < DayNumber(date) < DayNumber(k.holyThursday)
    ensures SeasonOf(date, None, k) == Descriptor(LentTimeName, LentSeason, Violet, "")
  {
    NoMovableDay(date, k);
  }

  /** A date strictly between 22 March - 46 and 25 April - 3 days lies in
      5 February .. 21 April. */
  lemma LentMonthDay(date: Date)
    requires ValidDate(date)
    requires DayNumber(Date(date.year, 3, 22)) - 46 < DayNumber(date) < DayNumber(Date(date.year, 4, 25)) - 3
    ensures (date.month == 2 && 5 <= date.day) || date.month == 3 || (date.month == 4 && date.day <= 21)
  {
  }

  /** A day of Lent after Ash Wednesday and before Holy Thursday is a plain
      Lent day in violet, unless it is Saint Joseph or the Annunciation. */
  lemma LentWeekday(date: Date)
    requires ValidDate(date)
    requires DayNumber(AddDays(Easter(date.year), -46)) < DayNumber(date) < DayNumber(AddDays(Easter(date.year), -3))
    requires date != Date(date.year, 3, 19) && date != Date(date.year, 3, 25)
    ensures LiturgicalSeason(date) == Descriptor(LentTimeName, LentSeason, Violet, "")
  {
    BoundariesOfYear(date.year);
    LentWith(date, YearLandmarks(date.year));
    NoFeastSeason(date);
  }

  lemma LentWith(date: Date, k: Landmarks)
    requires Boundaries(date.year, k) && ValidDate(date)
    requires DayNumber(k.ashWednesday) < DayNumber(date) < DayNumber(k.holyThursday)
    requires date != Date(date.year, 3, 19) && date != Date(date.year, 3, 25)
    ensures !IsFixedFeastDay(date.month, date.day)
    ensures SeasonOf(date, None, k) == Descriptor(LentTimeName, LentSeason, Violet, "")
  {
    OrderedOfBoundaries(date.year, k);
    LentMonthDay(date);
    LentSeasonOf(date, k);
  }

  lemma EastertideSeasonOf(date: Date, k: Landmarks)
    requires ValidDate(date) && LandmarksValid(k) && Ordered(k)
    requires DayNumber(k.adventStart) < DayNumber(Date(date.year, 12, 25))
    requires DayNumber(k.easter) < DayNumber(date) < DayNumber(k.pentecost)
    ensures SeasonOf(date, None, k) == Descriptor(EasterSeason, EasterSeason, Blanc, "")
  {
    NoMovableDay(date, k);
  }

  /** A date strictly between 22 March and 25 April + 49 days lies in
      23 March .. 12 June. */
  lemma EastertideMonthDay(date: Date)
    requires ValidDate(date)
    requires DayNumber(Date(date.year, 3, 22)) < DayNumber(date) < DayNumber(Date(date.year, 4, 25)) + 49
    ensures (date.month == 3 && 23 <= date.day) || date.month == 4 || date.month == 5
         || (date.month == 6 && date.day <= 12)
  {
  }

  /** The days between Easter Sunday and Pentecost are Eastertide, in white,
      unless one is the Annunciation. */
  lemma EastertideDay(date: Date)
    requires ValidDate(date)
    requires DayNumber(Easter(date.year)) < DayNumber(date) < DayNumber(AddDays(Easter(date.year), 49))
    requires date != Date(date.year, 3, 25)
    ensures LiturgicalSeason(date) == Descriptor(EasterSeason, EasterSeason, Blanc, "")
  {
    BoundariesOfYear(date.year);
    EastertideWith(date, YearLandmarks(date.year));
    NoFeastSeason(date);
  }

  lemma EastertideWith(date: Date, k: Landmarks)
    requires Boundaries(date.year, k) && ValidDate(date)
    requires DayNumber(k.easter) < DayNumber(date) < DayNumber(k.pentecost)
    requires date != Date(date.year, 3, 25)
    ensures !IsFixedFeastDay(date.month, date.day)
    ensures SeasonOf(date, None, k) == Descriptor(EasterSeason, EasterSeason, Blanc, "")
  {
    OrderedOfBoundaries(date.year, k);
    EastertideMonthDay(date);
    EastertideSeasonOf(date, k);
  }

  lemma OrdinarySeasonOf(date: Date, k: Landmarks)
    requires ValidDate(date) && LandmarksValid(k) && Ordered(k)
    requires DayNumber(k.adventStart) < DayNumber(Date(date.year, 12, 25))
    requires var n := DayNumber(date);
      (DayNumber(k.epiphany) <= n < DayNumber(k.ashWednesday))
      || (DayNumber(k.pentecost) < n < DayNumber(k.adventStart))
    ensures SeasonOf(date, None, k) == Descriptor(OrdinarySeason, OrdinarySeason, Vert, "")
  {
    NoMovableDay(date, k);
  }

  /** Ordinary Time, in green: from the Epiphany Sunday to the eve of Ash
      Wednesday and from the day after Pentecost to the eve of Advent, on
      the days no fixed feast claims. */
  lemma OrdinaryTimeDay(date: Date)
    requires ValidDate(date) && !IsFixedFeastDay(date.month, date.day)
    requires var n := DayNumber(date);
      (DayNumber(Epiphany(date.year)) <= n < DayNumber(AddDays(Easter(date.year), -46)))
      || (DayNumber(AddDays(Easter(date.year), 49)) < n < DayNumber(AdventStart(date.year)))
    ensures LiturgicalSeason(date) == Descriptor(OrdinarySeason, OrdinarySeason, Vert, "")
  {
    BoundariesOfYear(date.year);
    OrdinaryWith(date, YearLandmarks(date.year));
    NoFeastSeason(date);
  }

  lemma OrdinaryWith(date: Date, k: Landmarks)
    requires Boundaries(date.year, k) && ValidDate(date)
    requires var n := DayNumber(date);
      (DayNumber(k.epiphany) <= n < DayNumber(k.ashWednesday))
      || (DayNumber(k.pentecost) < n < DayNumber(k.adventStart))
    ensures SeasonOf(date, None, k) == Descriptor(OrdinarySeason, OrdinarySeason, Vert, "")
  {
    OrderedOfBoundaries(date.year, k);
    OrdinarySeasonOf(date, k);
  }

  /** The Epiphany Sunday shows as the Epiphany only when it is 6 January;
      on any other day of 2 .. 8 January the fixed feast is not on that day
      and the Octave range ends the day before, so it shows as Ordinary Time. */
  lemma EpiphanySundayShown(year: int)
    requires year >= 1
    ensures Epiphany(year).day == 6
        ==> LiturgicalSeason(Epiphany(year)) == Descriptor(EpiphanyName, "", Blanc, Solemnity)
    ensures Epiphany(year).day != 6
        ==> LiturgicalSeason(Epiphany(year)) == Descriptor(OrdinarySeason, OrdinarySeason, Vert, "")
  {
    var k := YearLandmarks(year);
    var e := k.epiphany;
    if e.day == 6 {
      FixedFeastWins(year, 1);
    } else {
      BoundariesOfYear(year);
      EpiphanySundayWith(year, k);
      NoFeastSeason(e);
    }
  }

  lemma EpiphanySundayWith(year: int, k: Landmarks)
    requires Boundaries(year, k) && k.epiphany.day != 6
    ensures !IsFixedFeastDay(k.epiphany.month, k.epiphany.day)
    ensures SeasonOf(k.epiphany, None, k) == Descriptor(OrdinarySeason, OrdinarySeason, Vert, "")
  {
    OrderedOfBoundaries(year, k);
    OrdinarySeasonOf(k.epiphany, k);
  }

  // ---------------------------------------------------------------------------
  // Colours

  /** `getLiturgicalSeason` never gives the rose or gold colours of the
      colour table: the fixed feasts are white, red or black and the other
      rules violet, white, red or green. */
  lemma NeverRoseOrGold(date: Date)
    requires ValidDate(date)
    ensures LiturgicalSeason(date).color != Rose && LiturgicalSeason(date).color != Or
  {
    if IsFixedFeastDay(date.month, date.day) {
      FeastColor(date);
    } else {
      NoFeastSeason(date);
    }
  }

  /** On a fixed-feast day the descriptor is the feast's, in white, red or
      black. */
  lemma FeastColor(date: Date)
    requires ValidDate(date) && IsFixedFeastDay(date.month, date.day)
    ensures LiturgicalSeason(date).color in {Blanc, Rouge, Noir}
  {
    var i := FeastIndex(date.month, date.day);
    FeastIndexDate(date.year, date.month, date.day);
    FeastOnOwnDate(date.year, i);
    FixedFeastsTable(date.year);
  }
}

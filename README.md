# Liturgical calendar engine, modelled in Dafny

This project models `liturgicalCalendar.js`, the engine that turns a calendar
day into its liturgical descriptor (name, season, colour, rank). The engine
does four things:

1. It computes Easter with the anonymous Gregorian (Butcher) computus.
2. It computes the Epiphany under the French rule: the Sunday from 2 to 8 January.
3. It finds the first Sunday of Advent: back from Christmas by Christmas's
   weekday (7 when Christmas is a Sunday), then 21 more days.
4. It resolves a date in eight rules, first match wins:
   - the twelve fixed feasts;
   - the movable named days (Ash Wednesday, Holy Thursday, Good Friday,
     Holy Saturday, Easter Sunday, Pentecost);
   - Advent;
   - 25 to 31 December;
   - 1 January to the eve of the Epiphany Sunday;
   - Lent;
   - Eastertide;
   - Ordinary Time.

Files:

- `dates.dfy` (module `Dates`): calendar days of the proleptic Gregorian
  calendar with no time of day. A valid date has a day number (day 0 is
  1 January of year 1). Comparing `Date` objects, `addDays`, `isSameDay`
  and `getDay()` become integer arithmetic on day numbers.
- `calendar.dfy` (module `LiturgicalCalendar`):
  - the operations of the engine: `getEaster`, the keys of
    `LITURGICAL_COLORS`, `getFixedFeasts`, `getEpiphany`, `getSundayOfAdvent`
    and `getLiturgicalSeason`;
  - the computus proofs.
- `season_properties.dfy` (module `SeasonProperties`): what the resolver
  promises, rule by rule.

The two loops of the source are methods proved equal to specification
functions:

- `GetEpiphany` scans 2 to 8 January. `Epiphany` is the closed form it equals.
- `ResolveSeason` scans the fixed feasts and then applies the remaining rules.
  `GetLiturgicalSeason` first computes the year's landmarks (Easter, Advent,
  the movable days, the Epiphany Sunday), as the source does.

The specification side is the function `LiturgicalSeason`. It is a total
function on valid dates, so every date gets exactly one descriptor, and the
default rule is Ordinary Time in green.

Some behaviour of the source that the proofs make explicit:

- The fixed feast of the Epiphany stays on 6 January. The transferred
  Sunday only ends the Octave range. When that Sunday is not 6 January, it
  is neither a fixed feast nor inside the Octave range, so it shows as
  "Temps Ordinaire" in green (`SeasonProperties.EpiphanySundayShown`).
- A fixed feast beats everything. In a year whose Easter is 27 March
  (2016, for one), Good Friday shows as the Annunciation.
- A movable named day shows only when no fixed feast falls on the same day.
  The named-day lemmas therefore exclude Saint Joseph (19 March) and the
  Annunciation (25 March), the only fixed feasts that Holy Week or Easter
  Sunday can meet.
- 8 December can fall on an Advent Sunday, and then it is the Immaculate
  Conception instead.
- No rule yields the colours `rose` or `or` of the colour table.
- For 2024 the computus gives 31 March (`LiturgicalCalendar.EasterExamples`).

## Model

| member | source | states |
|---|---|---|
| `LiturgicalCalendar.JsRem` | liturgicalCalendar.js:3-16 | JavaScript's `%` on a non-negative dividend and a positive divisor is the remainder r in 0 .. n-1 with x == n * floor(x / n) + r |
| `LiturgicalCalendar.FloorDiv` | liturgicalCalendar.js:3-16 | `Math.floor(x / n)` is the q with n*q <= x < n*q + n |
| `LiturgicalCalendar.EasterH` | liturgicalCalendar.js:6-10 | well-formedness bound only: h is in 0 .. 29, the range the later steps need |
| `LiturgicalCalendar.EasterL` | liturgicalCalendar.js:7-13 | well-formedness bound only: l is in 0 .. 6, the range the later steps need |
| `LiturgicalCalendar.EasterOffset` | liturgicalCalendar.js:3-14 | h + l - 7m, the number of days from 22 March to Easter, is 0 .. 34 |
| `LiturgicalCalendar.OffsetBounds` | liturgicalCalendar.js:14 | m is 0 or 1 and never takes the offset below 0 or above 34 |
| `LiturgicalCalendar.EasterOffsetSunday` | liturgicalCalendar.js:10-14 | the day the offset leads to, counted from the closed-form day number of 22 March, is a Sunday |
| `LiturgicalCalendar.OffsetDate` | liturgicalCalendar.js:15-17 | the month and day derived from an offset of 0 .. 34 name the date that many days after 22 March, within 22 March .. 25 April |
| `LiturgicalCalendar.OffsetMonthDay` | liturgicalCalendar.js:15-16 | for an offset s of 0 .. 34 the month and day are (3, 22 + s) up to s = 9 and (4, s - 9) after, the day s days after 22 March |
| `LiturgicalCalendar.EasterMonthDay` | liturgicalCalendar.js:3-16 | the month and day the computus gives are a day of 22 March .. 25 April |
| `LiturgicalCalendar.EasterComputus` | liturgicalCalendar.js:2-18 | for every year from 1 on, the computed month and day are a valid date between 22 March and 25 April, and that date is a Sunday |
| `LiturgicalCalendar.Easter` | liturgicalCalendar.js:2-18 | `getEaster(year)` is a date of that year, between 22 March and 25 April (by month and day and by day number), and a Sunday |
| `LiturgicalCalendar.EasterExamples` | liturgicalCalendar.js:2-18 | Easter is 23 April 2000, 27 March 2016, 31 March 2024 and 20 April 2025 |
| `Dates.AddDays` | liturgicalCalendar.js:20-24 | `addDays(d, n)` is the valid date whose day number is n more than d's |
| `Dates.AddDaysByDayNumber` | liturgicalCalendar.js:20-24 | the result of `addDays` is determined by its day number |
| `Dates.AddDaysInverse` | liturgicalCalendar.js:20-24 | adding n days and then -n days gives back the same date |
| `Dates.AddDaysWeekday` | liturgicalCalendar.js:20-24 | adding n days moves the weekday n places round the week |
| `Dates.IsSameDay` | liturgicalCalendar.js:26-30 | comparing full year, month and day is equality of dates |
| `Dates.SameDayIsEquality` | liturgicalCalendar.js:26-30 | for valid dates `isSameDay` holds exactly when their day numbers are equal; it is reflexive and symmetric |
| `Dates.Weekday` | liturgicalCalendar.js:54 | `getDay()` is in 0 .. 6; `WeekdayOfDayNumber` and `AddDaysWeekday` tie it to the day number |
| `LiturgicalCalendar.ChristmasIn2025` | liturgicalCalendar.js:53-54 | a dated anchor of the weekday: 25 December 2025 is a Thursday |
| `LiturgicalCalendar.AdventIn2025` | liturgicalCalendar.js:53-56 | the first Sunday of Advent 2025 is 30 November |
| `Dates.DayNumberInjective` | liturgicalCalendar.js:26-30 | two valid dates are equal exactly when their day numbers are |
| `Dates.FromDayNumberOfDate` | liturgicalCalendar.js:20-24 | decoding a date's day number gives the date back |
| `Dates.YearStartClosedForm` | liturgicalCalendar.js:20-24 | 1 January of year y is 365(y-1) + (y-1)/4 - (y-1)/100 + (y-1)/400 days after 1 January of year 1 |
| `LiturgicalCalendar.ColorKey` | liturgicalCalendar.js:33-41 | every colour a descriptor carries is a key of `LITURGICAL_COLORS`, and never empty |
| `LiturgicalCalendar.ColorKeyInjective` | liturgicalCalendar.js:33-41 | distinct colours have distinct keys |
| `LiturgicalCalendar.FixedFeasts` | liturgicalCalendar.js:124-139 | `getFixedFeasts(year)` has twelve entries, all valid dates of that year, on the twelve fixed-feast days |
| `LiturgicalCalendar.FixedFeastsTable` | liturgicalCalendar.js:124-139 | the twelve dates are pairwise distinct, and each feast is white, red or black |
| `LiturgicalCalendar.FeastOn` | liturgicalCalendar.js:79-81 | the scan finds the first entry of the list on the same day (no earlier entry is on it), and finds none exactly when no entry is on that day |
| `LiturgicalCalendar.FeastDescriptor` | liturgicalCalendar.js:80 | a found feast gives its name and rank with no season, and its colour, with `blanc` only when the colour's key is empty |
| `LiturgicalCalendar.Epiphany` | liturgicalCalendar.js:109-116 | the Epiphany is the one Sunday among 2 .. 8 January of the year |
| `LiturgicalCalendar.SundayInFirstWeek` | liturgicalCalendar.js:109-116 | the closed-form day is in 2 .. 8 January, is a Sunday, and no other day of 2 .. 8 January is |
| `LiturgicalCalendar.GetEpiphany` | liturgicalCalendar.js:109-116 | the scan of 2 .. 8 January returns the Epiphany Sunday; the 6 January fallback is never reached |
| `LiturgicalCalendar.MakeDate` | liturgicalCalendar.js:56 | `new Date(year, month - 1, day)` counts an out-of-month day on from the first of the month, and is the plain date when the day exists |
| `LiturgicalCalendar.AdventStart` | liturgicalCalendar.js:53-56 | the first Sunday of Advent is a Sunday 22 .. 28 days before Christmas, 28 exactly when Christmas is a Sunday |
| `LiturgicalCalendar.SundayBefore` | liturgicalCalendar.js:54-56 | stepping back by the weekday (7 for a Sunday) and 21 days lands on a Sunday 22 .. 28 days earlier |
| `LiturgicalCalendar.SundayOfAdvent` | liturgicalCalendar.js:118-122 | from adventStart on, the label is one of the four ordinals followed by " dimanche de l'Avent" |
| `LiturgicalCalendar.YearLandmarks` | liturgicalCalendar.js:45-75 | the year's landmarks are all valid dates |
| `LiturgicalCalendar.SeasonOf` | liturgicalCalendar.js:79-106 | the descriptor has an empty season exactly when a fixed feast decided it, and every other rule gives violet, white, red or green |
| `LiturgicalCalendar.LiturgicalSeason` | liturgicalCalendar.js:44-106 | a date's descriptor has an empty season exactly when the fixed-feast scan finds a feast on it |
| `LiturgicalCalendar.ResolveSeason` | liturgicalCalendar.js:79-106 | the scan and the rules in the source's order give the descriptor of the first matching rule |
| `LiturgicalCalendar.GetLiturgicalSeason` | liturgicalCalendar.js:44-107 | `getLiturgicalSeason(date)` returns the descriptor that `LiturgicalSeason` assigns, for every valid date |
| `SeasonProperties.FixedFeastDays` | liturgicalCalendar.js:79-81 | the feast scan matches a date exactly when its month and day are those of one of the twelve feasts |
| `SeasonProperties.FeastOnOwnDate` | liturgicalCalendar.js:79-81 | on each feast's date the scan finds that very feast |
| `SeasonProperties.FixedFeastWins` | liturgicalCalendar.js:79-81 | each fixed feast's date resolves to that feast, whatever movable day or range it is also in |
| `SeasonProperties.ChristmasIsNativity` | liturgicalCalendar.js:137 | 25 December is the Nativity, never the Christmas-season range |
| `SeasonProperties.AnnunciationIsShown` | liturgicalCalendar.js:130 | 25 March is the Annunciation, even when it is a movable day of Holy Week or Easter Sunday |
| `SeasonProperties.GoodFridayOnAnnunciation` | liturgicalCalendar.js:71 | when Easter is 27 March, Good Friday is 25 March and shows the Annunciation |
| `SeasonProperties.BoundariesInOrder` | liturgicalCalendar.js:46-75 | 1 January, Epiphany, Ash Wednesday, Easter, Pentecost, the first Sunday of Advent and Christmas come in strictly increasing order |
| `SeasonProperties.NoFixedFeast` | liturgicalCalendar.js:124-139 | a date whose day number avoids the twelve feasts' day numbers is no fixed-feast day |
| `SeasonProperties.AshWednesdayIsNamed` | liturgicalCalendar.js:83 | Ash Wednesday, 46 days before Easter, is a Wednesday and shows as Ash Wednesday, Lent, violet |
| `SeasonProperties.HolyThursdayIsNamed` | liturgicalCalendar.js:84 | Holy Thursday shows as such, white, unless it is 19 or 25 March |
| `SeasonProperties.GoodFridayIsNamed` | liturgicalCalendar.js:85 | Good Friday lies in Lent's range yet shows as Good Friday, red, unless it is 25 March |
| `SeasonProperties.HolySaturdayIsNamed` | liturgicalCalendar.js:86 | Holy Saturday shows as such, violet, unless it is 25 March |
| `SeasonProperties.EasterSundayIsNamed` | liturgicalCalendar.js:87 | Easter Sunday shows as "Dimanche de Pâques", not as the Eastertide range, unless it is 25 March |
| `SeasonProperties.PentecostIsNamed` | liturgicalCalendar.js:88 | Pentecost, 49 days after Easter, is a Sunday and shows as Pentecost, red |
| `SeasonProperties.AdventStartWindow` | liturgicalCalendar.js:53-56 | the first Sunday of Advent is in 27 November .. 3 December of the year, and on 27 November exactly when Christmas is a Sunday |
| `SeasonProperties.SundayOfAdventWeeks` | liturgicalCalendar.js:118-122 | the label counts whole weeks from the start, with the first three weeks named by their ordinal and every later week by "4e" |
| `SeasonProperties.SundayOfAdventBefore` | liturgicalCalendar.js:118-122 | before the start the ordinal is missing, which JavaScript renders as "undefined" |
| `SeasonProperties.AdventWeekLabel` | liturgicalCalendar.js:90-91 | every day from the first Sunday of Advent to 24 December, except 8 December, is Advent in violet, in week 0 .. 3 with that week's ordinal |
| `SeasonProperties.AdventSundays` | liturgicalCalendar.js:90-91 | the j-th Sunday of Advent is a Sunday labelled with the j-th ordinal, unless it is 8 December |
| `SeasonProperties.FirstSundayOfAdvent` | liturgicalCalendar.js:90-91 | the first Sunday of Advent is "1er dimanche de l'Avent", violet |
| `SeasonProperties.ChristmasWeek` | liturgicalCalendar.js:93-94 | 26 .. 31 December are the Christmas season, white |
| `SeasonProperties.OctaveBeforeEpiphany` | liturgicalCalendar.js:96-97 | 2 January to the eve of the Epiphany Sunday, except 6 January, is the Octave of Christmas, white |
| `SeasonProperties.LentWeekday` | liturgicalCalendar.js:99-100 | the days after Ash Wednesday and before Holy Thursday are plain Lent, violet, except 19 and 25 March |
| `SeasonProperties.EastertideDay` | liturgicalCalendar.js:102-103 | the days after Easter Sunday and before Pentecost are Eastertide, white, except 25 March |
| `SeasonProperties.OrdinaryTimeDay` | liturgicalCalendar.js:105-106 | from the Epiphany Sunday to the eve of Ash Wednesday and from the day after Pentecost to the eve of Advent, a day with no fixed feast is Ordinary Time, green |
| `SeasonProperties.EpiphanySundayShown` | liturgicalCalendar.js:96-106 | the Epiphany Sunday shows as the Epiphany when it is 6 January, and as Ordinary Time otherwise |
| `SeasonProperties.FeastColor` | liturgicalCalendar.js:79-81 | a fixed-feast day's descriptor is white, red or black |
| `SeasonProperties.NeverRoseOrGold` | liturgicalCalendar.js:33-41 | no date's descriptor is rose or gold |

## Left out

- `App.jsx`, the user interface, is not part of this model.
- The `hex`, `label` and `meaning` strings of `LITURGICAL_COLORS`, and the
  display tables `MONTHS_FR` and `DAYS_FR`, are left out. Only the seven
  colour keys are modelled.
- `easterPrev`, `adventStartPrev`, `baptism`, `ashWednesdayPrev` and
  `pentecostPrev` are computed but never used, so they cannot change the
  result; the model leaves them out. The second call of `getEpiphany` on
  line 96 gives the same value as the first, so the model computes it once.
- Time of day, time zones and daylight saving time are left out: a date is a
  calendar day. In the source, `date <= new Date(year, 11, 31)` is false for
  31 December at any time after midnight, and that date falls through to
  Ordinary Time. The model has no time of day and gives the Christmas
  season.
- Years before 1 are not modelled (every date requires year >= 1).
  `new Date(y, m, d)` maps years 0 .. 99 to 1900 .. 1999. The model treats
  years 1 .. 99 as themselves.
- JavaScript's `%` is modelled only for non-negative dividends, which are
  all that `getEaster` produces from year 1 on.
- The range limit of JavaScript dates (about year 275760) is left out;
  integers are unbounded.
- A fixed feast's descriptor keeps the feast's name, colour and rank.
  The model leaves out the extra `date` field the spread copies, and
  stands the missing `season` by the empty string.
- The `|| 'blanc'` default of line 80 never takes effect: every colour has
  a non-empty key (`LiturgicalCalendar.ColorKey`,
  `LiturgicalCalendar.FeastDescriptor`).
- `getSundayOfAdvent` with a negative week count is modelled: it gives
  "undefined dimanche de l'Avent". `getLiturgicalSeason` never calls it so.

# Meal planner: a Dafny model

The meal planner is a single-page app. It keeps a catalog of foods in four
lists (breakfast, lunch, supper, fruits) and builds a plan for the current
month: every day gets one breakfast, one lunch, one supper and one fruit. Each
pick is an index into its list, computed by a seeded pseudo-random function of
the date, so the same month and catalog always give the same plan. The page
shows today's meals and a calendar grid. The grid starts with padding cells up
to the weekday of the first of the month, then has one cell per day with that
day's meals. Today's cell is highlighted. The user can add a food to a list
(after trimming the name) and remove a food from a list.

The model has five modules:

- `Wrappers` (`wrappers.dfy`) holds the `Option` type, whose `None` stands for
  JavaScript's `undefined` and `null`.
- `Calendar` (`calendar.dfy`) is the part of the ECMAScript `Date` object the
  app relies on (section 21.4 of ECMA-262). It covers the Gregorian leap-year
  rule, day numbers counted from 1 January 1970 (`DayFromYear`, `MakeDay`) and
  `WeekDay`. It also covers the constructor's rule that reads years 0..99 as
  1900..1999 (`DateYear`). On top of these sit `DaysInMonth`
  (`new Date(year, month + 1, 0).getDate()`) and `FirstWeekDay`
  (`new Date(year, month, 1).getDay()`).
- `Foods` (`foods.dfy`) holds the catalog, the default catalog,
  `String.prototype.trim` and the two edits `AddFood` and `RemoveFood`. An edit
  returns a new catalog snapshot, as the source does with `setFoods`.
- `MealPlan` (`meal_plan.dfy`) holds the day seed, the index picker, the
  loop `GenerateMealPlan` and today's meals.
- `CalendarView` (`calendar_view.dfy`) holds `getDaysInMonth`, the
  current-month test and the grid of cells with the "today" highlight.

The seeded random function is a parameter. A `SeededRandom` is any function
from integer seeds to reals in [0, 1). The plan is stated for any `Picker`,
meaning any function from a seed and a length to an index below that length.
`IndexPicker` builds the app's picker, `floor(random(seed) * length)`, from a
`SeededRandom`, and proves that it is a `Picker`.

The clock is also a parameter. `shown` is the date read when the app starts
(`currentDate`), and `now` is the date read again while rendering
(`new Date()`).

Where the source reads past the end of an empty list, JavaScript yields
`undefined`. The model gives `None` there; it does not require the lists to
be non-empty.

`removeFood` filters the list with `item !== foodToRemove`, so it removes
every copy of the name, not only the first. The model follows the code:
`RemoveFood` removes all copies, and `Foods.WithoutCounts` states this.

## Model

| member | source | states |
|---|---|---|
| Calendar.DaysInYear | src/App.jsx:60 | a year has 366 days exactly when it is a Gregorian leap year, else 365 |
| Calendar.MonthLength | src/App.jsx:60 | months have 28 to 31 days; February has 29 exactly in leap years; April, June, September and November have 30; the rest have 31 |
| Calendar.DayZeroIsLastDay | src/App.jsx:60 | day 0 of month m + 1 is the last day of month m, also when m is December and month 12 carries into the next year |
| Calendar.DaysInMonthIsDateOfDayZero | src/App.jsx:60 | whatever valid date `new Date(year, month + 1, 0)` denotes is the last day of `month` in the year the constructor reads, so `getDate()` returns DaysInMonth |
| Calendar.DateOfDayNumberUnique | src/App.jsx:60 | two valid dates with the same day number are equal, so the date read back from a day number is unique |
| Calendar.DayWithinYear | src/App.jsx:60 | a valid date's day number lies between the first day of its year and the first day of the next year |
| Calendar.DayFromNextYear | src/App.jsx:60 | the first days of consecutive years are DaysInYear apart |
| Calendar.DayFromYearMonotone | src/App.jsx:60 | years occupy increasing, disjoint ranges of day numbers |
| Calendar.YearOfDayNumber | src/App.jsx:60 | a day number lies in the range of at most one year |
| Calendar.SameYear | src/App.jsx:60 | two valid dates with the same day number are in the same year |
| Calendar.SameMonth | src/App.jsx:60 | two valid dates of one year at the same offset in the year are in the same month |
| Calendar.MonthStartsIncrease | src/App.jsx:60 | a later month of the year starts after an earlier month ends |
| Calendar.MonthStartStep | src/App.jsx:60 | each month starts where the previous one ends |
| Calendar.LastMonthEndsYear | src/App.jsx:60 | December ends on the last day of the year |
| Calendar.NextMonthStart | src/App.jsx:122-123 | the first of the next month is MonthLength days after the first of this month |
| Calendar.DayFromYear | src/App.jsx:60 | day number 0 is 1 January 1970 |
| Calendar.MakeDay | src/App.jsx:60 | months 12..23 carry into the next year: month m is month m - 12 of year y + 1 |
| Calendar.MakeDayInYear | src/App.jsx:60 | for months 0..11, MakeDay counts from the first day of the year |
| Calendar.DateYear | src/App.jsx:60 | the constructor reads years 0..99 as 1900..1999 and keeps every other year |
| Calendar.DateYearMonthLength | src/App.jsx:60 | the two-digit-year rule changes a month's length exactly for February of year 0 |
| Calendar.DaysInMonth | src/App.jsx:60 | a month of the plan has 28 to 31 days |
| Calendar.FirstWeekDay | src/App.jsx:122 | the weekday of the first of the month is in 0..6 |
| Calendar.FirstWeekDayOfNextMonth | src/App.jsx:122-123 | within a year, the next month's grid starts (firstDay + daysInMonth) mod 7 |
| Calendar.FirstWeekDayOfNextYear | src/App.jsx:122-123 | January's grid continues December's, except for years -1 and 99, where the two-digit-year rule moves one of the years |
| Calendar.WeekDay | src/App.jsx:122 | a weekday is in 0..6 |
| Calendar.WeekDayAdd | src/App.jsx:122 | moving k days ahead moves the weekday k places, mod 7 |
| Calendar.January2024IsMonday | src/App.jsx:122 | 1 January 2024 falls on a Monday (weekday 1) |
| Calendar.FebruaryAnchors | src/App.jsx:60 | February has 29 days in 2024 and 2000 and 28 in 1900 |
| Foods.With | src/App.jsx:98-101 | the spread update replaces the named list and keeps the other three |
| Foods.DefaultFoodsWellFormed | src/App.jsx:5-41 | every default list has at least six names and no repeated name |
| Foods.InitialFoods | src/App.jsx:43-47 | a stored catalog is used as it is; with nothing stored, the catalog is the default one and every list starts with at least six distinct names |
| Foods.TrimStart | src/App.jsx:95 | the result is a suffix of the name; what was dropped is white space; the result does not start with white space |
| Foods.TrimEnd | src/App.jsx:95 | the result is a prefix; what was dropped is white space; the result does not end with white space |
| Foods.Trim | src/App.jsx:95 | the trimmed name is a slice s[i..j] of the name whose cut-off ends s[..i] and s[j..] are all white space, and it neither starts nor ends with white space |
| Foods.SliceBetweenBlanks | src/App.jsx:95 | cutting a white-space prefix and then a white-space suffix keeps a middle slice with white space on both sides |
| Foods.WhiteSpaceCases | src/App.jsx:95 | space, tab, line feed, carriage return and no-break space are white space; U+180E and the zero-width space U+200B are not |
| Foods.TrimEmptyIffBlank | src/App.jsx:95-97 | a name trims to the empty string exactly when it is all white space, so only such names are rejected |
| Foods.TrimIdempotent | src/App.jsx:95 | trimming a trimmed name changes nothing |
| Foods.AddFood | src/App.jsx:94-108 | a blank name changes neither the catalog nor the form; otherwise the trimmed name is appended to the chosen list and the name field is cleared; the other lists are unchanged |
| Foods.Without | src/App.jsx:112 | the filtered list lacks the name and keeps exactly the other names of the list |
| Foods.WithoutConcat | src/App.jsx:112 | filtering distributes over concatenation, so the kept items keep their order |
| Foods.WithoutCounts | src/App.jsx:112 | every copy of the name goes and every other name keeps its multiplicity |
| Foods.WithoutAbsent | src/App.jsx:112 | filtering out a name that is not in the list returns the list |
| Foods.RemoveFood | src/App.jsx:109-117 | the new list is the old one filtered by Without, so the names that stay keep their order (WithoutConcat); the name is gone, every other name keeps its count, and the other lists are unchanged |
| Foods.RemoveAbsentIsNoOp | src/App.jsx:109-117 | removing a name that is not in the list leaves the catalog as it was |
| Foods.AddThenRemove | src/App.jsx:94-117 | adding a name that is new to its list and then removing it gives back the catalog |
| MealPlan.ScaledIndex | src/App.jsx:65-70 | the result is the floor of r * length: an index of a non-empty list for r in [0, 1), and 0 for an empty one |
| MealPlan.IndexPicker | src/App.jsx:52-55 | the app's picker returns the floor of the seeded random value times the length, and is a Picker: an index below any positive length |
| MealPlan.IndexPickerScales | src/App.jsx:65-70 | the app's picker at a seed and a length is ScaledIndex of that seed's random value |
| MealPlan.AppPicks | src/App.jsx:64-77 | with the app's picker, a day's meal from a non-empty list is the item at `floor(seededRandom(seed * factor) * length)`, an item of the list; an empty list gives None |
| MealPlan.PickedAt | src/App.jsx:64-77 | with any picker, a planned day's meal is the list's item at the index picked from the day's seed times the list's factor |
| MealPlan.ScaledBelowLength | src/App.jsx:52-55 | a fraction in [0, 1) scaled by a positive length stays in [0, length) |
| MealPlan.SeedDigits | src/App.jsx:64 | the seed of a date of a real month spells the date in decimal: year, then two digits for the month and two for the day |
| MealPlan.SeedInjective | src/App.jsx:64 | different dates of real months get different seeds |
| MealPlan.Multiplier | src/App.jsx:65-70 | each list scales the seed by a factor from 1 to 4 |
| MealPlan.MultipliersDistinct | src/App.jsx:65-70 | the four lists use four different factors |
| MealPlan.ItemAtBounds | src/App.jsx:73-76 | reading a list outside its bounds gives None (`undefined`) and reading inside gives the item there |
| MealPlan.PickFor | src/App.jsx:65-76 | a list's pick is None exactly when the list is empty, and otherwise an item of the list |
| MealPlan.DayPlanFor | src/App.jsx:72-77 | each meal of the day plan is the pick from its own list |
| MealPlan.PlanThrough | src/App.jsx:63 | the plan of days 1 to last has a key for exactly those days |
| MealPlan.MonthPlan | src/App.jsx:57-82 | the month's plan has a key for exactly the days 1..DaysInMonth |
| MealPlan.GenerateMealPlan | src/App.jsx:57-82 | the loop's plan has a key for exactly the days 1..DaysInMonth and equals MonthPlan |
| MealPlan.ExtendPlan | src/App.jsx:63-78 | one loop step turns the plan of days 1..last into the plan of days 1..last + 1 |
| MealPlan.MonthPlanCoversMonth | src/App.jsx:57-82 | a day is a key exactly when it lies in 1..DaysInMonth, and its entry is that day's picks |
| MealPlan.PicksComeFromLists | src/App.jsx:65-77 | every pick from a non-empty list is an item of that list; an empty list gives None on every day |
| MealPlan.CategoriesIndependent | src/App.jsx:65-77 | a meal's picks depend only on its own list; two catalogs that agree on it give the same picks every day |
| MealPlan.LunchEditKeepsOtherMeals | src/App.jsx:84-90 | after the lunch list changes, the recomputed plan keeps every day's breakfast, supper and fruit |
| MealPlan.SingleItemEveryDay | src/App.jsx:65-77 | a list with one item puts it on every day |
| MealPlan.PickByPosition | src/App.jsx:65-77 | on any day, two lists of the same length are read at the same index |
| MealPlan.SwapChangesPick | src/App.jsx:65-77 | swapping two different items of a two-item list changes the day's pick |
| MealPlan.January2024Example | src/App.jsx:57-82 | for January 2024 every day 1..31 is planned, single-item lists give their item, and the others give one of their items |
| MealPlan.TodaysMeals | src/App.jsx:92 | today's meals are present exactly when the plan has an entry for today's date, and are that entry |
| MealPlan.TodaysMealsPresent | src/App.jsx:84-92 | for a real date, the plan of its month holds its meals unless the date is 29 February of year 0; the meals are that day's picks |
| CalendarView.GetDaysInMonth | src/App.jsx:119-125 | the first weekday is in 0..6 and the month has 28 to 31 days |
| CalendarView.CellAt | src/App.jsx:380-388 | cell i is padding below firstDay and otherwise the cell of day i - firstDay + 1 with its plan entry and highlight |
| CalendarView.IsCurrentMonth | src/App.jsx:134-136 | when the clock reads the shown month and year, a real date on the clock is a day of the shown month |
| CalendarView.Cells | src/App.jsx:380-388 | the grid has firstDay + daysInMonth cells, and a cell is padding exactly when it comes before firstDay |
| CalendarView.DayCellMeals | src/App.jsx:385-387 | a day cell shows the plan's entry for its own day |
| CalendarView.Render | src/App.jsx:127-136 | the rendered grid has FirstWeekDay + DaysInMonth cells |
| CalendarView.TodaysMealsInGrid | src/App.jsx:84-92 | the "today" panel has meals exactly when the shown date's day lies in 1..DaysInMonth; they are that day's picks and the meals of that day's grid cell |
| CalendarView.GridLayout | src/App.jsx:380-387 | the grid has FirstWeekDay padding cells and then one cell per day 1..DaysInMonth, in order |
| CalendarView.GridMeals | src/App.jsx:385-387 | each day cell shows that day's plan, never a missing entry |
| CalendarView.TodayHighlight | src/App.jsx:133-136 | a cell is highlighted exactly when it is a day cell, the clock's month and year are the shown ones, and its day is the clock's date |
| CalendarView.AtMostOneToday | src/App.jsx:388 | at most one cell is highlighted |
| CalendarView.TodayShown | src/App.jsx:133-136 | when the clock reads a valid date of the shown month, that date's cell is highlighted (29 February of year 0 excepted) |

## Left out

- `src/supabaseClient.js` is not part of this model; the app never calls it in the code modelled here.
- Persistence: `localStorage` and JSON are left out. `InitialFoods` takes the stored catalog as an optional parameter, and the edits return the new catalog rather than writing it.
- A stored catalog is assumed to hold all four lists; a stored object missing one is not modelled.
- The seeded random function (`Math.sin(seed) * 10000`, fractional part) is not computed: floating point is out of scope. The plan is proved for any function into [0, 1), and for any index picker.
- MealPlan.ScaledIndex: computes `r * length` in exact real arithmetic; the rounding of the floating-point product is not modelled.
- React rendering, JSX markup, the add-food form's visibility toggle and `toLocaleDateString` are left out; the view is a list of cells.
- The app reads the clock three times while rendering (`new Date()` for today's date, month and year); the model reads it once as `now`. With a clock that does not go backwards this gives the same grid, except across a midnight at the end of a month, which is not modelled.
- JavaScript strings are sequences of UTF-16 code units; a name is a sequence of Dafny `char`s, so a lone surrogate in a name is not modelled.
- The wall clock (`new Date()`) is a parameter (`shown`, `now`); time zones, daylight saving and the `Date` range limit of ±8.64e15 ms are not modelled.
- Months outside 0..11 are not passed to the plan: the app only passes `getMonth()`, so `MonthPlan` and `GetDaysInMonth` require a month in 0..11.
- React's memoisation (`useMemo`, `useCallback`) is left out: the plan is a function of year, month and catalog, which is what the memoisation relies on.

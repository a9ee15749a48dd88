/**
 * The month view: the weekday the month starts on, the grid of padding and
 * day cells, the "today" highlight and the meals shown in each cell.
 *
 * The wall clock is a parameter: `shown` is the date the app read when it
 * started, `now` the date read again while rendering.
 */
module CalendarView {
  import opened Wrappers
  import opened Foods
  import opened Calendar
  import opened MealPlan

  /** `getDaysInMonth()`: the weekday of the first and the number of days. */
  datatype MonthShape = MonthShape(firstDay: int, daysInMonth: int)

  function GetDaysInMonth(shown: CivilDate): (s: MonthShape)
    requires 0 <= shown.month < 12
    ensures 0 <= s.firstDay < 7
    ensures 28 <= s.daysInMonth <= 31
  {
    MonthShape(FirstWeekDay(shown.year, shown.month), DaysInMonth(shown.year, shown.month))
  }

  /**
   * `isCurrentMonth`: the clock reads the same month of the same year as the
   * shown date, so a real date on the clock is a day of the shown month.
   */
  predicate IsCurrentMonth(now: CivilDate, shown: CivilDate): (b: bool)
    ensures b && IsValidDate(now) ==> 0 <= shown.month < 12 && 1 <= now.day <= MonthLength(shown.year, shown.month)
  {
    now.month == shown.month && now.year == shown.year
  }

  /** A grid cell: an empty padding cell, or a day with its meals and highlight. */
  datatype Cell = Padding | DayCell(day: int, meals: Option<DayPlan>, isToday: bool)

  /**
   * The grid: `firstDay` padding cells, then one cell per day 1..daysInMonth
   * showing `mealPlan[day]`, highlighted when `isCurrentMonth && day === today`.
   */
  function Cells(firstDay: nat, daysInMonth: nat, plan: map<int, DayPlan>,
                 isCurrentMonth: bool, today: int): (cells: seq<Cell>)
    ensures |cells| == firstDay + daysInMonth
    ensures forall i :: 0 <= i < |cells| ==> (cells[i] == Padding <==> i < firstDay)
  {
    seq(firstDay, _ => Padding)
      + seq(daysInMonth, i => DayCell(i + 1, if i + 1 in plan then Some(plan[i + 1]) else None,
                                      isCurrentMonth && i + 1 == today))
  }

  lemma CellAt(firstDay: nat, daysInMonth: nat, plan: map<int, DayPlan>,
                isCurrentMonth: bool, today: int, i: int)
    requires 0 <= i < firstDay + daysInMonth
    ensures |Cells(firstDay, daysInMonth, plan, isCurrentMonth, today)| == firstDay + daysInMonth
    ensures Cells(firstDay, daysInMonth, plan, isCurrentMonth, today)[i] ==
      if i < firstDay then Padding
      else DayCell(i - firstDay + 1, if i - firstDay + 1 in plan then Some(plan[i - firstDay + 1]) else None,
                   isCurrentMonth && i - firstDay + 1 == today)
  {
  }

  /** A day cell shows the plan's entry for its day. */
  lemma DayCellMeals(firstDay: nat, daysInMonth: nat, plan: map<int, DayPlan>,
                     isCurrentMonth: bool, today: int, i: int)
    requires firstDay <= i < firstDay + daysInMonth
    requires i - firstDay + 1 in plan
    ensures Cells(firstDay, daysInMonth, plan, isCurrentMonth, today)[i].meals == Some(plan[i - firstDay + 1])
  {
    CellAt(firstDay, daysInMonth, plan, isCurrentMonth, today, i);
  }

  /** What the page shows for a month: today's meals and the grid. */
  datatype View = View(todaysMeals: Option<DayPlan>, cells: seq<Cell>)

  function Render(shown: CivilDate, now: CivilDate, foods: Catalog, pick: Picker): (v: View)
    requires 0 <= shown.month < 12
    ensures |v.cells| == FirstWeekDay(shown.year, shown.month) + DaysInMonth(shown.year, shown.month)
  {
    var shape := GetDaysInMonth(shown);
    var plan := MonthPlan(shown.year, shown.month, foods, pick);
    View(TodaysMeals(plan, shown),
         Cells(shape.firstDay, shape.daysInMonth, plan, IsCurrentMonth(now, shown), now.day))
  }

  // ---------------------------------------------------------------------
  // Properties of the view

  lemma RenderCells(shown: CivilDate, now: CivilDate, foods: Catalog, pick: Picker)
    requires 0 <= shown.month < 12
    ensures Render(shown, now, foods, pick).cells ==
      Cells(FirstWeekDay(shown.year, shown.month), DaysInMonth(shown.year, shown.month),
            MonthPlan(shown.year, shown.month, foods, pick), IsCurrentMonth(now, shown), now.day)
  {
  }

  /**
   * The "today" panel shows meals exactly when the shown date's day has a
   * cell in the grid, and they are the meals of that cell.
   */
  lemma TodaysMealsInGrid(shown: CivilDate, now: CivilDate, foods: Catalog, pick: Picker)
    requires 0 <= shown.month < 12
    ensures var v := Render(shown, now, foods, pick);
      var i := FirstWeekDay(shown.year, shown.month) + shown.day - 1;
      && (v.todaysMeals.Some? <==> 1 <= shown.day <= DaysInMonth(shown.year, shown.month))
      && (v.todaysMeals.Some? ==>
            && v.todaysMeals.value == DayPlanFor(shown.year, shown.month, shown.day, foods, pick)
            && 0 <= i < |v.cells| && v.cells[i].DayCell? && v.cells[i].meals == v.todaysMeals)
  {
    MonthPlanCoversMonth(shown.year, shown.month, foods, pick, shown.day);
    var i := FirstWeekDay(shown.year, shown.month) + shown.day - 1;
    if 1 <= shown.day <= DaysInMonth(shown.year, shown.month) {
      GridLayout(shown, now, foods, pick, i);
      GridMeals(shown, now, foods, pick, i);
    }
  }

  /** The grid is FirstWeekDay padding cells followed by one cell per day of the month. */
  lemma GridLayout(shown: CivilDate, now: CivilDate, foods: Catalog, pick: Picker, i: int)
    requires 0 <= shown.month < 12
    requires 0 <= i < |Render(shown, now, foods, pick).cells|
    ensures var cells := Render(shown, now, foods, pick).cells;
      var firstDay := FirstWeekDay(shown.year, shown.month);
      && |cells| == firstDay + DaysInMonth(shown.year, shown.month)
      && (cells[i] == Padding <==> i < firstDay)
      && (i >= firstDay ==> cells[i].day == i - firstDay + 1)
  {
    var firstDay := FirstWeekDay(shown.year, shown.month);
    RenderCells(shown, now, foods, pick);
    CellAt(firstDay, DaysInMonth(shown.year, shown.month),
           MonthPlan(shown.year, shown.month, foods, pick), IsCurrentMonth(now, shown), now.day, i);
  }

  /** Each day cell shows that day's plan, never an undefined entry. */
  lemma GridMeals(shown: CivilDate, now: CivilDate, foods: Catalog, pick: Picker, i: int)
    requires 0 <= shown.month < 12
    requires FirstWeekDay(shown.year, shown.month) <= i < |Render(shown, now, foods, pick).cells|
    ensures var day := i - FirstWeekDay(shown.year, shown.month) + 1;
      Render(shown, now, foods, pick).cells[i].meals == Some(DayPlanFor(shown.year, shown.month, day, foods, pick))
  {
    var firstDay, daysInMonth := FirstWeekDay(shown.year, shown.month), DaysInMonth(shown.year, shown.month);
    var plan := MonthPlan(shown.year, shown.month, foods, pick);
    RenderCells(shown, now, foods, pick);
    MonthPlanCoversMonth(shown.year, shown.month, foods, pick, i - firstDay + 1);
    DayCellMeals(firstDay, daysInMonth, plan, IsCurrentMonth(now, shown), now.day, i);
  }

  /**
   * A cell is highlighted exactly when it is a day cell, the clock reads the
   * shown month and year, and the cell's day is the clock's date.
   */
  lemma TodayHighlight(shown: CivilDate, now: CivilDate, foods: Catalog, pick: Picker, i: int)
    requires 0 <= shown.month < 12
    requires 0 <= i < |Render(shown, now, foods, pick).cells|
    ensures var cell := Render(shown, now, foods, pick).cells[i];
      (cell.DayCell? && cell.isToday) <==>
        (cell.DayCell? && now.year == shown.year && now.month == shown.month && cell.day == now.day)
  {
  }

  /** At most one cell is highlighted. */
  lemma AtMostOneToday(shown: CivilDate, now: CivilDate, foods: Catalog, pick: Picker, i: int, j: int)
    requires 0 <= shown.month < 12
    requires 0 <= i < j < |Render(shown, now, foods, pick).cells|
    ensures var cells := Render(shown, now, foods, pick).cells;
      !(cells[i].DayCell? && cells[i].isToday && cells[j].DayCell? && cells[j].isToday)
  {
    var firstDay := FirstWeekDay(shown.year, shown.month);
    GridLayout(shown, now, foods, pick, i);
    GridLayout(shown, now, foods, pick, j);
  }

  /**
   * When the clock reads a day of the shown month, that day's cell is
   * highlighted (except on the one date the constructor's two-digit-year
   * rule drops, 29 February of year 0).
   */
  lemma TodayShown(shown: CivilDate, now: CivilDate, foods: Catalog, pick: Picker)
    requires 0 <= shown.month < 12
    requires IsValidDate(now) && IsCurrentMonth(now, shown)
    requires !(now.year == 0 && now.month == 1 && now.day == 29)
    ensures var cells := Render(shown, now, foods, pick).cells;
      var i := FirstWeekDay(shown.year, shown.month) + now.day - 1;
      && 0 <= i < |cells|
      && cells[i].DayCell? && cells[i].isToday && cells[i].day == now.day
  {
    DateYearMonthLength(now.year, now.month);
    if now.year == 0 && now.month == 1 {
      assert !IsLeapYear(1900) && IsLeapYear(0);
    }
    var i := FirstWeekDay(shown.year, shown.month) + now.day - 1;
    GridLayout(shown, now, foods, pick, i);
  }
}

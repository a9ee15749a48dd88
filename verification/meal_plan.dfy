/**
 * The meal-plan generator: for every day of a month, one pick from each of
 * the four food lists, chosen by a seeded pseudo-random index.
 *
 * The seeded random function (the fractional part of `sin(seed) * 10000`,
 * computed in floating point) is not reproduced: the generator takes it as
 * a parameter, any function from seeds to reals in [0, 1).
 */
module MealPlan {
  import opened Wrappers
  import opened Foods
  import opened Calendar

  /** A value of the seeded random function: a real in [0, 1). */
  type Fraction = r: real | 0.0 <= r < 1.0

  /** The seeded random function, from an integer seed to [0, 1). */
  type SeededRandom = int -> Fraction

  /**
   * An index picker: given a seed and a list length, an index of a list of
   * that length whenever the length is positive. The app's picker is
   * `(seed, length) => Math.floor(seededRandom(seed) * length)`, see
   * IndexPicker below; the plan is stated for any picker.
   */
  type Picker = f: (int, nat) -> int | forall seed: int, length: nat :: length > 0 ==> 0 <= f(seed, length) < length
    witness (seed: int, length: nat) => 0

  /** `Math.floor(r * length)`: an index of a non-empty list, and 0 for an empty one. */
  function ScaledIndex(r: Fraction, length: nat): (i: int)
    ensures i as real <= r * length as real < i as real + 1.0
    ensures length > 0 ==> 0 <= i < length
    ensures length == 0 ==> i == 0
  {
    ScaledBelowLength(r, length);
    (r * length as real).Floor
  }

  lemma ScaledBelowLength(r: Fraction, length: nat)
    ensures 0.0 <= r * length as real
    ensures length > 0 ==> r * length as real < length as real
  {
    var n := length as real;
    if length > 0 {
      assert (1.0 - r) * n > 0.0;
    }
  }

  /** The picker the app uses: scale the seeded random value by the length and round down. */
  function IndexPicker(random: SeededRandom): (p: Picker)
    ensures forall seed: int, length: nat ::
      p(seed, length) as real <= random(seed) * length as real < p(seed, length) as real + 1.0
  {
    var pick := (seed: int, length: nat) => ScaledIndex(random(seed), length);
    forall seed: int, length: nat
      ensures length > 0 ==> 0 <= pick(seed, length) < length
      ensures pick(seed, length) as real <= random(seed) * length as real < pick(seed, length) as real + 1.0
    {
      assert pick(seed, length) == ScaledIndex(random(seed), length);
    }
    pick
  }

  /** The app's picker at a seed and a length is ScaledIndex of the seed's random value. */
  lemma IndexPickerScales(random: SeededRandom, seed: int, length: nat)
    ensures IndexPicker(random)(seed, length) == ScaledIndex(random(seed), length)
  {
  }

  /**
   * One day of the plan. A pick is None where the source reads past the end
   * of an empty list and gets `undefined`.
   */
  datatype DayPlan = DayPlan(
    breakfast: Option<string>,
    lunch: Option<string>,
    supper: Option<string>,
    fruit: Option<string>)

  /** The pick a day plan holds for one list. */
  function Meal(day: DayPlan, category: Category): Option<string> {
    match category
    case Breakfast => day.breakfast
    case Lunch => day.lunch
    case Supper => day.supper
    case Fruits => day.fruit
  }

  /** The seed of a day: `year * 10000 + month * 100 + day`. */
  function Seed(year: int, month: int, day: int): int {
    year * 10000 + month * 100 + day
  }

  /** The seed of a date of a real month spells the date in decimal: year, then two digits each for month and day. */
  lemma SeedDigits(year: int, month: int, day: int)
    requires 0 <= month < 12 && 1 <= day <= 31
    ensures Seed(year, month, day) / 10000 == year
    ensures Seed(year, month, day) % 10000 / 100 == month
    ensures Seed(year, month, day) % 100 == day
  {
    var s, low := Seed(year, month, day), month * 100 + day;
    assert s / 10000 == year && s % 10000 == low by {
      DivMod10000(s, year, low);
    }
    assert low / 100 == month by {
      DivMod100(low, month, day);
    }
    assert s % 100 == day by {
      DivMod100(s, year * 100 + month, day);
    }
  }

  /** Different dates of real months get different seeds. */
  lemma SeedInjective(y1: int, m1: int, d1: int, y2: int, m2: int, d2: int)
    requires 0 <= m1 < 12 && 1 <= d1 <= 31 && 0 <= m2 < 12 && 1 <= d2 <= 31
    requires Seed(y1, m1, d1) == Seed(y2, m2, d2)
    ensures y1 == y2 && m1 == m2 && d1 == d2
  {
    SeedDigits(y1, m1, d1);
    SeedDigits(y2, m2, d2);
  }

  lemma DivMod10000(n: int, q: int, r: int)
    requires 0 <= r < 10000 && n == q * 10000 + r
    ensures n / 10000 == q && n % 10000 == r
  {
  }

  lemma DivMod100(n: int, q: int, r: int)
    requires 0 <= r < 100 && n == q * 100 + r
    ensures n / 100 == q && n % 100 == r
  {
  }

  /** Each list scales the day's seed by its own factor, 1 to 4. */
  function Multiplier(category: Category): (k: int)
    ensures 1 <= k <= 4
  {
    match category
    case Breakfast => 1
    case Lunch => 2
    case Supper => 3
    case Fruits => 4
  }

  /** The four factors are distinct, so the four lists of a day draw from different seeds. */
  lemma MultipliersDistinct(c1: Category, c2: Category)
    requires c1 != c2
    ensures Multiplier(c1) != Multiplier(c2)
  {
  }

  /** `items[i]`: the item at a valid index, and `undefined` (None) at any other. */
  function ItemAt(items: seq<string>, i: int): (m: Option<string>)
  {
    if 0 <= i < |items| then Some(items[i]) else None
  }

  /** Reading outside the list gives `undefined`; reading inside gives the item there. */
  lemma ItemAtBounds(items: seq<string>, i: int)
    ensures ItemAt(items, i).Some? <==> 0 <= i < |items|
    ensures ItemAt(items, i).Some? ==> ItemAt(items, i).value == items[i]
  {
  }

  /**
   * One list's pick for a day: the item at the index picked from the day's
   * seed scaled by the list's factor; None exactly when the list is empty.
   */
  function PickFor(year: int, month: int, day: int, category: Category, items: seq<string>,
                   pick: Picker): (m: Option<string>)
    ensures m == None <==> items == []
    ensures m.Some? ==> m.value in items
  {
    ItemAt(items, pick(Seed(year, month, day) * Multiplier(category), |items|))
  }

  /** `plan[day]`: the four picks of one day. */
  function DayPlanFor(year: int, month: int, day: int, foods: Catalog, pick: Picker): (p: DayPlan)
    ensures forall category :: Meal(p, category) == PickFor(year, month, day, category, Get(foods, category), pick)
  {
    DayPlan(
      PickFor(year, month, day, Breakfast, foods.breakfast, pick),
      PickFor(year, month, day, Lunch, foods.lunch, pick),
      PickFor(year, month, day, Supper, foods.supper, pick),
      PickFor(year, month, day, Fruits, foods.fruits, pick))
  }

  /** The day plans of days 1 to `last`, keyed by the day. */
  function PlanThrough(year: int, month: int, foods: Catalog, pick: Picker, last: int): (plan: map<int, DayPlan>)
    ensures forall day :: day in plan <==> 1 <= day <= last
  {
    map day | 1 <= day <= last :: DayPlanFor(year, month, day, foods, pick)
  }

  /** The plan of a month: one day plan per day of the month, keyed by the day. */
  function MonthPlan(year: int, month: int, foods: Catalog, pick: Picker): (plan: map<int, DayPlan>)
    requires 0 <= month < 12
    ensures forall day :: day in plan <==> 1 <= day <= DaysInMonth(year, month)
  {
    PlanThrough(year, month, foods, pick, DaysInMonth(year, month))
  }

  /** `generateMealPlan`: fills the plan one day at a time. */
  method GenerateMealPlan(year: int, month: int, foods: Catalog, pick: Picker)
    returns (plan: map<int, DayPlan>)
    requires 0 <= month < 12
    ensures forall day :: day in plan <==> 1 <= day <= DaysInMonth(year, month)
    ensures plan == MonthPlan(year, month, foods, pick)
  {
    plan := map[];
    var daysInMonth := DaysInMonth(year, month);
    var day := 1;
    while day <= daysInMonth
      invariant 1 <= day <= daysInMonth + 1
      invariant plan == PlanThrough(year, month, foods, pick, day - 1)
    {
      ExtendPlan(year, month, foods, pick, day - 1);
      plan := plan[day := DayPlanFor(year, month, day, foods, pick)];
      day := day + 1;
    }
  }

  /** Adding the next day to the plan of days 1 to `last` gives the plan of days 1 to `last + 1`. */
  lemma ExtendPlan(year: int, month: int, foods: Catalog, pick: Picker, last: int)
    requires last >= 0
    ensures PlanThrough(year, month, foods, pick, last)[last + 1 := DayPlanFor(year, month, last + 1, foods, pick)]
         == PlanThrough(year, month, foods, pick, last + 1)
  {
    var extended := PlanThrough(year, month, foods, pick, last)[last + 1 := DayPlanFor(year, month, last + 1, foods, pick)];
    assert extended.Keys == PlanThrough(year, month, foods, pick, last + 1).Keys;
  }

  // ---------------------------------------------------------------------
  // Properties of the plan

  /**
   * The plan has an entry for each day 1..DaysInMonth and no other, and the
   * entry of a day is that day's picks.
   */
  lemma MonthPlanCoversMonth(year: int, month: int, foods: Catalog, pick: Picker, day: int)
    requires 0 <= month < 12
    ensures day in MonthPlan(year, month, foods, pick) <==> 1 <= day <= DaysInMonth(year, month)
    ensures day in MonthPlan(year, month, foods, pick) ==>
      MonthPlan(year, month, foods, pick)[day] == DayPlanFor(year, month, day, foods, pick)
  {
  }

  /**
   * Every pick for a non-empty list is an item of that list; an empty list
   * yields `undefined` on every day.
   */
  lemma PicksComeFromLists(year: int, month: int, foods: Catalog, pick: Picker,
                           day: int, category: Category)
    requires 0 <= month < 12
    requires day in MonthPlan(year, month, foods, pick)
    ensures Get(foods, category) != [] ==>
      && Meal(MonthPlan(year, month, foods, pick)[day], category).Some?
      && Meal(MonthPlan(year, month, foods, pick)[day], category).value in Get(foods, category)
    ensures Get(foods, category) == [] ==> Meal(MonthPlan(year, month, foods, pick)[day], category) == None
  {
    var p := MonthPlan(year, month, foods, pick)[day];
    assert Meal(p, category) == PickFor(year, month, day, category, Get(foods, category), pick);
  }

  /**
   * A day's pick for one list depends only on that list: two catalogs that
   * agree on it give the same pick every day, whatever the other lists hold.
   */
  lemma CategoriesIndependent(year: int, month: int, foods: Catalog, foods': Catalog,
                              pick: Picker, category: Category)
    requires 0 <= month < 12
    requires Get(foods, category) == Get(foods', category)
    ensures MonthPlan(year, month, foods, pick).Keys == MonthPlan(year, month, foods', pick).Keys
    ensures forall day :: day in MonthPlan(year, month, foods, pick) ==>
      Meal(MonthPlan(year, month, foods, pick)[day], category)
        == Meal(MonthPlan(year, month, foods', pick)[day], category)
  {
    var plan, plan' := MonthPlan(year, month, foods, pick), MonthPlan(year, month, foods', pick);
    forall day | day in plan
      ensures Meal(plan[day], category) == Meal(plan'[day], category)
    {
      assert Meal(plan[day], category) == PickFor(year, month, day, category, Get(foods, category), pick);
      assert Meal(plan'[day], category) == PickFor(year, month, day, category, Get(foods', category), pick);
    }
  }

  /** Replacing the lunch list changes no day's breakfast, supper or fruit. */
  lemma LunchEditKeepsOtherMeals(year: int, month: int, foods: Catalog, lunch: seq<string>,
                                 pick: Picker, day: int)
    requires 0 <= month < 12
    requires day in MonthPlan(year, month, foods, pick)
    ensures var before, after := MonthPlan(year, month, foods, pick)[day],
                                 MonthPlan(year, month, With(foods, Lunch, lunch), pick)[day];
      && after.breakfast == before.breakfast
      && after.supper == before.supper
      && after.fruit == before.fruit
      && after.lunch == PickFor(year, month, day, Lunch, lunch, pick)
  {
    var edited := With(foods, Lunch, lunch);
    MonthPlanCoversMonth(year, month, foods, pick, day);
    MonthPlanCoversMonth(year, month, edited, pick, day);
  }

  /** A list with a single item puts that item on every day of the month. */
  lemma SingleItemEveryDay(year: int, month: int, foods: Catalog, pick: Picker,
                           category: Category, item: string)
    requires 0 <= month < 12
    requires Get(foods, category) == [item]
    ensures forall day :: day in MonthPlan(year, month, foods, pick) ==>
      Meal(MonthPlan(year, month, foods, pick)[day], category) == Some(item)
  {
    var plan := MonthPlan(year, month, foods, pick);
    forall day | day in plan
      ensures Meal(plan[day], category) == Some(item)
    {
      assert Meal(plan[day], category) == PickFor(year, month, day, category, [item], pick);
    }
  }

  /**
   * Picks go by position, not by name: on any day, two lists of the same
   * length are read at the same index, so swapping two different items
   * swaps the pick.
   */
  lemma PickByPosition(year: int, month: int, day: int, category: Category,
                       items: seq<string>, reordered: seq<string>, pick: Picker)
    requires |items| == |reordered| > 0
    ensures exists i :: (0 <= i < |items|
      && PickFor(year, month, day, category, items, pick) == Some(items[i])
      && PickFor(year, month, day, category, reordered, pick) == Some(reordered[i]))
  {
    var i := pick(Seed(year, month, day) * Multiplier(category), |items|);
    assert PickFor(year, month, day, category, items, pick) == Some(items[i]);
  }

  lemma SwapChangesPick(year: int, month: int, day: int, category: Category,
                        a: string, b: string, pick: Picker)
    requires a != b
    ensures PickFor(year, month, day, category, [a, b], pick) != PickFor(year, month, day, category, [b, a], pick)
  {
    var i := pick(Seed(year, month, day) * Multiplier(category), 2);
    assert PickFor(year, month, day, category, [a, b], pick) == Some([a, b][i]);
    assert PickFor(year, month, day, category, [b, a], pick) == Some([b, a][i]);
  }

  /**
   * A catalog with one lunch and one supper, planned for January 2024: every
   * day gets that lunch and that supper, a breakfast from its two items and
   * a fruit from its three.
   */
  lemma January2024Example(pick: Picker, day: int)
    requires 1 <= day <= 31
    ensures var foods := Catalog(["A", "B"], ["C"], ["D"], ["E", "F", "G"]);
      var plan := MonthPlan(2024, 0, foods, pick);
      && day in plan
      && plan[day].lunch == Some("C") && plan[day].supper == Some("D")
      && plan[day].breakfast in {Some("A"), Some("B")}
      && plan[day].fruit in {Some("E"), Some("F"), Some("G")}
  {
    var foods := Catalog(["A", "B"], ["C"], ["D"], ["E", "F", "G"]);
    var plan := MonthPlan(2024, 0, foods, pick);
    assert DaysInMonth(2024, 0) == 31;
    SingleItemEveryDay(2024, 0, foods, pick, Lunch, "C");
    SingleItemEveryDay(2024, 0, foods, pick, Supper, "D");
    PicksComeFromLists(2024, 0, foods, pick, day, Breakfast);
    PicksComeFromLists(2024, 0, foods, pick, day, Fruits);
    assert Meal(plan[day], Lunch) == plan[day].lunch && Meal(plan[day], Supper) == plan[day].supper;
    assert Meal(plan[day], Breakfast) == plan[day].breakfast && Meal(plan[day], Fruits) == plan[day].fruit;
  }

  /**
   * With the app's own picker, a day's meal from a non-empty list is the
   * item at `Math.floor(seededRandom(seed * factor) * length)`, and an item
   * of that list; an empty list gives None.
   */
  lemma AppPicks(random: SeededRandom, year: int, month: int, foods: Catalog, day: int, category: Category)
    requires 0 <= month < 12
    requires day in MonthPlan(year, month, foods, IndexPicker(random))
    ensures var items, r := Get(foods, category), random(Seed(year, month, day) * Multiplier(category));
      var meal := Meal(MonthPlan(year, month, foods, IndexPicker(random))[day], category);
      && (items == [] ==> meal == None)
      && (items != [] ==> 0 <= ScaledIndex(r, |items|) < |items|
                          && meal == Some(items[ScaledIndex(r, |items|)]) && meal.value in items)
  {
    var items, pick := Get(foods, category), IndexPicker(random);
    var k := Seed(year, month, day) * Multiplier(category);
    PickedAt(year, month, foods, pick, day, category);
    IndexPickerScales(random, k, |items|);
  }

  /** A planned day's meal is the item of its list at the index picked from the day's seed. */
  lemma PickedAt(year: int, month: int, foods: Catalog, pick: Picker, day: int, category: Category)
    requires 0 <= month < 12
    requires day in MonthPlan(year, month, foods, pick)
    ensures var items := Get(foods, category);
      Meal(MonthPlan(year, month, foods, pick)[day], category)
        == ItemAt(items, pick(Seed(year, month, day) * Multiplier(category), |items|))
  {
    MonthPlanCoversMonth(year, month, foods, pick, day);
  }


  // ---------------------------------------------------------------------
  // Today's meals

  /** `mealPlan[currentDate.getDate()] || null` */
  function TodaysMeals(plan: map<int, DayPlan>, today: CivilDate): (meals: Option<DayPlan>)
    ensures meals.Some? <==> today.day in plan
    ensures meals.Some? ==> meals.value == plan[today.day]
  {
    if today.day in plan then Some(plan[today.day]) else None
  }

  /**
   * For a real date, the plan of its month has its meals, unless the date
   * is 29 February of year 0: the `Date` constructor reads year 0 as 1900,
   * which has no 29 February, so that day gets no meals.
   */
  lemma TodaysMealsPresent(today: CivilDate, foods: Catalog, pick: Picker)
    requires IsValidDate(today)
    ensures var meals := TodaysMeals(MonthPlan(today.year, today.month, foods, pick), today);
      && (meals.Some? <==> !(today.year == 0 && today.month == 1 && today.day == 29))
      && (meals.Some? ==> meals.value == DayPlanFor(today.year, today.month, today.day, foods, pick))
  {
    DateYearMonthLength(today.year, today.month);
    if today.year == 0 && today.month == 1 {
      assert !IsLeapYear(1900) && IsLeapYear(0);
    }
  }
}

/**
 * The food catalog: four ordered lists of food names, the catalog the app
 * starts from, and the two edits the user can make. Each edit builds a new
 * catalog snapshot in which only the named list differs.
 */
module Foods {
  import opened Wrappers

  /** The four lists of the catalog, keyed as in the stored catalog. */
  datatype Category = Breakfast | Lunch | Supper | Fruits

  datatype Catalog = Catalog(
    breakfast: seq<string>,
    lunch: seq<string>,
    supper: seq<string>,
    fruits: seq<string>)

  /** `foods[category]` */
  function Get(foods: Catalog, category: Category): seq<string> {
    match category
    case Breakfast => foods.breakfast
    case Lunch => foods.lunch
    case Supper => foods.supper
    case Fruits => foods.fruits
  }

  /** `{ ...foods, [category]: items }`: replace one list, keep the other three. */
  function With(foods: Catalog, category: Category, items: seq<string>): (r: Catalog)
    ensures Get(r, category) == items
    ensures forall other :: other != category ==> Get(r, other) == Get(foods, other)
  {
    match category
    case Breakfast => foods.(breakfast := items)
    case Lunch => foods.(lunch := items)
    case Supper => foods.(supper := items)
    case Fruits => foods.(fruits := items)
  }

  /** The built-in catalog used when nothing is stored. */
  const DefaultFoods: Catalog := Catalog(
    ["Chai & Mandazi", "Porridge", "Bread & Eggs", "Pancakes", "Uji", "Chapati & Beans"],
    ["Rice & Beans", "Ugali & Sukuma", "Pilau", "Githeri", "Rice & Beef Stew", "Ugali & Fish",
     "Chapati & Chicken"],
    ["Ugali & Sukuma", "Rice & Vegetables", "Chapati & Stew", "Ugali & Beans", "Rice & Chicken",
     "Mukimo", "Ugali & Beef"],
    ["Banana", "Mango", "Watermelon", "Pineapple", "Papaya", "Orange", "Avocado"])

  /** Every list of the default catalog has at least six names and no repeated name. */
  lemma DefaultFoodsWellFormed(category: Category)
    ensures |Get(DefaultFoods, category)| >= 6
    ensures NoDuplicates(Get(DefaultFoods, category))
  {
  }

  /**
   * The catalog the app starts with: the stored one if there is one, else the
   * default, in which every list is non-empty and without repeated names, so
   * every day of the first plan gets a meal of each kind.
   */
  function InitialFoods(stored: Option<Catalog>): (foods: Catalog)
    ensures stored.Some? ==> foods == stored.value
    ensures stored.None? ==> foods == DefaultFoods
    ensures stored.None? ==> forall category :: |Get(foods, category)| >= 6 && NoDuplicates(Get(foods, category))
  {
    forall category ensures |Get(DefaultFoods, category)| >= 6 && NoDuplicates(Get(DefaultFoods, category)) {
      DefaultFoodsWellFormed(category);
    }
    match stored
    case Some(foods) => foods
    case None => DefaultFoods
  }

  predicate NoDuplicates(items: seq<string>) {
    forall i, j :: 0 <= i < j < |items| ==> items[i] != items[j]
  }


  // ---------------------------------------------------------------------
  // String.prototype.trim

  /**
   * The characters `trim` removes: the WhiteSpace and LineTerminator code
   * points of sections 12.2 and 12.3 of ECMA-262 (tab, vertical tab, form
   * feed, the byte order mark, every space separator of Unicode category Zs,
   * line feed, carriage return, and the line and paragraph separators).
   */
  predicate IsWhiteSpace(ch: char) {
    ch == '\t' || ch == '\U{000B}' || ch == '\U{000C}' || ch == '\U{FEFF}'
    || ch == ' ' || ch == '\U{00A0}' || ch == '\U{1680}'
    || ('\U{2000}' <= ch <= '\U{200A}')
    || ch == '\U{202F}' || ch == '\U{205F}' || ch == '\U{3000}'
    || ch == '\n' || ch == '\r' || ch == '\U{2028}' || ch == '\U{2029}'
  }

  /**
   * Space, tab, line feed, carriage return and no-break space are white
   * space; the Mongolian vowel separator (U+180E, white space before
   * ECMAScript 2016) and the zero-width space (U+200B) are not.
   */
  lemma WhiteSpaceCases(ch: char)
    ensures ch == ' ' || ch == '\t' || ch == '\n' || ch == '\r' || ch == '\U{00A0}' ==> IsWhiteSpace(ch)
    ensures ch == '\U{180E}' || ch == '\U{200B}' ==> !IsWhiteSpace(ch)
  {
  }

  predicate AllWhiteSpace(s: string) {
    forall i :: 0 <= i < |s| ==> IsWhiteSpace(s[i])
  }

  /** `s` without its leading white space: a suffix of `s`. */
  function TrimStart(s: string): (r: string)
    ensures |r| <= |s| && r == s[|s| - |r|..]
    ensures AllWhiteSpace(s[..|s| - |r|])
    ensures r == [] || !IsWhiteSpace(r[0])
  {
    if |s| > 0 && IsWhiteSpace(s[0]) then
      var r := TrimStart(s[1..]);
      assert s[..|s| - |r|] == [s[0]] + s[1..][..|s| - 1 - |r|];
      r
    else s
  }

  /** `s` without its trailing white space: a prefix of `s`. */
  function TrimEnd(s: string): (r: string)
    ensures |r| <= |s| && r == s[..|r|]
    ensures AllWhiteSpace(s[|r|..])
    ensures r == [] || !IsWhiteSpace(r[|r| - 1])
  {
    if |s| > 0 && IsWhiteSpace(s[|s| - 1]) then
      var r := TrimEnd(s[..|s| - 1]);
      assert s[|r|..] == s[..|s| - 1][|r|..] + [s[|s| - 1]];
      r
    else s
  }

  /** `s.trim()`: a slice of `s` that neither starts nor ends with white space. */
  function Trim(s: string): (r: string)
    ensures r == [] || (!IsWhiteSpace(r[0]) && !IsWhiteSpace(r[|r| - 1]))
    ensures exists i, j :: 0 <= i <= j <= |s| && r == s[i..j] && AllWhiteSpace(s[..i]) && AllWhiteSpace(s[j..])
  {
    SliceBetweenBlanks(s, TrimStart(s), TrimEnd(TrimStart(s)));
    TrimEnd(TrimStart(s))
  }

  /**
   * Cutting a white-space prefix off `s` and then a white-space suffix off
   * what is left keeps a middle slice of `s` with white space on both sides.
   */
  lemma SliceBetweenBlanks(s: string, t: string, r: string)
    requires |t| <= |s| && t == s[|s| - |t|..] && AllWhiteSpace(s[..|s| - |t|])
    requires |r| <= |t| && r == t[..|r|] && AllWhiteSpace(t[|r|..])
    ensures exists i, j :: 0 <= i <= j <= |s| && r == s[i..j] && AllWhiteSpace(s[..i]) && AllWhiteSpace(s[j..])
  {
    var i, j := |s| - |t|, |s| - |t| + |r|;
    assert s[i..j] == t[..|r|];
    assert s[j..] == t[|r|..];
  }

  /** A name trims to the empty string exactly when it is all white space. */
  lemma TrimEmptyIffBlank(s: string)
    ensures Trim(s) == [] <==> AllWhiteSpace(s)
  {
    var t := TrimStart(s);
    if Trim(s) == [] {
      assert AllWhiteSpace(t);
      assert s == s[..|s| - |t|] + t;
    } else {
      assert !IsWhiteSpace(Trim(s)[0]);
      assert Trim(s)[0] == s[|s| - |t|];
    }
  }

  /** Trimming twice trims nothing more. */
  lemma TrimIdempotent(s: string)
    ensures Trim(Trim(s)) == Trim(s)
  {
    var r := Trim(s);
    if r != [] {
      assert TrimStart(r) == r;
      assert TrimEnd(r) == r;
    }
  }

  // ---------------------------------------------------------------------
  // Array.prototype.filter with `item !== x`

  /** The items of `s` other than `x`, in their original order. */
  function Without(s: seq<string>, x: string): (r: seq<string>)
    ensures x !in r
    ensures forall y :: y in r <==> y in s && y != x
    ensures |r| <= |s|
  {
    if s == [] then []
    else if s[0] == x then Without(s[1..], x)
    else [s[0]] + Without(s[1..], x)
  }

  /** Filtering distributes over concatenation, so the kept items stay in order. */
  lemma {:induction false} WithoutConcat(a: seq<string>, b: seq<string>, x: string)
    ensures Without(a + b, x) == Without(a, x) + Without(b, x)
  {
    if a == [] {
      assert a + b == b;
    } else {
      assert (a + b)[1..] == a[1..] + b;
      WithoutConcat(a[1..], b, x);
    }
  }

  /** Every copy of `x` goes, and every other item keeps its multiplicity. */
  lemma {:induction false} WithoutCounts(s: seq<string>, x: string)
    ensures multiset(Without(s, x)) == multiset(s)[x := 0]
  {
    if s != [] {
      var rest := s[1..];
      assert multiset(Without(rest, x)) == multiset(rest)[x := 0] by { WithoutCounts(rest, x); }
      assert multiset(s) == multiset{s[0]} + multiset(rest) by { assert s == [s[0]] + rest; }
      if s[0] != x {
        assert multiset(Without(s, x)) == multiset{s[0]} + multiset(Without(rest, x)) by {
          assert Without(s, x) == [s[0]] + Without(rest, x);
        }
      }
    }
  }

  /** Filtering out a name that is not there changes nothing. */
  lemma {:induction false} WithoutAbsent(s: seq<string>, x: string)
    requires x !in s
    ensures Without(s, x) == s
  {
    if s != [] {
      WithoutAbsent(s[1..], x);
      assert s == [s[0]] + s[1..];
    }
  }

  // ---------------------------------------------------------------------
  // The two catalog edits

  /** The add-food form: the typed name and the chosen list. */
  datatype NewFood = NewFood(name: string, category: Category)

  /** The catalog after an edit, and the form after it. */
  datatype AddOutcome = AddOutcome(foods: Catalog, form: NewFood)

  /**
   * `addFood`: trim the typed name; if anything is left, append it to the
   * chosen list and clear the name in the form; otherwise change nothing.
   */
  function AddFood(foods: Catalog, form: NewFood): (r: AddOutcome)
    ensures Trim(form.name) == [] ==> r == AddOutcome(foods, form)
    ensures Trim(form.name) != [] ==>
      && Get(r.foods, form.category) == Get(foods, form.category) + [Trim(form.name)]
      && r.form == NewFood("", form.category)
    ensures forall other :: other != form.category ==> Get(r.foods, other) == Get(foods, other)
  {
    var foodName := Trim(form.name);
    if foodName != [] then
      AddOutcome(With(foods, form.category, Get(foods, form.category) + [foodName]),
                 form.(name := ""))
    else
      AddOutcome(foods, form)
  }

  /** `removeFood`: drop every item equal to `food` from one list. */
  function RemoveFood(foods: Catalog, category: Category, food: string): (r: Catalog)
    ensures Get(r, category) == Without(Get(foods, category), food)
    ensures food !in Get(r, category)
    ensures forall y :: y != food ==> multiset(Get(r, category))[y] == multiset(Get(foods, category))[y]
    ensures forall other :: other != category ==> Get(r, other) == Get(foods, other)
  {
    var r := With(foods, category, Without(Get(foods, category), food));
    WithoutCounts(Get(foods, category), food);
    r
  }

  /** Removing a name that is not in the list leaves the whole catalog as it was. */
  lemma RemoveAbsentIsNoOp(foods: Catalog, category: Category, food: string)
    requires food !in Get(foods, category)
    ensures RemoveFood(foods, category, food) == foods
  {
    WithoutAbsent(Get(foods, category), food);
    var r := RemoveFood(foods, category, food);
    assert forall c :: Get(r, c) == Get(foods, c);
    assert r.breakfast == Get(r, Breakfast) && r.lunch == Get(r, Lunch);
    assert r.supper == Get(r, Supper) && r.fruits == Get(r, Fruits);
  }

  /** Adding a new name and then removing it gives back the catalog. */
  lemma AddThenRemove(foods: Catalog, form: NewFood)
    requires Trim(form.name) !in Get(foods, form.category)
    ensures RemoveFood(AddFood(foods, form).foods, form.category, Trim(form.name)) == foods
  {
    var name := Trim(form.name);
    var list := Get(foods, form.category);
    if name != [] {
      WithoutConcat(list, [name], name);
      WithoutAbsent(list, name);
      assert Without([name], name) == [];
    }
    RemoveAbsentIsNoOp(foods, form.category, name);
  }
}

/**
 * The totals aggregator: the four nutrient sums of one user's consumptions
 * whose meal falls on one day. `Selected` is the joined, filtered query and
 * `DayTotals` the sum it feeds; the loop that computes it is
 * `Tracker.Store.TotalsForDate`.
 */
module Nutrition {
  import opened Wrappers
  import opened Rows
  import opened Records

  /** The calories, protein, carbohydrate and fat of a day, as exact reals. */
  datatype Totals = Totals(calories: real, protein: real, carbs: real, fat: real)
  {
    function Add(other: Totals): Totals
    {
      Totals(calories + other.calories, protein + other.protein, carbs + other.carbs, fat + other.fat)
    }
  }

  const Zero: Totals := Totals(0.0, 0.0, 0.0, 0.0)

  /** What `quantityG` grams of `p` contribute: each per-100g rate times `quantityG / 100`. */
  function Contribution(p: Product, quantityG: real): (r: Totals)
    ensures quantityG == 100.0 ==> r == Totals(p.caloriesPer100g, p.proteinPer100g, p.carbsPer100g, p.fatPer100g)
    ensures quantityG == 0.0 ==> r == Zero
  {
    var factor := quantityG / 100.0;
    Totals(p.caloriesPer100g * factor, p.proteinPer100g * factor, p.carbsPer100g * factor, p.fatPer100g * factor)
  }

  /** The meal with primary key `id`, as the join reaches it. */
  function MealOf(meals: seq<Meal>, id: nat): (r: Option<Meal>)
    ensures r.Some? <==> exists i :: 0 <= i < |meals| && meals[i].id == id
    ensures r.Some? ==> r.value in meals && r.value.id == id
  {
    First(meals, (m: Meal) => m.id == id)
  }

  /** The product with primary key `id`, as `c.product` loads it (None once it is deleted). */
  function ProductOf(products: seq<Product>, id: nat): (r: Option<Product>)
    ensures r.Some? <==> exists i :: 0 <= i < |products| && products[i].id == id
    ensures r.Some? ==> r.value in products && r.value.id == id
  {
    First(products, (p: Product) => p.id == id)
  }

  /** In a table with unique ids, `MealOf` finds the one meal with that id. */
  lemma MealOfUnique(meals: seq<Meal>, k: nat)
    requires UniqueKeys(meals, MealKey) && k < |meals|
    ensures MealOf(meals, meals[k].id) == Some(meals[k])
  {
    var r := MealOf(meals, meals[k].id);
    var i :| 0 <= i < |meals| && meals[i] == r.value;
    assert MealKey(meals[i]) == MealKey(meals[k]);
  }

  /** In a table with unique ids, `ProductOf` finds the one product with that id. */
  lemma ProductOfUnique(products: seq<Product>, k: nat)
    requires UniqueKeys(products, ProductKey) && k < |products|
    ensures ProductOf(products, products[k].id) == Some(products[k])
  {
    var r := ProductOf(products, products[k].id);
    var i :| 0 <= i < |products| && products[i] == r.value;
    assert ProductKey(products[i]) == ProductKey(products[k]);
  }

  /** A new meal at the end of the table does not change the meal an existing id finds. */
  lemma MealOfAppend(meals: seq<Meal>, m: Meal, id: nat)
    requires MealOf(meals, id).Some?
    ensures MealOf(meals + [m], id) == MealOf(meals, id)
  {
    FirstAppend(meals, (q: Meal) => q.id == id, m);
  }

  /** A new product at the end of the table does not change the product an existing id loads. */
  lemma ProductOfAppend(products: seq<Product>, p: Product, id: nat)
    requires ProductOf(products, id).Some?
    ensures ProductOf(products + [p], id) == ProductOf(products, id)
  {
    FirstAppend(products, (q: Product) => q.id == id, p);
  }

  /** Whether the query of `totals_for_date` selects `c`: owned by `u`, and its meal is on day `d`. */
  predicate OnDay(c: Consumption, meals: seq<Meal>, u: nat, d: int)
  {
    c.userId == u && MealOf(meals, c.mealId).Some? && MealOf(meals, c.mealId).value.date == d
  }

  /** The rows of `cs` that the query selects, in table order. */
  function Selected(cs: seq<Consumption>, meals: seq<Meal>, u: nat, d: int): (r: seq<Consumption>)
    ensures |r| <= |cs|
    ensures forall c :: c in r <==> c in cs && OnDay(c, meals, u, d)
  {
    if cs == [] then []
    else
      var rest := Selected(cs[..|cs| - 1], meals, u, d);
      var c := cs[|cs| - 1];
      assert cs == cs[..|cs| - 1] + [c];
      if OnDay(c, meals, u, d) then rest + [c] else rest
  }

  /** Every row's product can be loaded. */
  predicate Resolved(rows: seq<Consumption>, products: seq<Product>)
  {
    forall i :: 0 <= i < |rows| ==> ProductOf(products, rows[i].productId).Some?
  }

  /**
   * Every row the query selects for `u` on `d` can load its product. When this
   * fails, `totals_for_date` dereferences a missing product and raises.
   */
  predicate Resolvable(cs: seq<Consumption>, meals: seq<Meal>, products: seq<Product>, u: nat, d: int)
  {
    forall i :: 0 <= i < |cs| && OnDay(cs[i], meals, u, d) ==> ProductOf(products, cs[i].productId).Some?
  }

  lemma SelectedResolved(cs: seq<Consumption>, meals: seq<Meal>, products: seq<Product>, u: nat, d: int)
    requires Resolvable(cs, meals, products, u, d)
    ensures Resolved(Selected(cs, meals, u, d), products)
  {
    var r := Selected(cs, meals, u, d);
    forall i | 0 <= i < |r| ensures ProductOf(products, r[i].productId).Some? {
      assert r[i] in r;
      var j :| 0 <= j < |cs| && cs[j] == r[i];
    }
  }

  /** The sum of the contributions of all `rows`, each with its own product and quantity. */
  function SumRows(rows: seq<Consumption>, products: seq<Product>): Totals
    requires Resolved(rows, products)
  {
    if rows == [] then Zero
    else
      var c := rows[|rows| - 1];
      SumRows(rows[..|rows| - 1], products).Add(Contribution(ProductOf(products, c.productId).value, c.quantityG))
  }

  /** The totals of user `u` for day `d`: the sum of the contributions of the rows the query selects. */
  function DayTotals(cs: seq<Consumption>, meals: seq<Meal>, products: seq<Product>, u: nat, d: int): Totals
    requires Resolvable(cs, meals, products, u, d)
  {
    SelectedResolved(cs, meals, products, u, d);
    SumRows(Selected(cs, meals, u, d), products)
  }

  lemma {:induction false} SelectedAppend(a: seq<Consumption>, b: seq<Consumption>, meals: seq<Meal>, u: nat, d: int)
    ensures Selected(a + b, meals, u, d) == Selected(a, meals, u, d) + Selected(b, meals, u, d)
  {
    if b == [] {
      assert a + b == a;
    } else {
      var b' := b[..|b| - 1];
      assert (a + b)[..|a + b| - 1] == a + b';
      SelectedAppend(a, b', meals, u, d);
    }
  }

  lemma {:induction false} SumRowsAppend(x: seq<Consumption>, y: seq<Consumption>, products: seq<Product>)
    requires Resolved(x, products) && Resolved(y, products)
    ensures Resolved(x + y, products)
    ensures SumRows(x + y, products) == SumRows(x, products).Add(SumRows(y, products))
  {
    assert forall i :: 0 <= i < |x + y| ==> (x + y)[i] == if i < |x| then x[i] else y[i - |x|];
    if y == [] {
      assert x + y == x;
    } else {
      var y' := y[..|y| - 1];
      assert (x + y)[..|x + y| - 1] == x + y';
      SumRowsAppend(x, y', products);
    }
  }

  /** With no consumption of `u` on day `d` (for instance only empty meals that day), all four totals are zero. */
  lemma DayTotalsZero(cs: seq<Consumption>, meals: seq<Meal>, products: seq<Product>, u: nat, d: int)
    requires forall i :: 0 <= i < |cs| ==> !OnDay(cs[i], meals, u, d)
    ensures Resolvable(cs, meals, products, u, d)
    ensures DayTotals(cs, meals, products, u, d) == Zero
  {
    SelectedNone(cs, meals, u, d);
  }

  lemma {:induction false} SelectedNone(cs: seq<Consumption>, meals: seq<Meal>, u: nat, d: int)
    requires forall i :: 0 <= i < |cs| ==> !OnDay(cs[i], meals, u, d)
    ensures Selected(cs, meals, u, d) == []
  {
    if cs != [] {
      SelectedNone(cs[..|cs| - 1], meals, u, d);
    }
  }

  /** The totals of a table split in two are the sums of the totals of its parts. */
  lemma DayTotalsAppend(a: seq<Consumption>, b: seq<Consumption>, meals: seq<Meal>, products: seq<Product>, u: nat, d: int)
    requires Resolvable(a + b, meals, products, u, d)
    ensures Resolvable(a, meals, products, u, d) && Resolvable(b, meals, products, u, d)
    ensures DayTotals(a + b, meals, products, u, d) == DayTotals(a, meals, products, u, d).Add(DayTotals(b, meals, products, u, d))
  {
    assert forall i :: 0 <= i < |a| ==> (a + b)[i] == a[i];
    assert forall i :: 0 <= i < |b| ==> (a + b)[|a| + i] == b[i];
    SelectedAppend(a, b, meals, u, d);
    SelectedResolved(a, meals, products, u, d);
    SelectedResolved(b, meals, products, u, d);
    SumRowsAppend(Selected(a, meals, u, d), Selected(b, meals, u, d), products);
  }

  /**
   * A consumption of another user, or one whose meal is on another day,
   * contributes nothing: the totals are those of the table without it.
   */
  lemma DayTotalsIgnoresOthers(a: seq<Consumption>, c: Consumption, b: seq<Consumption>,
                               meals: seq<Meal>, products: seq<Product>, u: nat, d: int)
    requires !OnDay(c, meals, u, d)
    requires Resolvable(a + b, meals, products, u, d)
    ensures Resolvable(a + [c] + b, meals, products, u, d)
    ensures DayTotals(a + [c] + b, meals, products, u, d) == DayTotals(a + b, meals, products, u, d)
  {
    var t := a + [c] + b;
    forall i | 0 <= i < |t| && OnDay(t[i], meals, u, d) ensures ProductOf(products, t[i].productId).Some? {
      if i < |a| {
        assert t[i] == (a + b)[i];
      } else if i > |a| {
        assert t[i] == (a + b)[i - 1];
      }
    }
    SelectedSkip(a, c, b, meals, u, d);
  }

  lemma SelectedSkip(a: seq<Consumption>, c: Consumption, b: seq<Consumption>, meals: seq<Meal>, u: nat, d: int)
    requires !OnDay(c, meals, u, d)
    ensures Selected(a + [c] + b, meals, u, d) == Selected(a + b, meals, u, d)
  {
    SelectedAppend(a + [c], b, meals, u, d);
    SelectedAppend(a, [c], meals, u, d);
    SelectedAppend(a, b, meals, u, d);
    SelectedNone([c], meals, u, d);
  }

  /**
   * Logging one more consumption adds exactly its contribution to the day
   * its meal is on, for its owner, and changes no other day or user.
   */
  lemma DayTotalsAfterLog(cs: seq<Consumption>, c: Consumption, meals: seq<Meal>, products: seq<Product>, u: nat, d: int)
    requires Resolvable(cs + [c], meals, products, u, d)
    ensures Resolvable(cs, meals, products, u, d)
    ensures OnDay(c, meals, u, d) ==> ProductOf(products, c.productId).Some?
    ensures OnDay(c, meals, u, d) ==>
      (DayTotals(cs + [c], meals, products, u, d)
       == DayTotals(cs, meals, products, u, d).Add(Contribution(ProductOf(products, c.productId).value, c.quantityG)))
    ensures !OnDay(c, meals, u, d) ==> DayTotals(cs + [c], meals, products, u, d) == DayTotals(cs, meals, products, u, d)
  {
    var t := cs + [c];
    assert t[..|t| - 1] == cs && t[|t| - 1] == c;
    forall i | 0 <= i < |cs| && OnDay(cs[i], meals, u, d) ensures ProductOf(products, cs[i].productId).Some? {
      assert t[i] == cs[i];
    }
    var r := Selected(cs, meals, u, d);
    if OnDay(c, meals, u, d) {
      assert Selected(t, meals, u, d) == r + [c];
      assert (r + [c])[..|r|] == r;
    }
  }

  /** Adding the next row of a resolved list to the sum of the rows before it. */
  lemma SumRowsStep(rows: seq<Consumption>, i: nat, products: seq<Product>)
    requires Resolved(rows, products) && i < |rows|
    ensures Resolved(rows[..i], products) && Resolved(rows[..i + 1], products)
    ensures ProductOf(products, rows[i].productId).Some?
    ensures SumRows(rows[..i + 1], products)
         == SumRows(rows[..i], products).Add(Contribution(ProductOf(products, rows[i].productId).value, rows[i].quantityG))
  {
    assert rows[..i + 1][..i] == rows[..i];
  }

  /** Non-negative rates and quantities give non-negative totals. */
  lemma {:induction false} SumRowsNonNegative(rows: seq<Consumption>, products: seq<Product>)
    requires Resolved(rows, products)
    requires forall i :: 0 <= i < |rows| ==> rows[i].quantityG >= 0.0
    requires forall j :: 0 <= j < |products| ==>
      products[j].caloriesPer100g >= 0.0 && products[j].proteinPer100g >= 0.0 &&
      products[j].carbsPer100g >= 0.0 && products[j].fatPer100g >= 0.0
    ensures var t := SumRows(rows, products);
      t.calories >= 0.0 && t.protein >= 0.0 && t.carbs >= 0.0 && t.fat >= 0.0
  {
    if rows != [] {
      var c := rows[|rows| - 1];
      SumRowsNonNegative(rows[..|rows| - 1], products);
      var p := ProductOf(products, c.productId).value;
      assert p in products;
      ContributionNonNegative(p, c.quantityG);
    }
  }

  lemma ContributionNonNegative(p: Product, quantityG: real)
    requires quantityG >= 0.0
    requires p.caloriesPer100g >= 0.0 && p.proteinPer100g >= 0.0 && p.carbsPer100g >= 0.0 && p.fatPer100g >= 0.0
    ensures var t := Contribution(p, quantityG);
      t.calories >= 0.0 && t.protein >= 0.0 && t.carbs >= 0.0 && t.fat >= 0.0
  {
    var f := quantityG / 100.0;
    assert f >= 0.0;
    assert p.caloriesPer100g * f >= 0.0 && p.proteinPer100g * f >= 0.0
        && p.carbsPer100g * f >= 0.0 && p.fatPer100g * f >= 0.0;
  }

  /** A worked example: 150 g of a 200/10/20/5 product give 300, 15, 30 and 7.5. */
  lemma WorkedExample(u: nat, d: int)
    ensures var p := Product(1, u, "Oats", 200.0, 10.0, 20.0, 5.0);
      var m := Meal(1, u, d, "Breakfast");
      var c := Consumption(1, u, 1, 1, 150.0);
      Resolvable([c], [m], [p], u, d) && DayTotals([c], [m], [p], u, d) == Totals(300.0, 15.0, 30.0, 7.5)
  {
    var p := Product(1, u, "Oats", 200.0, 10.0, 20.0, 5.0);
    var m := Meal(1, u, d, "Breakfast");
    var c := Consumption(1, u, 1, 1, 150.0);
    assert [m][0].id == 1 && [p][0].id == 1;
    assert MealOf([m], 1) == Some(m);
    assert ProductOf([p], 1) == Some(p);
    assert OnDay(c, [m], u, d);
    assert Selected([c], [m], u, d) == [c];
    assert Resolvable([c], [m], [p], u, d);
    assert SumRows([c], [p]) == Zero.Add(Contribution(p, 150.0));
    assert Contribution(p, 150.0) == Totals(300.0, 15.0, 30.0, 7.5);
  }
}

/**
 * The application's store: the four tables as sequences held by one object,
 * and one method per route handler that reads or changes them. The session's
 * user is a parameter; flashing, rendering and redirects become result tags.
 */
module Tracker {
  import opened Wrappers
  import opened Rows
  import opened Records
  import opened Text
  import opened Nutrition
  import opened HistoryDates
  import opened Accounts

  datatype ApproveOutcome = AdminRequired | UserNotFound | Approved
  datatype ProductOutcome = NameRequired | ProductCreated(id: nat)
  datatype DeleteOutcome = ProductNotFound | ProductInUse | ProductDeleted
  datatype ConsumptionOutcome = MealNotFound | ProductMissing | ConsumptionCreated(id: nat)

  /** One row of the history page. */
  datatype DayEntry = DayEntry(date: int, totals: Totals)

  /** The name `meal_new` gives a meal whose name field is blank. */
  const DefaultMealName: string := "Meal"

  /** `Product.query.filter_by(id=pid, user_id=u).first()`, as the index of the row. */
  function OwnedProductIndex(products: seq<Product>, pid: nat, u: nat): (r: Option<nat>)
    ensures r.Some? ==> r.value < |products| && products[r.value].id == pid && products[r.value].userId == u
    ensures r.None? <==> forall i :: 0 <= i < |products| ==> !(products[i].id == pid && products[i].userId == u)
  {
    FirstIndex(products, (p: Product) => p.id == pid && p.userId == u)
  }

  /** `Product.query.filter_by(id=pid, user_id=u).first()`. */
  function OwnedProduct(products: seq<Product>, pid: nat, u: nat): (r: Option<Product>)
    ensures r.Some? <==> exists i :: 0 <= i < |products| && products[i].id == pid && products[i].userId == u
    ensures r.Some? ==> r.value in products && r.value.id == pid && r.value.userId == u
  {
    First(products, (p: Product) => p.id == pid && p.userId == u)
  }

  /** `Meal.query.filter_by(id=mid, user_id=u).first()`. */
  function OwnedMeal(meals: seq<Meal>, mid: nat, u: nat): (r: Option<Meal>)
    ensures r.Some? <==> exists i :: 0 <= i < |meals| && meals[i].id == mid && meals[i].userId == u
    ensures r.Some? ==> r.value in meals && r.value.id == mid && r.value.userId == u
  {
    First(meals, (m: Meal) => m.id == mid && m.userId == u)
  }

  /** The consumption's meal and product exist and belong to the consumption's own user. */
  predicate RefOwned(c: Consumption, meals: seq<Meal>, products: seq<Product>)
  {
    && MealOf(meals, c.mealId).Some? && MealOf(meals, c.mealId).value.userId == c.userId
    && ProductOf(products, c.productId).Some? && ProductOf(products, c.productId).value.userId == c.userId
  }

  /** Every consumption's meal and product exist and belong to the consumption's user. */
  predicate RefsOwned(cs: seq<Consumption>, meals: seq<Meal>, products: seq<Product>)
  {
    forall i :: 0 <= i < |cs| ==> RefOwned(cs[i], meals, products)
  }

  /** Some consumption refers to product `pid`. */
  predicate Referenced(cs: seq<Consumption>, pid: nat)
  {
    exists i :: 0 <= i < |cs| && cs[i].productId == pid
  }

  /** When every consumption's product loads, the totals of every user and day can be computed. */
  lemma LoadableResolvable(cs: seq<Consumption>, meals: seq<Meal>, products: seq<Product>, u: nat, d: int)
    requires Resolved(cs, products)
    ensures Resolvable(cs, meals, products, u, d)
  {
  }

  /** Intact references include a loadable product for every consumption. */
  lemma RefsOwnedLoadable(cs: seq<Consumption>, meals: seq<Meal>, products: seq<Product>)
    requires RefsOwned(cs, meals, products)
    ensures Resolved(cs, products)
  {
  }

  class Store {
    var users: seq<User>
    var products: seq<Product>
    var meals: seq<Meal>
    var consumptions: seq<Consumption>

    /** The primary keys of all four tables and the unique columns of the users table. */
    ghost predicate Valid()
      reads this
    {
      && UsersValid(users)
      && UniqueKeys(products, ProductKey)
      && UniqueKeys(meals, MealKey)
      && UniqueKeys(consumptions, ConsumptionKey)
    }

    /** Referential integrity with ownership: every consumption's meal and product exist and are its user's. */
    ghost predicate Intact()
      reads this
    {
      RefsOwned(consumptions, meals, products)
    }

    /** The empty database that `db.create_all()` produces. */
    constructor ()
      ensures Valid() && Intact()
      ensures users == [] && products == [] && meals == [] && consumptions == []
    {
      users, products, meals, consumptions := [], [], [], [];
    }

    /**
     * The start-up seeding: add an approved admin when there is none. The
     * configured email and username must not be taken; otherwise the
     * database's unique constraints stop the process at start-up.
     */
    method Bootstrap(email: string, username: string, passwordHash: string)
      requires Valid()
      requires !HasAdmin(users) ==> forall i :: 0 <= i < |users| ==> users[i].email != email && users[i].username != username
      modifies this
      ensures Valid() && HasAdmin(users)
      ensures users == BootstrapUsers(old(users), email, username, passwordHash)
      ensures products == old(products) && meals == old(meals) && consumptions == old(consumptions)
    {
      if !HasAdmin(users) {
        var admin := User(NextId(users, UserKey), username, email, passwordHash, true, true);
        AppendFreshKey(users, UserKey, admin);
        var t := users + [admin];
        forall i, j | 0 <= i < j < |t| ensures t[i].username != t[j].username && t[i].email != t[j].email {
          assert t[i] == users[i];
          if j < |users| { assert t[j] == users[j]; }
        }
        assert t[|users|].isAdmin;
        users := t;
      }
    }

    /**
     * `signup`: reject a blank field or a taken username or email and change
     * nothing; otherwise append one unapproved, non-admin user whose email is
     * lower-cased and whose stored hash is that of the stripped password.
     * `hashOf` is the salted hash the request computes.
     */
    method Signup(username: string, email: string, password: string, hashOf: string -> string)
      returns (outcome: SignupOutcome)
      requires Valid()
      modifies this
      ensures Valid() && (old(Intact()) ==> Intact())
      ensures outcome == SignupDecision(old(users), username, email, password)
      ensures users == SignupUsers(old(users), username, email, password, hashOf)
      ensures products == old(products) && meals == old(meals) && consumptions == old(consumptions)
    {
      var name := Strip(username);
      var mail := NormalizeEmail(email);
      var secret := Strip(password);
      if name == [] || mail == [] || secret == [] {
        return FieldsRequired;
      }
      if UserClash(users, mail, name).Some? {
        return AlreadyExists;
      }
      SignupKeepsValid(users, username, email, password, hashOf);
      var user := User(NextId(users, UserKey), name, mail, hashOf(secret), false, false);
      users := users + [user];
      outcome := SignedUp(user.id);
    }

    /**
     * `admin_approve`, behind `admin_required`: a session that is not an
     * admin's changes nothing, an unknown user id changes nothing, and
     * otherwise that one user becomes approved.
     */
    method AdminApprove(current: Option<nat>, userId: nat) returns (outcome: ApproveOutcome)
      requires Valid()
      modifies this
      ensures Valid() && (old(Intact()) ==> Intact())
      ensures outcome == AdminRequired <==> !AdminAllowed(old(users), current)
      ensures outcome == UserNotFound <==>
        AdminAllowed(old(users), current) && forall i :: 0 <= i < |old(users)| ==> old(users)[i].id != userId
      ensures users == if outcome == Approved then ApproveUsers(old(users), userId) else old(users)
      ensures products == old(products) && meals == old(meals) && consumptions == old(consumptions)
    {
      if !AdminAllowed(users, current) {
        return AdminRequired;
      }
      match UserIndex(users, userId)
      case None =>
        outcome := UserNotFound;
      case Some(k) =>
        ApproveKeepsValid(users, userId);
        users := users[k := users[k].(isApproved := true)];
        outcome := Approved;
    }

    /** `product_new`: a blank name changes nothing; otherwise append the product, owned by `u`. */
    method ProductNew(u: nat, name: string, calories: real, protein: real, carbs: real, fat: real)
      returns (outcome: ProductOutcome)
      requires Valid()
      modifies this
      ensures Valid() && (old(Intact()) ==> Intact())
      ensures outcome == NameRequired <==> Strip(name) == []
      ensures outcome == NameRequired ==> products == old(products)
      ensures outcome.ProductCreated? ==>
        && outcome.id == NextId(old(products), ProductKey)
        && products == old(products) + [Product(outcome.id, u, Strip(name), calories, protein, carbs, fat)]
      ensures users == old(users) && meals == old(meals) && consumptions == old(consumptions)
    {
      var trimmed := Strip(name);
      if trimmed == [] {
        return NameRequired;
      }
      var p := Product(NextId(products, ProductKey), u, trimmed, calories, protein, carbs, fat);
      AppendFreshKey(products, ProductKey, p);
      ghost var before := products;
      products := products + [p];
      KeepRefsOnProductAppend(consumptions, meals, before, p);
      outcome := ProductCreated(p.id);
    }

    /**
     * `product_delete` as written: remove the product `pid` if `u` owns it,
     * and nothing otherwise. Consumptions that refer to it are left as they
     * are (see `DeleteReferencedBreaksTotals`).
     */
    method ProductDelete(u: nat, pid: nat) returns (outcome: DeleteOutcome)
      requires Valid()
      modifies this
      ensures Valid()
      ensures outcome == ProductNotFound <==> OwnedProductIndex(old(products), pid, u).None?
      ensures outcome == ProductDeleted <==> OwnedProductIndex(old(products), pid, u).Some?
      ensures outcome == ProductDeleted ==> products == RemoveAt(old(products), OwnedProductIndex(old(products), pid, u).value)
      ensures outcome == ProductNotFound ==> products == old(products)
      ensures forall q :: q in products <==> q in old(products) && !(q.id == pid && q.userId == u)
      ensures users == old(users) && meals == old(meals) && consumptions == old(consumptions)
    {
      match OwnedProductIndex(products, pid, u)
      case None =>
        outcome := ProductNotFound;
      case Some(k) =>
        RemoveOwned(products, pid, u, k);
        RemoveAtKeepsUnique(products, ProductKey, k);
        products := RemoveAt(products, k);
        outcome := ProductDeleted;
    }

    /**
     * `product_delete` with an explicit policy for products still in use:
     * refuse, and change nothing, while any consumption refers to the
     * product. This keeps every consumption's product loadable.
     */
    method ProductDeleteGuarded(u: nat, pid: nat) returns (outcome: DeleteOutcome)
      requires Valid()
      modifies this
      ensures Valid() && (old(Intact()) ==> Intact())
      ensures outcome == ProductNotFound <==> OwnedProductIndex(old(products), pid, u).None?
      ensures outcome == ProductInUse <==> OwnedProductIndex(old(products), pid, u).Some? && Referenced(old(consumptions), pid)
      ensures outcome == ProductDeleted ==> products == RemoveAt(old(products), OwnedProductIndex(old(products), pid, u).value)
      ensures outcome != ProductDeleted ==> products == old(products)
      ensures users == old(users) && meals == old(meals) && consumptions == old(consumptions)
    {
      match OwnedProductIndex(products, pid, u)
      case None =>
        outcome := ProductNotFound;
      case Some(k) =>
        if Referenced(consumptions, pid) {
          return ProductInUse;
        }
        RemoveAtKeepsUnique(products, ProductKey, k);
        KeepRefsOnProductRemove(consumptions, meals, products, k);
        products := RemoveAt(products, k);
        outcome := ProductDeleted;
    }

    /** `meal_new`: append a meal of `u` on day `date`, named "Meal" when the name is blank. */
    method MealNew(u: nat, name: string, date: int) returns (id: nat)
      requires Valid()
      modifies this
      ensures Valid() && (old(Intact()) ==> Intact())
      ensures id == NextId(old(meals), MealKey)
      ensures meals == old(meals) + [Meal(id, u, date, if Strip(name) == [] then DefaultMealName else Strip(name))]
      ensures users == old(users) && products == old(products) && consumptions == old(consumptions)
    {
      var trimmed := Strip(name);
      var m := Meal(NextId(meals, MealKey), u, date, if trimmed == [] then DefaultMealName else trimmed);
      AppendFreshKey(meals, MealKey, m);
      ghost var before := meals;
      meals := meals + [m];
      KeepRefsOnMealAppend(consumptions, before, products, m);
      id := m.id;
    }

    /**
     * `consumption_new`: the meal and then the product must exist and be
     * owned by `u` (otherwise not found, and nothing changes); the new row
     * refers to both and is owned by `u`.
     */
    method ConsumptionNew(u: nat, mealId: nat, productId: nat, quantityG: real) returns (outcome: ConsumptionOutcome)
      requires Valid()
      modifies this
      ensures Valid() && (old(Intact()) ==> Intact())
      ensures outcome == MealNotFound <==> OwnedMeal(old(meals), mealId, u).None?
      ensures outcome == ProductMissing <==>
        OwnedMeal(old(meals), mealId, u).Some? && OwnedProduct(old(products), productId, u).None?
      ensures outcome.ConsumptionCreated? ==>
        && outcome.id == NextId(old(consumptions), ConsumptionKey)
        && consumptions == old(consumptions) + [Consumption(outcome.id, u, mealId, productId, quantityG)]
        && RefOwned(consumptions[|consumptions| - 1], meals, products)
      ensures !outcome.ConsumptionCreated? ==> consumptions == old(consumptions)
      ensures users == old(users) && products == old(products) && meals == old(meals)
    {
      var meal := OwnedMeal(meals, mealId, u);
      if meal.None? {
        return MealNotFound;
      }
      var prod := OwnedProduct(products, productId, u);
      if prod.None? {
        return ProductMissing;
      }
      var c := Consumption(NextId(consumptions, ConsumptionKey), u, meal.value.id, prod.value.id, quantityG);
      OwnedRefs(meals, products, c, meal.value, prod.value);
      AppendFreshKey(consumptions, ConsumptionKey, c);
      consumptions := consumptions + [c];
      outcome := ConsumptionCreated(c.id);
    }

    /**
     * `totals_for_date`: run the joined query, then add up the four
     * contributions of each selected row into running sums that start at 0.
     */
    method TotalsForDate(u: nat, d: int) returns (totals: Totals)
      requires Resolvable(consumptions, meals, products, u, d)
      ensures totals == DayTotals(consumptions, meals, products, u, d)
    {
      var rows := Selected(consumptions, meals, u, d);
      SelectedResolved(consumptions, meals, products, u, d);
      totals := SumConsumptions(rows, products);
    }

    /**
     * `history`: the dates the history query returns, and for each, in
     * order, that day's totals.
     */
    method History(u: nat) returns (perDay: seq<DayEntry>)
      requires forall k :: 0 <= k < |RecentDates(meals, u)| ==>
        Resolvable(consumptions, meals, products, u, RecentDates(meals, u)[k])
      ensures |perDay| == |RecentDates(meals, u)| <= HistoryLimit
      ensures forall k :: 0 <= k < |perDay| ==> perDay[k].date == RecentDates(meals, u)[k]
      ensures forall i, j :: 0 <= i < j < |perDay| ==> perDay[i].date > perDay[j].date
      ensures forall k :: 0 <= k < |perDay| ==>
        Resolvable(consumptions, meals, products, u, perDay[k].date) &&
        perDay[k].totals == DayTotals(consumptions, meals, products, u, perDay[k].date)
    {
      var dates := RecentDates(meals, u);
      perDay := [];
      for i := 0 to |dates|
        invariant |perDay| == i
        invariant forall k :: 0 <= k < i ==> perDay[k].date == dates[k]
        invariant forall k :: 0 <= k < i ==> perDay[k].totals == DayTotals(consumptions, meals, products, u, dates[k])
      {
        var t := TotalsForDate(u, dates[i]);
        perDay := perDay + [DayEntry(dates[i], t)];
      }
    }
  }

  /**
   * The loop of `totals_for_date`: four running sums that start at 0, each
   * row adding its product's rate times its quantity over 100
   * (`Contribution`) to the sum of that nutrient.
   */
  method SumConsumptions(rows: seq<Consumption>, products: seq<Product>) returns (totals: Totals)
    requires Resolved(rows, products)
    ensures totals == SumRows(rows, products)
  {
    var calories, protein, carbs, fat := 0.0, 0.0, 0.0, 0.0;
    for i := 0 to |rows|
      invariant Resolved(rows[..i], products)
      invariant Totals(calories, protein, carbs, fat) == SumRows(rows[..i], products)
    {
      var c := rows[i];
      var p := ProductOf(products, c.productId).value;
      var add := Contribution(p, c.quantityG);
      SumRowsStep(rows, i, products);
      calories := calories + add.calories;
      protein := protein + add.protein;
      carbs := carbs + add.carbs;
      fat := fat + add.fat;
    }
    assert rows[..|rows|] == rows;
    totals := Totals(calories, protein, carbs, fat);
  }

  /**
   * Appending a product with a fresh id keeps intact references intact, and every
   * consumption whose product loads still loads the same product. A dangling
   * reference is not covered: the new product may take its id.
   */
  lemma KeepRefsOnProductAppend(cs: seq<Consumption>, meals: seq<Meal>, products: seq<Product>, p: Product)
    requires UniqueKeys(products, ProductKey) && p.id == NextId(products, ProductKey)
    ensures RefsOwned(cs, meals, products) ==> RefsOwned(cs, meals, products + [p])
    ensures forall i :: 0 <= i < |cs| && ProductOf(products, cs[i].productId).Some? ==>
      ProductOf(products + [p], cs[i].productId) == ProductOf(products, cs[i].productId)
  {
    forall i | 0 <= i < |cs| && ProductOf(products, cs[i].productId).Some?
      ensures ProductOf(products + [p], cs[i].productId) == ProductOf(products, cs[i].productId)
    {
      ProductOfAppend(products, p, cs[i].productId);
    }
    if RefsOwned(cs, meals, products) {
      var t := products + [p];
      AppendFreshKey(products, ProductKey, p);
      forall i | 0 <= i < |cs| ensures RefOwned(cs[i], meals, t) {
        var q := ProductOf(products, cs[i].productId).value;
        var j :| 0 <= j < |products| && products[j] == q;
        assert t[j] == q;
        ProductOfUnique(t, j);
      }
    }
  }

  /**
   * Appending a meal with a fresh id keeps intact references intact, and every
   * consumption whose meal exists still joins the same meal. A dangling
   * reference is not covered: the new meal may take its id.
   */
  lemma KeepRefsOnMealAppend(cs: seq<Consumption>, meals: seq<Meal>, products: seq<Product>, m: Meal)
    requires UniqueKeys(meals, MealKey) && m.id == NextId(meals, MealKey)
    ensures RefsOwned(cs, meals, products) ==> RefsOwned(cs, meals + [m], products)
    ensures forall i :: 0 <= i < |cs| && MealOf(meals, cs[i].mealId).Some? ==>
      MealOf(meals + [m], cs[i].mealId) == MealOf(meals, cs[i].mealId)
  {
    forall i | 0 <= i < |cs| && MealOf(meals, cs[i].mealId).Some?
      ensures MealOf(meals + [m], cs[i].mealId) == MealOf(meals, cs[i].mealId)
    {
      MealOfAppend(meals, m, cs[i].mealId);
    }
    if RefsOwned(cs, meals, products) {
      var t := meals + [m];
      AppendFreshKey(meals, MealKey, m);
      forall i | 0 <= i < |cs| ensures RefOwned(cs[i], t, products) {
        var q := MealOf(meals, cs[i].mealId).value;
        var j :| 0 <= j < |meals| && meals[j] == q;
        assert t[j] == q;
        MealOfUnique(t, j);
      }
    }
  }

  /** Removing a product that no consumption refers to keeps every consumption's references. */
  lemma KeepRefsOnProductRemove(cs: seq<Consumption>, meals: seq<Meal>, products: seq<Product>, k: nat)
    requires UniqueKeys(products, ProductKey) && k < |products|
    requires !Referenced(cs, products[k].id)
    ensures RefsOwned(cs, meals, products) ==> RefsOwned(cs, meals, RemoveAt(products, k))
  {
    if RefsOwned(cs, meals, products) {
      var t := RemoveAt(products, k);
      RemoveAtKeepsUnique(products, ProductKey, k);
      forall i | 0 <= i < |cs| ensures RefOwned(cs[i], meals, t) {
        var q := ProductOf(products, cs[i].productId).value;
        var j :| 0 <= j < |products| && products[j] == q;
        assert j != k;
        var j' := if j < k then j else j - 1;
        assert t[j'] == q;
        ProductOfUnique(t, j');
      }
    }
  }

  /** A consumption built from an owned meal and an owned product refers to both, as its user's. */
  lemma OwnedRefs(meals: seq<Meal>, products: seq<Product>, c: Consumption, m: Meal, p: Product)
    requires UniqueKeys(meals, MealKey) && UniqueKeys(products, ProductKey)
    requires m in meals && m.userId == c.userId && c.mealId == m.id
    requires p in products && p.userId == c.userId && c.productId == p.id
    ensures RefOwned(c, meals, products)
  {
    var i :| 0 <= i < |meals| && meals[i] == m;
    MealOfUnique(meals, i);
    var j :| 0 <= j < |products| && products[j] == p;
    ProductOfUnique(products, j);
  }

  /** Removing the owned product found by its id and owner removes exactly the products with that id and owner. */
  lemma RemoveOwned(products: seq<Product>, pid: nat, u: nat, k: nat)
    requires UniqueKeys(products, ProductKey)
    requires OwnedProductIndex(products, pid, u) == Some(k)
    ensures forall q :: q in RemoveAt(products, k) <==> q in products && !(q.id == pid && q.userId == u)
  {
    var t := RemoveAt(products, k);
    forall q ensures q in t <==> q in products && !(q.id == pid && q.userId == u) {
      if q in t {
        var j :| 0 <= j < |t| && t[j] == q;
        var j' := if j < k then j else j + 1;
        assert products[j'] == q;
        assert ProductKey(products[j']) != ProductKey(products[k]);
      }
      if q in products && !(q.id == pid && q.userId == u) {
        var j :| 0 <= j < |products| && products[j] == q;
        assert j != k;
        if j < k { assert t[j] == q; } else { assert t[j - 1] == q; }
      }
    }
  }

  /**
   * As written, deleting a product leaves the consumptions that refer to it
   * in place: for the day of such a consumption, the totals of its user can
   * no longer be computed (its product no longer loads).
   */
  lemma DeleteReferencedBreaksTotals(cs: seq<Consumption>, meals: seq<Meal>, products: seq<Product>,
                                     k: nat, i: nat, d: int)
    requires UniqueKeys(products, ProductKey) && k < |products| && i < |cs|
    requires cs[i].productId == products[k].id && OnDay(cs[i], meals, cs[i].userId, d)
    ensures !Resolvable(cs, meals, RemoveAt(products, k), cs[i].userId, d)
  {
    var t := RemoveAt(products, k);
    forall j | 0 <= j < |t| ensures t[j].id != products[k].id {
      var j' := if j < k then j else j + 1;
      assert t[j] == products[j'];
      assert ProductKey(products[j']) != ProductKey(products[k]);
    }
  }

  /**
   * As written, with SQLite's key rule, the key of a deleted product is
   * handed out again: after user `a` deletes the only product, which one of
   * `a`'s consumptions still refers to, a product created by user `b` takes
   * the same key, and `a`'s totals now count `b`'s product.
   */
  lemma DeletedIdIsReused(a: nat, b: nat, d: int)
    requires a != b
    ensures var oats := Product(1, a, "Oats", 380.0, 13.0, 68.0, 7.0);
      var breakfast := Meal(1, a, d, "Breakfast");
      var c := Consumption(1, a, 1, 1, 50.0);
      var after := RemoveAt([oats], 0);
      var cake := Product(NextId(after, ProductKey), b, "Cake", 400.0, 5.0, 50.0, 20.0);
      && RefOwned(c, [breakfast], [oats])
      && !Resolvable([c], [breakfast], after, a, d)
      && cake.id == oats.id
      && !RefOwned(c, [breakfast], after + [cake])
      && Resolvable([c], [breakfast], after + [cake], a, d)
      && DayTotals([c], [breakfast], after + [cake], a, d) == Contribution(cake, 50.0)
  {
    var oats := Product(1, a, "Oats", 380.0, 13.0, 68.0, 7.0);
    var breakfast := Meal(1, a, d, "Breakfast");
    var c := Consumption(1, a, 1, 1, 50.0);
    var after := RemoveAt([oats], 0);
    assert after == [];
    var cake := Product(NextId(after, ProductKey), b, "Cake", 400.0, 5.0, 50.0, 20.0);
    MealOfUnique([breakfast], 0);
    ProductOfUnique([oats], 0);
    ProductOfUnique([cake], 0);
    assert after + [cake] == [cake];
    assert OnDay(c, [breakfast], a, d);
    assert Selected([c], [breakfast], a, d) == [c];
    assert SumRows([c], [cake]) == Zero.Add(Contribution(cake, 50.0));
  }
}

/**
 * The four tables of the application as row datatypes. Ids are the integer
 * primary keys; a meal's date is a day number (larger is later). The
 * creation timestamps are not modelled.
 */
module Records {
  datatype User = User(
    id: nat,
    username: string,
    email: string,
    passwordHash: string,
    isAdmin: bool,
    isApproved: bool)

  /** A reusable nutritional reference, with its four rates per 100 grams. */
  datatype Product = Product(
    id: nat,
    userId: nat,
    name: string,
    caloriesPer100g: real,
    proteinPer100g: real,
    carbsPer100g: real,
    fatPer100g: real)

  datatype Meal = Meal(id: nat, userId: nat, date: int, name: string)

  /** One quantity (in grams) of a product eaten as part of a meal. */
  datatype Consumption = Consumption(id: nat, userId: nat, mealId: nat, productId: nat, quantityG: real)

  function UserKey(u: User): nat { u.id }
  function UsernameKey(u: User): string { u.username }
  function EmailKey(u: User): string { u.email }
  function ProductKey(p: Product): nat { p.id }
  function MealKey(m: Meal): nat { m.id }
  function ConsumptionKey(c: Consumption): nat { c.id }
}

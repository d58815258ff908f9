# MacroTracker core in Dafny

MacroTracker is a small Flask application for logging nutrition. Users record
products with their calories, protein, carbohydrate and fat per 100 g. They
group what they eat into dated meals, and they read daily totals and a
history of the fourteen most recent days with meals. An administrator approves each new account before it can
log in.

This project models the application's logic in `app.py` as an in-memory store
that stands in for the four database tables:

- `records.dfy`: the four row types (`User`, `Product`, `Meal`, `Consumption`) of the schema at `app.py:31-74`, one field per column except the creation timestamps, and their key functions.
- `rows.dfy`: generic table helpers. `FirstIndex`/`First` stand for `.filter(...).first()`. `NextId` is the key a new row gets. `RemoveAt` deletes one row.
- `text.dfy`: Python's `str.strip()` (the full `str.isspace` set) and `str.lower()` (ASCII letters), plus the email normalisation that signup and login share.
- `nutrition.dfy`: the totals aggregator as a specification. `Selected` is the joined query. `DayTotals` is the sum of the contributions of the selected rows. The lemmas give its zero case, additivity, indifference to other users' and other days' rows, the effect of logging one more row, non-negativity, and the worked example (150 g of a 200/10/20/5 product gives 300/15/30/7.5).
- `history_dates.dfy`: the history query's dates. They are distinct, newest first, and at most 14. `IsRecentDates` is an independent specification of them, and `RecentDatesUnique` proves that it picks exactly one sequence.
- `accounts.dfy`: the checks of `signup` and `login`, the `admin_required` gate, the approval, and the default-admin seeding, all as functions of the users table. The lemmas include the signup, approve, login round trip.
- `tracker.dfy`: `class Store` with the four tables as `seq` fields and one method per route handler. The two loops of the source are methods proved against the specification functions: the running sums of `totals_for_date` (`SumConsumptions`, which `Store.TotalsForDate` calls on the selected rows) and the `per_day` list of `history`.

Modelling decisions, in the system's own terms:

- The session's user is a parameter (`u`, or `current: Option<nat>` for the admin gate). A rejected request changes nothing and returns a result tag (`FieldsRequired`, `AlreadyExists`, `AdminRequired`, `ProductNotFound`, ...), in place of a flash message, a re-rendered form or a 404.
- Password hashing is salted, so it uses randomness. `Signup` takes the hash function `hashOf` as a parameter, and `Login` takes the hash verifier `check(storedHash, password)` as a parameter.
- Quantities and rates are exact `real`s. A date is an `int` day number, and a larger number is a later day.
- New keys follow SQLite's rule for an `INTEGER PRIMARY KEY` without AUTOINCREMENT, since the default database is SQLite: one more than the largest key, or 1 for an empty table.
- `Store.Valid()` holds the primary keys of all tables and the unique username and email columns. `Store.Intact()` says every consumption's meal and product exist and belong to the consumption's user. Every method keeps `Valid()`. Every method except the as-written `ProductDelete` keeps `Intact()`.
- `totals_for_date` reads `c.product` for each selected row. When that product has been deleted, the source raises. So `TotalsForDate` requires `Resolvable` (every selected row's product loads) and `History` requires it for each date it shows. A store whose every consumption loads its product meets both (`LoadableResolvable`), and any `Intact()` store is one (`RefsOwnedLoadable`).
- Where the code's behaviour may surprise, the model follows the code:
  - Signup strips the password before hashing it, but login checks the raw password (`PaddedPasswordNeedsStripping`).
  - The seeded admin's email is stored as configured, not lower-cased (`MixedCaseAdminEmailLocksOut`).
  - Product rates and quantities are not checked to be non-negative.
  - Unparseable numbers raise rather than default to 0 (parsing is left out).

## Model

| member | source | states |
|---|---|---|
| Rows.FirstIndex | app.py:173 | the index found holds the first row satisfying the filter; None exactly when no row does |
| Rows.First | app.py:155 | a row is found exactly when some row satisfies the filter, and it is a row of the table that satisfies it |
| Rows.FirstAppend | app.py:123 | a row appended at the end does not change the row a lookup that already succeeds finds |
| Rows.UniqueKeys | app.py:32 | no two rows of the table share a key: an integer primary key, or a `unique=True` column |
| Rows.NextId | app.py:32 | the new key is positive, larger than every key in the table, and either 1 or one more than an existing key |
| Rows.RemoveAt | app.py:289 | the table loses exactly the row at the index, and the other rows keep their order |
| Rows.AppendFreshKey | app.py:161 | adding a row with the next key keeps the keys unique |
| Rows.RemoveAtKeepsUnique | app.py:289 | deleting a row keeps the keys unique |
| Text.TrimStart | app.py:147 | what is removed from the front is whitespace, and the result does not start with whitespace |
| Text.TrimEnd | app.py:147 | what is removed from the end is whitespace, and the result does not end with whitespace |
| Text.Strip | app.py:147-149 | the result is empty exactly when the field is all whitespace; otherwise it neither starts nor ends with whitespace |
| Text.StripIdempotent | app.py:147 | stripping twice is stripping once |
| Text.Lower | app.py:148 | no upper-case ASCII letter remains, each such letter becomes its lower-case form, and every other character is kept |
| Text.NormalizeEmail | app.py:148 | the email as signup stores it, and as login (line 171) looks it up: stripped, then ASCII lower-cased; its properties are stated by NormalizeIdempotent, NormalizedIsLowerCase and NormalizeBlank |
| Text.NormalizeIdempotent | app.py:171 | an email as stored by signup is found again when typed in at login |
| Text.LowerIdempotent | app.py:148 | lower-casing twice is lower-casing once |
| Text.LowerKeepsStripped | app.py:148 | lower-casing a stripped value keeps it stripped |
| Text.NormalizedIsLowerCase | app.py:171 | the email login looks up holds no upper-case ASCII letter |
| Text.NormalizeBlank | app.py:148-151 | the normalised email is blank exactly when the typed one is |
| Nutrition.Selected | app.py:121-125 | the selected rows are exactly the user's consumptions whose meal is on the date |
| Nutrition.OnDay | app.py:121-125 | the query's filter: the consumption is the user's, and its joined meal exists and is on the date |
| Nutrition.MealOf | app.py:123 | the join finds a meal exactly when one has the consumption's meal id, and the meal found has it |
| Nutrition.ProductOf | app.py:134 | `c.product` loads exactly when a product has the consumption's product id, and the product loaded has it |
| Nutrition.Resolvable | app.py:134 | the day can be totalled: each selected row's product loads, and otherwise the source raises |
| Nutrition.Contribution | app.py:133-137 | each rate times quantity / 100: 100 g contribute exactly the per-100 g rates, and 0 g contribute nothing |
| Nutrition.SumRows | app.py:132-137 | the four running sums over the rows, each row adding its own product's contribution |
| Nutrition.DayTotals | app.py:119-138 | the returned totals of `totals_for_date`: the sum over the selected rows, fixed by the DayTotals lemmas below |
| Nutrition.SelectedAppend | app.py:121-125 | the query over two parts of the table is the query over each, in table order |
| Nutrition.SumRowsAppend | app.py:132-137 | the sum over two lists of rows adds the sums over each |
| Nutrition.SumRowsStep | app.py:132-137 | the sum over the first i + 1 rows is the sum over the first i plus row i's contribution |
| Nutrition.DayTotalsZero | app.py:126-131 | with no consumption of the user on that day (say only empty meals), all four totals are 0 |
| Nutrition.DayTotalsAppend | app.py:132-137 | the totals over two parts of the table add up to the totals over the whole |
| Nutrition.DayTotalsIgnoresOthers | app.py:121-125 | a consumption of another user, or of a meal on another day, changes no total |
| Nutrition.DayTotalsAfterLog | app.py:132-137 | one more consumption adds exactly rate × quantity / 100 for each nutrient to its own user's day, and changes no other day or user |
| Nutrition.SumRowsNonNegative | app.py:133-137 | non-negative rates and quantities give non-negative totals |
| Nutrition.ContributionNonNegative | app.py:133-137 | non-negative rates and quantity contribute non-negative amounts |
| Nutrition.WorkedExample | app.py:133-137 | 150 g of a product with 200/10/20/5 per 100 g gives 300, 15, 30 and 7.5 |
| Nutrition.MealOfUnique | app.py:123 | with unique meal ids, the join reaches the one meal with the consumption's meal id |
| Nutrition.ProductOfUnique | app.py:77 | with unique product ids, `c.product` is the one product with the consumption's product id |
| Nutrition.MealOfAppend | app.py:123 | a new meal does not change the meal an existing consumption's meal id joins |
| Nutrition.ProductOfAppend | app.py:134 | a new product does not change the product an existing consumption's product id loads |
| HistoryDates.InsertDesc | app.py:242-243 | adding a date keeps the list strictly descending and adds that date and nothing else |
| HistoryDates.UserDates | app.py:240-243 | strictly descending, and it holds exactly the dates of the user's meals |
| HistoryDates.RecentDates | app.py:240-246 | at most 14 dates, strictly descending, each a date of one of the user's meals; a meal date left out is older than all those shown and is left out only when 14 are shown |
| HistoryDates.IsRecentDates | app.py:240-245 | the history query's answer, stated independently: at most 14 distinct meal dates of the user, newest first, leaving out only older dates and only when 14 are shown |
| HistoryDates.RecentDatesUnique | app.py:240-246 | that specification has exactly one solution, so the dates of the history page are fully determined |
| HistoryDates.PrefixOfDesc | app.py:243-244 | a newest-first list of distinct meal dates that leaves out only older dates is a prefix of all the dates, newest first |
| Accounts.UsersValid | app.py:32-34 | the users table's invariant: ids, usernames and emails are each unique, as the primary key and the two `unique=True` columns demand |
| Accounts.SignupDecision | app.py:147-157 | rejects exactly when a stripped field is blank, then exactly when an existing user has the lower-cased email or the stripped username; otherwise the new id is the next key |
| Accounts.UserClash | app.py:155 | a user is found exactly when some user has the email or the username, and it is such a user |
| Accounts.NewUser | app.py:159-161 | the new row's key is larger than every existing user's, and it is neither admin nor approved |
| Accounts.SignupUsers | app.py:159-161 | a rejected signup leaves the table as it was; a successful one appends exactly one user with the new id, the stripped username, the lower-cased email and the hash of the stripped password, not admin and not approved |
| Accounts.SignupKeepsValid | app.py:155-161 | signup keeps user ids, usernames and emails unique |
| Accounts.Login | app.py:171-180 | succeeds only for an approved user with the lower-cased email whose hash accepts the password; pending only for such a user that is not approved; with no user with that email, invalid credentials |
| Accounts.UserByEmail | app.py:173 | a user is found exactly when some user has that exact email, and it is such a user |
| Accounts.LoginByEmail | app.py:173-180 | with unique emails, the outcome follows the one user with that email: wrong password gives invalid, unapproved gives pending, and otherwise that user logs in |
| Accounts.AdminAllowed | app.py:88-94 | lets a session through only when it is bound to a stored user who is an admin; never without a session |
| Accounts.AdminAllowedExactly | app.py:91 | with unique ids, the gate lets a user's session through exactly when that user is an admin |
| Accounts.UserIndex | app.py:207 | the index found holds a user with that id; none exactly when no user has it |
| Accounts.UserIndexUnique | app.py:207 | with unique ids, `get(id)` finds the one user with that id |
| Accounts.UserByEmailUnique | app.py:173 | with unique emails, the lookup finds the one user with that email |
| Accounts.ApproveUsers | app.py:207-208 | every user either is unchanged or has the target id and only its approval flag set; with no such user, nothing changes |
| Accounts.ApproveTarget | app.py:207-208 | with unique ids, approving changes exactly the target user's approval flag |
| Accounts.ApproveIdempotent | app.py:208 | approving twice is approving once |
| Accounts.ApproveKeepsValid | app.py:208 | approval keeps user ids, usernames and emails unique |
| Accounts.SignupApproveLogin | app.py:159-180 | a new user is pending after signup and logs in with the same email and (stripped) password once approved |
| Accounts.PaddedPasswordNeedsStripping | app.py:149-174 | with a verifier that accepts exactly the hashed password, a password with surrounding whitespace is refused at login as typed and accepted only when stripped |
| Accounts.BootstrapUsers | app.py:104-112 | afterwards some user is an admin; when one already was, nothing changes; otherwise exactly one approved admin with the next key and the configured email, username and hash is appended and every existing user is kept |
| Accounts.BootstrapIdempotent | app.py:104-105 | seeding a second time changes nothing |
| Accounts.HasAdmin | app.py:104 | some user is an admin |
| Accounts.BootstrapAdminLogsIn | app.py:104-112 | the seeded admin keeps the table valid, logs in with the configured lower-case email and password, and passes the admin gate |
| Accounts.MixedCaseAdminEmailLocksOut | app.py:106-109 | a configured admin email with an upper-case letter never lets the seeded admin log in |
| Tracker.RefOwned | app.py:70-72 | the consumption's meal and product rows exist, as its two foreign keys declare, and both belong to the consumption's own user |
| Tracker.RefsOwned | app.py:70-72 | every consumption of the table meets RefOwned |
| Tracker.LoadableResolvable | app.py:134 | when every consumption's product exists, every day's totals can be computed |
| Tracker.RefsOwnedLoadable | app.py:134 | in a store whose references are intact, every consumption's product exists |
| Tracker.KeepRefsOnProductAppend | app.py:275-279 | when every consumption's meal and product exist and are its user's, appending a product with the next key keeps that so; a consumption whose product loads still loads the same product (a dangling reference, whose product was deleted, can start loading the new one) |
| Tracker.KeepRefsOnMealAppend | app.py:315-317 | when every consumption's meal and product exist and are its user's, appending a meal with the next key keeps that so; a consumption whose meal exists still joins the same meal (a dangling reference can start joining the new one) |
| Tracker.KeepRefsOnProductRemove | app.py:288-289 | deleting a product that no consumption refers to keeps every reference intact |
| Tracker.OwnedRefs | app.py:332-334 | a consumption built from the owned meal and product refers to both, as its own user's |
| Tracker.RemoveOwned | app.py:288-289 | deleting the row found by id and owner removes exactly the products with that id and owner |
| Tracker.OwnedProductIndex | app.py:288 | the index found holds a product with that id owned by the user; none exactly when there is no such product |
| Tracker.OwnedProduct | app.py:333 | a product is found exactly when the user owns one with that id, and it is that product |
| Tracker.OwnedMeal | app.py:332 | a meal is found exactly when the user owns one with that id, and it is that meal |
| Tracker.DeleteReferencedBreaksTotals | app.py:288-289 | deleting a product that a consumption refers to means that user's totals for that day cannot be computed |
| Tracker.DeletedIdIsReused | app.py:275-289 | after a user deletes the table's only product while a consumption refers to it, another user's next product gets the same id, and the first user's totals count it |
| Tracker.Store.Valid | app.py:32-69 | the store's schema invariant: the primary keys of all four tables are unique, and so are the users' usernames and emails; every handler requires it and keeps it |
| Tracker.Store.Intact | app.py:70-72 | the referential invariant: every consumption's meal and product exist, as its foreign keys declare (SQLite does not enforce them by default), and are its user's, as the owner-scoped lookups of `consumption_new` ensure; every handler but ProductDelete keeps it (see Findings) |
| Tracker.Store.constructor | app.py:102 | the store starts with four empty tables, valid and intact |
| Tracker.Store.Bootstrap | app.py:101-113 | the users table becomes the seeded table; the other tables do not change |
| Tracker.Store.Signup | app.py:145-164 | the outcome is the signup decision; on success exactly one unapproved non-admin user is appended; on rejection nothing changes |
| Tracker.Store.AdminApprove | app.py:204-211 | a non-admin session or an unknown id changes nothing; otherwise the target user alone becomes approved |
| Tracker.Store.ProductNew | app.py:265-281 | a blank name adds nothing; otherwise exactly one product of the session's user, with the stripped name and the given rates, is appended |
| Tracker.Store.ProductDelete | app.py:287-292 | removes exactly the product with that id owned by the session's user, or nothing; consumptions are left as they are |
| Tracker.Store.ProductDeleteGuarded | app.py:287-292 | as ProductDelete, but refuses while a consumption refers to the product, and so keeps every reference intact |
| Tracker.Store.MealNew | app.py:307-319 | appends exactly one meal of the session's user on the given day, named "Meal" when the name is blank |
| Tracker.Store.ConsumptionNew | app.py:325-338 | adds a row only when the meal and then the product exist and are the session user's; the row refers to both and is that user's; otherwise nothing changes |
| Tracker.Store.TotalsForDate | app.py:119-138 | runs the joined query and sums the selected rows; the result is the day's totals |
| Tracker.SumConsumptions | app.py:126-138 | four running sums that start at 0, each row adding its product's contribution, end equal to the sum over all the rows |
| Tracker.Store.History | app.py:237-250 | one entry per history date, in order (at most 14, strictly descending), each with that day's totals |

## Left out

- HTTP plumbing is not modelled: routing, templates, `flash`, redirects and the 404 responses. Each becomes a result tag with an unchanged store.
- Sessions are not modelled: Flask-Login, `load_user`, `login_user`, `logout` and the `login_required` decorator. The session's user is a parameter. A successful `Login` returns the user id that `login_user` would bind.
- Password hashing is not modelled: `generate_password_hash` and `check_password_hash` are the parameters `hashOf` and `check`.
- Form parsing is not modelled: `float(...)`, `int(...)` and `strptime`. `meal_new`'s `date.today()` fallback reads a clock, so `MealNew` takes an already-parsed date. The `created_at` timestamps come from the clock and are not modelled.
- Float rounding is not modelled: sums are exact `real`s.
- The listing routes only query and render: `admin_pending`, `admin_users`, `products`, `meals`, the lists on the dashboard, and the selection lists of the consumption form. The dashboard's totals are `TotalsForDate` for today's date.
- The seeding's reading of environment variables and its `print` are not modelled. `Store.Bootstrap` takes the configured values.
- Tracker.Store.Bootstrap: requires that, when no admin exists, the configured email and username are not taken. In that case the source's commit (app.py:112) violates a unique constraint and raises at start-up, which the model does not represent.
- Enforcement of foreign keys by the database is not modelled. The default SQLite database does not enforce them, so deleting a referenced product succeeds, as modelled. A database that enforces them would refuse the delete.
- Concurrency and transactions are not modelled: each handler is one atomic method.
- Text.Lower: lower-cases only the ASCII letters A–Z, while Python's `str.lower` maps every Unicode letter.
- Tracker.Store.History: states the totals of the shown days as `DayTotals`. It does not model the order in which the database returns the rows of one day, which does not change an exact sum.

## Findings

| source | as written | input that shows it | evidently intended | confidence | as-written member | corrected member |
|---|---|---|---|---|---|---|
| app.py:285-292 | `product_delete` deletes a product while consumptions still refer to it. `totals_for_date` (app.py:134) then reads a missing product for those rows and raises. Under SQLite's key rule, when the deleted product had the table's largest key (for instance it was the only one), the next product created, by any user, takes that key, and the old consumptions then count that product. | User A owns product 1, the table's only product, and logs 50 g of it in a meal on day d. A deletes product 1, so A's totals for day d raise. User B then creates a product, which gets key 1, and A's totals for day d count B's product. | A product in use is not deleted, so every consumption keeps a loadable product of its own user. | medium, not executed | Tracker.DeleteReferencedBreaksTotals, Tracker.DeletedIdIsReused | Tracker.Store.ProductDeleteGuarded |

`ProductDelete` models the code as written. `ProductDeleteGuarded` keeps `Intact()`, as every other method does. So a store driven through it meets the `Resolvable` preconditions of `TotalsForDate` and `History` on every day (`RefsOwnedLoadable`, `LoadableResolvable`).

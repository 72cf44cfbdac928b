# Stock ledger and order creation of a restaurant point-of-sale backend

This project models the stock ledger and order rules of an Express and
Sequelize backend for a restaurant point of sale. The model is in Dafny.

The database is a class, `Store.Db`. Its fields are:

- the products table, a `map` from primary key to row;
- the orders, order_items and users tables, as sequences;
- the auto-increment counter of each table.

Each HTTP handler that writes is a module-level method that takes the
database as a parameter, `db: Db`. Its `modifies` clause names only the
fields of `db` it touches. Its `ensures` clause ties the new tables and the
reply to a pure specification function, and the properties are proved about
those functions. Money columns (price, total, totalAmount) are integer cents.

The modules:

- `Models` (models.dfy) covers `backend/models/product.js` and
  `backend/models/orderItem.js`:
  - the row shapes;
  - the stock default of 0;
  - the DECIMAL(10, 2) price range;
  - the delete rules: set-null for a product's category, cascade for an
    order's items and for a product's items.
- `Store` (store.dfy) holds the tables and the key counters. `Valid()` says
  that products sit under their own key and that every key handed out lies
  below its counter, and no two users share an email.
- `Stock` (stock.dfy) covers `backend/routes/stock.js`:
  - the validated stock override, `PUT /:id`;
  - the checked sale decrement, `POST /decrease/:id`;
  - the listing ordered by name, `GET /`.

  It also has the unordered listing of `GET /stock` in `backend/index.js`.
- `Orders` (orders.dfy) covers `POST /orders` in `backend/routes/orders.js`,
  as written:
  - the order row is written first, with the sum of the requested totals;
  - then the requested items are processed one at a time;
  - each step re-reads its product, checks the stock, decrements it and
    appends an order item;
  - an unknown product or a short stock ends the process early, and the order
    row and the earlier steps stay written.

  The specification function is a left fold, `PlaceItems`. The handler's loop
  keeps the invariant that the state so far equals the fold over the prefix
  already processed.
- `App` (app.dfy) covers the handlers written in `backend/index.js`:
  - login and register over the users table;
  - product creation with its field checks;
  - the unvalidated stock override `PUT /stock/:id`.
- `Routing` (routing.dfy) models the order in which `backend/index.js`
  registers its routes and mounts its routers. Express answers a request
  with the first registered route that accepts it.

Two behaviours of the code are worth stating outright, and the model
follows them:

- **Order creation uses no transaction.** A failing item leaves the order
  row and the earlier items' effects in place.
- **Deleting a product cascades to its order items.** The schema declares
  `order_items.productId` with `ON DELETE CASCADE`, so the product's items
  are deleted with it.

## Model

| member | source | states |
|---|---|---|
| Models.Falsy | backend/index.js:83 | defines JavaScript falsiness of a body field: absent, the number 0, or the empty string |
| Models.PriceFits | backend/models/product.js:12-15 | defines the DECIMAL(10, 2) price range: at most ten digits of cents |
| Models.NewProduct | backend/models/product.js:26-30 | defines the row Product.create writes when no stock is passed: stock takes its default 0 |
| Models.DeleteCategory | backend/models/product.js:16-25 | deleting a category keeps every product; the products that named it now have a null category; every other field and every other product is unchanged |
| Models.DeleteOrder | backend/models/orderItem.js:3-10 | deleting an order removes that order and exactly the order items that name it; every other row keeps its multiplicity |
| Models.DeleteProduct | backend/models/orderItem.js:12-19 | deleting a product removes it and exactly the order items that reference it; the other products are unchanged |
| Models.DeleteOrderKeepsReferences | backend/models/orderItem.js:3-10 | if every item named an existing order before the cascade, it still does after it, and no remaining item names the deleted order |
| Models.DeleteProductKeepsReferences | backend/models/orderItem.js:12-19 | the cascade keeps the order_items.productId reference valid |
| Store.Db.constructor | backend/models/product.js:3-7 | an empty store satisfies the key invariant, with every auto-increment counter at 1 |
| Stock.SetStockSpec | backend/routes/stock.js:21-49 | refuses a stock that is absent, not a number or negative (iff), with no change; reports a missing product (iff) with no change; a numeric non-negative stock on an existing product succeeds, and success sets exactly that product's stock to the given value, keeps its other fields and every other product, and replies with the new (id, name, stock); non-negative stock is preserved |
| Stock.SetStock | backend/routes/stock.js:21-49 | the in-place handler leaves the table and the reply that SetStockSpec gives, and keeps the store invariant |
| Stock.DecreaseSpec | backend/routes/stock.js:58-83 | refuses a quantity that is falsy, not a number or not positive (iff); reports a missing product (iff); reports insufficient stock exactly when stock < quantity; every refusal changes nothing; a positive quantity on an existing product with enough stock succeeds, and a sale sets the stock to old − quantity, which is ≥ 0, changes no other field or product, and replies with the stored new stock |
| Stock.DecreaseStock | backend/routes/stock.js:58-83 | the in-place handler leaves the table and the reply that DecreaseSpec gives |
| Stock.RowsById | backend/index.js:132-137 | GET /stock in index.js lists every product once as (id, name, stock), each row equal to that product's values (order fixed by the model to ascending id) |
| Stock.SortByNameCorrect | backend/routes/stock.js:8-11 | the insertion sort by name gives a permutation of its input, ordered by name |
| Stock.StockListing | backend/routes/stock.js:6-13 | the router's listing is ordered by name ascending and is a permutation of the listing by key |
| Stock.ListingHoldsEachProductOnce | backend/routes/stock.js:6-13 | the listing has one row per product, each product's (id, name, stock) appears exactly once, and every row is some product's current values |
| Orders.SumTotals | backend/routes/orders.js:15 | defines totalAmount: the requested totals summed from the left, as the `reduce` does |
| Orders.Step | backend/routes/orders.js:19-38 | defines one turn of the loop: after a failure nothing happens; an unknown product or a stock below the quantity fails naming the id or the product; otherwise the product's stock drops by the quantity and one order item with the next item id is appended |
| Orders.PlaceItems | backend/routes/orders.js:19-39 | processing the items in order: a run that does not fail creates one order item per request, and a failing run stops short of the end |
| Orders.PlaceItemsAfterFailure | backend/routes/orders.js:21-25 | after the early return at item k nothing more happens: the run over the whole request equals the run over its first k items |
| Orders.PlaceItemsShape | backend/routes/orders.js:19-38 | the j-th created item carries the j-th fresh item id and the new order's id, and copies productId, quantity and total from the j-th request; an unknown product stops the run at the first request naming a missing product and the error names that id; a stock shortfall stops it at the first request whose product has less stock than asked for, and the error names that product |
| Orders.PlaceItemsKeepsKeys | backend/routes/orders.js:29-30 | the run keeps the products table's keys and each row under its own key |
| Orders.PlaceItemsKeepsTables | backend/routes/orders.js:29-38 | the rows and counters the run leaves satisfy the store's key invariant |
| Orders.PlaceOrderItems | backend/routes/orders.js:19-39 | the handler's loop leaves the products, the appended items, the item counter and the failure that PlaceItems gives |
| Orders.CreateOrder | backend/routes/orders.js:7-41 | appends the order row with totalAmount = sum of the requested totals before any item is examined; the row stays even when an item fails; products and items end as PlaceItems gives; replies with the order or the failure; keeps the store invariant |
| Orders.PlaceItemsStock | backend/routes/orders.js:24-30 | each product ends with its starting stock minus exactly the units the applied prefix of the request asked of it, and with its other fields unchanged; the failing item and later items change nothing |
| Orders.PlaceItemsNeverOverdraws | backend/routes/orders.js:19-30 | even when a product repeats in the request, a product touched by the applied steps ends with stock ≥ 0 and gave up no more units than it had; an untouched product is unchanged |
| Orders.PlaceItemsKeepsStockNonNegative | backend/routes/orders.js:24-30 | a products table without negative stock has none after the run |
| Orders.PlaceItemsTotals | backend/routes/orders.js:15-38 | the created items' totals sum to the requested totals of the applied prefix |
| Orders.CompleteOrderMatchesTotal | backend/routes/orders.js:15-41 | on full success there is one item per request and their totals sum to the order's totalAmount |
| Orders.PlaceItemsKeepsReferences | backend/routes/orders.js:33-38 | the new items name the new order and existing products, so both foreign keys of order_items keep holding |
| Orders.RepeatedProductCannotOverdraw | backend/routes/orders.js:19-30 | two requests of 3 units of a product with stock 5: the first is applied, the second sees 2 and fails naming the product, and one item is created |
| Orders.NegativeQuantityRaisesStock | backend/routes/orders.js:24-30 | no quantity validation: a negative quantity passes the stock check, creates its item and raises the stock |
| App.FindByEmail | backend/index.js:34 | the position of the first user with that email, or none exactly when no user has it |
| App.Login | backend/index.js:30-46 | user not found exactly when no user has the email; success only for a stored user with that email and that password; a wrong password only when a user with that email has a different one |
| App.LoginExactMatch | backend/index.js:34-46 | when emails are unique, login succeeds exactly when some user has both the given email and the given password |
| App.RegisterSpec | backend/index.js:54-71 | refuses exactly when the email is already registered, changing nothing; otherwise appends exactly one user with the next key and the given username, email and password |
| App.Register | backend/index.js:54-71 | the handler leaves the users table and the reply that RegisterSpec gives, advances the counter only on success, and gives the new user a key no existing user has |
| App.RegisterKeepsEmailsUnique | backend/index.js:58-69 | registering keeps emails unique |
| App.RegisterThenLogin | backend/index.js:30-69 | after a successful registration, login with the same email and password returns the new user, and registering that email again is refused |
| App.MissingField | backend/index.js:83-85 | defines the `!name \|\| !price \|\| !categoryId` test: an absent or empty name, an absent or zero price, or a falsy category |
| App.IsNaN | backend/index.js:88-90 | defines the isNaN test on the category: absent is not numeric, a number is numeric, a string is numeric when it is a run of decimal digits |
| App.ParseInt | backend/index.js:96 | parseInt of a number is that number; of a digit string, a non-negative value |
| App.DigitsValueShow | backend/index.js:96 | reading a digit string back inverts the decimal rendering: the value of Show(n) is n for every n ≥ 0 |
| App.ParseIntShow | backend/index.js:88-96 | the decimal rendering of any n ≥ 0 passes the isNaN check and parseInt gives back n |
| App.CreateProductSpec | backend/index.js:78-99 | refuses as missing exactly when the name, price or category is falsy; refuses the category exactly when it passes that check but is not numeric; the insert is refused exactly when the price does not fit DECIMAL(10, 2); refusals change nothing; a request passing all three succeeds, and success inserts one product under the next key with the given name, price and parsed category and stock 0 |
| App.CreateProduct | backend/index.js:78-99 | the handler leaves the table and the reply that CreateProductSpec gives and advances the key counter only on success |
| App.CreateProductFreshKey | backend/models/product.js:3-7 | a created product takes a key no product holds, the earlier products are unchanged, and the table stays keyed by id without negative stock |
| App.CategoryZeroAsText | backend/index.js:83-96 | the number 0 is refused as a missing category, but the string "0" passes both checks and is stored as category 0 |
| App.OverrideStockSpec | backend/index.js:145-154 | the product with that key, if any, takes the given stock unchecked; every other product and field is unchanged; no match changes nothing and is not an error |
| App.OverrideStock | backend/index.js:145-154 | the handler leaves the table that OverrideStockSpec gives |
| App.OverrideAdmitsNegativeStock | backend/index.js:145-154 | the override stores a negative stock and breaks non-negativity, while the router's validated handler refuses the same value and changes nothing |
| Routing.AppRoutes | backend/index.js:30-159 | defines the routes index.js declares itself, in declaration order: login, register, products, faturamento, GET /stock, PUT /stock/:id |
| Routing.OrdersRouter | backend/routes/orders.js:7 | defines the orders router: POST / to order creation |
| Routing.StockRouter | backend/routes/stock.js:6-58 | defines the stock router in order: GET / (listing by name), PUT /:id (validated override), POST /decrease/:id (sale) |
| Routing.Registered | backend/index.js:30-169 | defines the whole registration: the routes of index.js, then the other routers, then /orders, then /stock |
| Routing.FirstMatch | backend/index.js:30-169 | the first registered route whose verb and path pattern accept the request, or none exactly when no route accepts it |
| Routing.MountDispatch | backend/index.js:164-169 | a mounted router answers a request exactly when the first segment is its prefix, and then as the router answers the rest of the path |
| Routing.DispatchAppend | backend/index.js:30-169 | routes registered earlier are tried first: a request that an earlier group accepts is answered by that group |
| Routing.OtherRoutersSkip | backend/index.js:164-167 | the categories, products, clients and totalSales routers answer nothing under /stock or /orders |
| Routing.IndexListingAnswersFirst | backend/index.js:132-169 | GET /stock is answered by the unordered listing of index.js |
| Routing.IndexOverrideAnswersFirst | backend/index.js:145-169 | PUT /stock/:id is answered by the unvalidated override of index.js |
| Routing.RouterStockHandlersUnreached | backend/index.js:132-169 | no request reaches the router's name-ordered listing or its validated override |
| Routing.RouterDecreaseReached | backend/index.js:169 | POST /stock/decrease/:id is answered by the router's checked decrement |
| Routing.RouterCreateOrderReached | backend/index.js:168 | POST /orders is answered by order creation |
| Routing.IntendedStockListing | backend/routes/stock.js:6-11 | without the two stock routes of index.js, GET /stock is answered by the name-ordered listing |
| Routing.IntendedStockOverride | backend/routes/stock.js:21-29 | without the two stock routes of index.js, PUT /stock/:id is answered by the validated override |
| Routing.PutStockAsWrittenStoresNegative | backend/index.js:145-159 | as registered, PUT /stock/:id with a negative stock stores it |
| Routing.PutStockIntendedKeepsStockNonNegative | backend/routes/stock.js:21-40 | with the router answering, PUT /stock/:id behaves as SetStockSpec: a table without negative stock keeps none, and a negative value changes nothing |

## Left out

- HTTP status codes, the JSON shape of replies, and the setup of Express, cors and helmet and `app.listen`. Replies are result or error values.
- `catch` blocks that answer 500 when the database throws are not modelled. This covers a missing `items` array, where `items.reduce` throws before the order row is written. It also covers a missing email in login or register.
- Transactions, row locks and concurrent requests. No handler uses a transaction. The model is sequential, so the overdraw that two parallel requests could cause is not covered.
- Floating point. Prices, totals and totalAmount are integer cents. `parseFloat` of the price is not modelled: the price arrives as cents. JavaScript string concatenation in the totals `reduce`, when a total arrives as a string, is not modelled either.
- App.IsNaN, App.ParseInt: a numeric string is taken to be a non-empty run of decimal digits. The whitespace, sign, decimal point, exponent and hexadecimal forms that `isNaN` and `parseInt` also accept are not modelled.
- App.CreateProductSpec: the categories table is not part of this model, so the category foreign key is not checked on insert. A negative price or category is accepted, as the code accepts it. The refusal of a price outside DECIMAL(10, 2) stands for the database's insert error.
- Stock.SetStockSpec: the body's stock is an integer. The `typeof stock === 'number'` check also accepts a fractional number such as 2.5, which is not modelled.
- Stock.DecreaseSpec: the body's quantity is an integer. A fractional quantity such as 0.5, which the `typeof` check accepts, is not modelled.
- Orders.ItemRequest: each item's quantity is an integer. Fractional or non-numeric quantities in the request items are not modelled.
- App.ParseInt: the contract ties the value of a digit string to its decimal rendering only (App.ParseIntShow). A string with leading zeros is read by the same digit-by-digit definition, but no separate contract states its value.
- App.OverrideStock: the body's stock is taken as an integer. An absent, null or string stock is not modelled.
- Stock.RowsById: `GET /stock` in index.js specifies no order. The model fixes ascending key order.
- Stock.StockListing: names compare by character code. The database's collation is not modelled. Rows with equal names keep an order of the model's choosing.
- App.FindByEmail: `findOne` with no ORDER BY is taken to return the first row in table order. Emails compare exactly, character by character. The database's collation is not modelled: under a case-insensitive collation, such as MySQL's default, `A@x.com` would find `a@x.com`. App.Login and App.RegisterSpec inherit this exact comparison.
- Route parameters are taken to name a key directly. Express's case-insensitive matching, trailing slashes and query strings are not modelled.
- The categories router, and the products, clients and totalSales routers, are not part of this model. Routing only assumes that each lies under its own prefix.
- `/faturamento` is not modelled (a date-range sum of floating-point values). Routing lists it only as a registered route.
- The Order and User model definitions are not part of this model. Their rows carry the fields the handlers write.
- Timestamps (`createdAt`, `updatedAt`) are not modelled.
- Password hashing is not modelled: the code compares plain text, and so does the model.
- A failed insert that consumes an auto-increment value is not modelled: counters advance only on success.
- Adding, decrementing or removing items of an existing order is not modelled. No handler among these files does it.

## Findings

| source | as written | input that shows it | evidently intended | confidence | as-written member | corrected member |
|---|---|---|---|---|---|---|
| backend/index.js:145-159 | index.js registers `PUT /stock/:id` with an unchecked `Product.update` before it mounts the stock router (line 169). That route answers, so the router's validated override is never reached | `PUT /stock/1` with body `{"stock": -5}`, product 1 present: stock becomes -5 | the validated override of backend/routes/stock.js:21-55 answers, refusing an absent, non-numeric or negative stock | medium; not executed | Routing.PutStockAsWrittenStoresNegative | Routing.PutStockIntendedKeepsStockNonNegative |

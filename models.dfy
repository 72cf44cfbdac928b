/** Row shapes of the store's tables and the rules the schema attaches to
    them: the Product table (backend/models/product.js), the OrderItem table
    (backend/models/orderItem.js), and the Order and User rows the handlers
    create.  Money columns (price, total, totalAmount) are integer cents. */
module Models {

  datatype Option<+T> = None | Some(value: T)

  datatype Result<+T, +E> = Ok(value: T) | Err(error: E)

  /** A field of a JSON request body as the handlers test it: absent, an
      integer, or a string. */
  datatype Value = Missing | Num(n: int) | Text(s: string)

  /** JavaScript falsiness of a body field: `undefined`, `0` and `""`. */
  predicate Falsy(v: Value) {
    v.Missing? || v == Num(0) || v == Text("")
  }

  /** A products row.  `categoryId` is nullable: it becomes null when the
      category it names is deleted. */
  datatype Product = Product(id: int, name: string, price: int, categoryId: Option<int>, stock: int)

  datatype Order = Order(id: int, tableNumber: int, paymentMethod: string, totalAmount: int)

  /** An order_items row; `quantity` carries no sign constraint. */
  datatype OrderItem = OrderItem(id: int, orderId: int, productId: int, quantity: int, total: int)

  datatype User = User(id: int, username: string, email: string, password: string)

  /** DECIMAL(10, 2): ten digits of which two follow the point, so a price
      in cents has at most ten digits. */
  const PriceLimit: int := 10_000_000_000

  predicate PriceFits(cents: int) {
    -PriceLimit < cents < PriceLimit
  }

  /** The row Product.create writes when no stock is supplied: the stock
      column defaults to 0. */
  function NewProduct(id: int, name: string, price: int, categoryId: int): Product {
    Product(id, name, price, Some(categoryId), 0)
  }

  // ---------------------------------------------------------------------
  // Table-level invariants

  /** Every product is stored under its own primary key. */
  predicate KeyedById(products: map<int, Product>) {
    forall id :: id in products ==> products[id].id == id
  }

  predicate StockNonNegative(products: map<int, Product>) {
    forall id :: id in products ==> products[id].stock >= 0
  }

  function OrderIds(orders: seq<Order>): set<int> {
    set o | o in orders :: o.id
  }

  /** The order_items.orderId foreign key: every item names an order. */
  predicate ItemsReferenceOrders(orders: seq<Order>, items: seq<OrderItem>) {
    forall i :: 0 <= i < |items| ==> items[i].orderId in OrderIds(orders)
  }

  /** The order_items.productId foreign key: every item names a product. */
  predicate ItemsReferenceProducts(products: map<int, Product>, items: seq<OrderItem>) {
    forall i :: 0 <= i < |items| ==> items[i].productId in products
  }

  /** No two users share an email; register keeps the table this way. */
  predicate UniqueEmails(users: seq<User>) {
    forall i, j :: 0 <= i < j < |users| ==> users[i].email != users[j].email
  }

  // ---------------------------------------------------------------------
  // Delete rules

  /** The rows of `s` that `keep` accepts, in their original order. */
  function Filter<T(!new)>(s: seq<T>, keep: T -> bool): (r: seq<T>)
    ensures forall x :: multiset(r)[x] == if keep(x) then multiset(s)[x] else 0
  {
    if s == [] then []
    else
      assert s == [s[0]] + s[1..];
      if keep(s[0]) then [s[0]] + Filter(s[1..], keep) else Filter(s[1..], keep)
  }

  function Unlink(p: Product, categoryId: int): Product {
    if p.categoryId == Some(categoryId) then p.(categoryId := None) else p
  }

  /** ON DELETE SET NULL on products.categoryId: deleting a category keeps
      every product and clears the reference of those that named it. */
  function DeleteCategory(products: map<int, Product>, categoryId: int): (r: map<int, Product>)
    ensures r.Keys == products.Keys
    ensures forall id :: id in r ==> r[id].categoryId != Some(categoryId)
    ensures forall id :: id in r && products[id].categoryId == Some(categoryId) ==> r[id].categoryId == None
    ensures forall id :: id in r ==> r[id].(categoryId := products[id].categoryId) == products[id]
    ensures forall id :: id in r && products[id].categoryId != Some(categoryId) ==> r[id] == products[id]
  {
    map id | id in products :: Unlink(products[id], categoryId)
  }

  /** ON DELETE CASCADE on order_items.orderId: deleting an order deletes
      every item of that order and no other item. */
  function DeleteOrder(orders: seq<Order>, items: seq<OrderItem>, orderId: int): (r: (seq<Order>, seq<OrderItem>))
    ensures forall o :: multiset(r.0)[o] == if o.id == orderId then 0 else multiset(orders)[o]
    ensures forall it :: multiset(r.1)[it] == if it.orderId == orderId then 0 else multiset(items)[it]
  {
    (Filter(orders, (o: Order) => o.id != orderId), Filter(items, (it: OrderItem) => it.orderId != orderId))
  }

  /** ON DELETE CASCADE on order_items.productId: deleting a product deletes
      every item that references it. */
  function DeleteProduct(products: map<int, Product>, items: seq<OrderItem>, productId: int): (r: (map<int, Product>, seq<OrderItem>))
    ensures r.0.Keys == products.Keys - {productId}
    ensures forall id :: id in r.0 ==> r.0[id] == products[id]
    ensures forall it :: multiset(r.1)[it] == if it.productId == productId then 0 else multiset(items)[it]
  {
    (products - {productId}, Filter(items, (it: OrderItem) => it.productId != productId))
  }

  lemma DeleteOrderKeepsReferences(orders: seq<Order>, items: seq<OrderItem>, orderId: int)
    requires ItemsReferenceOrders(orders, items)
    ensures var r := DeleteOrder(orders, items, orderId);
            ItemsReferenceOrders(r.0, r.1) && forall i :: 0 <= i < |r.1| ==> r.1[i].orderId != orderId
  {
    var r := DeleteOrder(orders, items, orderId);
    forall i | 0 <= i < |r.1|
      ensures r.1[i].orderId != orderId
      ensures r.1[i].orderId in OrderIds(r.0)
    {
      var it := r.1[i];
      assert it in multiset(r.1);
      assert it in items;
      var k :| 0 <= k < |items| && items[k] == it;
      var o :| o in orders && o.id == it.orderId;
      assert o in multiset(r.0);
    }
  }

  lemma DeleteProductKeepsReferences(products: map<int, Product>, items: seq<OrderItem>, productId: int)
    requires ItemsReferenceProducts(products, items)
    ensures var r := DeleteProduct(products, items, productId);
            ItemsReferenceProducts(r.0, r.1)
  {
    var r := DeleteProduct(products, items, productId);
    forall i | 0 <= i < |r.1|
      ensures r.1[i].productId in r.0
    {
      var it := r.1[i];
      assert it in multiset(r.1);
      assert it in items;
      var k :| 0 <= k < |items| && items[k] == it;
    }
  }
}

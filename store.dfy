/** The relational store the handlers share: the products, orders,
    order_items and users tables, and the auto-increment counter behind each
    table's primary key.  Handlers read and write these fields in place. */
module Store {
  import opened Models

  predicate TablesValid(products: map<int, Product>, orders: seq<Order>, items: seq<OrderItem>, users: seq<User>,
                        nextProductId: int, nextOrderId: int, nextItemId: int, nextUserId: int)
  {
    && KeyedById(products)
    && (forall id :: id in products ==> id < nextProductId)
    && (forall i :: 0 <= i < |orders| ==> orders[i].id < nextOrderId)
    && (forall i :: 0 <= i < |items| ==> items[i].id < nextItemId)
    && (forall i :: 0 <= i < |users| ==> users[i].id < nextUserId)
    && UniqueEmails(users)
  }

  class Db {
    var products: map<int, Product>
    var orders: seq<Order>
    var items: seq<OrderItem>
    var users: seq<User>

    /** The next value of each table's auto-increment primary key. */
    var nextProductId: int
    var nextOrderId: int
    var nextItemId: int
    var nextUserId: int

    /** Products are stored under their keys, every key already handed out
        lies below its counter, so the next one is fresh, and no two users
        share an email. */
    ghost predicate Valid()
      reads this
    {
      TablesValid(products, orders, items, users, nextProductId, nextOrderId, nextItemId, nextUserId)
    }

    /** An empty database; auto-increment keys start at 1. */
    constructor ()
      ensures Valid()
      ensures products == map[] && orders == [] && items == [] && users == []
      ensures nextProductId == 1 && nextOrderId == 1 && nextItemId == 1 && nextUserId == 1
    {
      products, orders, items, users := map[], [], [], [];
      nextProductId, nextOrderId, nextItemId, nextUserId := 1, 1, 1, 1;
    }
  }
}

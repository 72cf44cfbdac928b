/** Order creation (backend/routes/orders.js).  The handler first writes the
    order row with the sum of the requested totals, then walks the requested
    items in order; each step re-reads the product, checks its stock,
    decrements it and appends an order item.  An unknown product or a short
    stock ends the walk: the order row and the earlier steps stay written. */
module Orders {
  import opened Models
  import opened Store

  /** One entry of the request's `items` array. */
  datatype ItemRequest = ItemRequest(productId: int, quantity: int, total: int)

  datatype OrderError = UnknownProduct(productId: int) | OutOfStock(productName: string)

  /** The product table as the item walk has left it so far, the order items
      it has created, and the failure that ended it, if any. */
  datatype Placement = Placement(products: map<int, Product>, created: seq<OrderItem>, failure: Option<OrderError>)

  /** `items.reduce((sum, item) => sum + item.total, 0)`: the requested
      totals summed from the left. */
  function SumTotals(reqs: seq<ItemRequest>): int {
    if reqs == [] then 0 else SumTotals(reqs[..|reqs| - 1]) + reqs[|reqs| - 1].total
  }

  function SumItemTotals(items: seq<OrderItem>): int {
    if items == [] then 0 else SumItemTotals(items[..|items| - 1]) + items[|items| - 1].total
  }

  /** Units of `productId` asked for by `reqs`. */
  function QtyFor(reqs: seq<ItemRequest>, productId: int): int {
    if reqs == [] then 0
    else QtyFor(reqs[..|reqs| - 1], productId) + (if reqs[|reqs| - 1].productId == productId then reqs[|reqs| - 1].quantity else 0)
  }

  predicate Mentions(reqs: seq<ItemRequest>, productId: int) {
    exists j :: 0 <= j < |reqs| && reqs[j].productId == productId
  }

  /** One turn of the loop: once the walk has failed nothing more happens;
      otherwise the product is looked up by primary key, its stock compared
      with the quantity, and on success the decremented product is saved and
      one order item written with the next item id. */
  function Step(pl: Placement, orderId: int, firstItemId: int, req: ItemRequest): Placement {
    if pl.failure.Some? then pl
    else if req.productId !in pl.products then pl.(failure := Some(UnknownProduct(req.productId)))
    else
      var product := pl.products[req.productId];
      if product.stock < req.quantity then pl.(failure := Some(OutOfStock(product.name)))
      else
        Placement(pl.products[req.productId := product.(stock := product.stock - req.quantity)],
                  pl.created + [OrderItem(firstItemId + |pl.created|, orderId, req.productId, req.quantity, req.total)],
                  None)
  }

  /** The item walk over `reqs` from `products`, item ids counting up from
      `firstItemId`.  A walk that does not fail creates one item per
      request; a walk that fails stops short of the end. */
  function PlaceItems(products: map<int, Product>, orderId: int, firstItemId: int, reqs: seq<ItemRequest>): (pl: Placement)
    ensures pl.failure.None? ==> |pl.created| == |reqs|
    ensures pl.failure.Some? ==> |pl.created| < |reqs|
    decreases |reqs|
  {
    if reqs == [] then Placement(products, [], None)
    else Step(PlaceItems(products, orderId, firstItemId, reqs[..|reqs| - 1]), orderId, firstItemId, reqs[|reqs| - 1])
  }

  /** The walk over a prefix that already failed is the whole walk. */
  lemma {:induction false} PlaceItemsAfterFailure(products: map<int, Product>, orderId: int, firstItemId: int, reqs: seq<ItemRequest>, k: int)
    requires 0 <= k <= |reqs|
    requires PlaceItems(products, orderId, firstItemId, reqs[..k]).failure.Some?
    ensures PlaceItems(products, orderId, firstItemId, reqs) == PlaceItems(products, orderId, firstItemId, reqs[..k])
    decreases |reqs|
  {
    if k == |reqs| {
      assert reqs[..k] == reqs;
    } else {
      var init := reqs[..|reqs| - 1];
      assert init[..k] == reqs[..k];
      PlaceItemsAfterFailure(products, orderId, firstItemId, init, k);
    }
  }

  /** The k-th created item carries the k-th fresh item id and copies the
      k-th request; the walk stops exactly at the first request whose
      product is missing or short, and its failure names that request's
      product. */
  lemma {:induction false} PlaceItemsShape(products: map<int, Product>, orderId: int, firstItemId: int, reqs: seq<ItemRequest>)
    ensures var pl := PlaceItems(products, orderId, firstItemId, reqs);
      && (forall j :: 0 <= j < |pl.created| ==>
            pl.created[j] == OrderItem(firstItemId + j, orderId, reqs[j].productId, reqs[j].quantity, reqs[j].total))
      && (forall j :: 0 <= j < |pl.created| ==> pl.created[j].productId in products)
      && (pl.failure.Some? && pl.failure.value.UnknownProduct? ==>
            pl.failure.value.productId == reqs[|pl.created|].productId && reqs[|pl.created|].productId !in products)
      && (pl.failure.Some? && pl.failure.value.OutOfStock? ==>
            var pid := reqs[|pl.created|].productId;
            pid in pl.products && pl.products[pid].stock < reqs[|pl.created|].quantity
            && pl.failure.value.productName == pl.products[pid].name)
    decreases |reqs|
  {
    if reqs != [] {
      var init := reqs[..|reqs| - 1];
      var last := reqs[|reqs| - 1];
      PlaceItemsShape(products, orderId, firstItemId, init);
      PlaceItemsKeepsKeys(products, orderId, firstItemId, init);
      var prev := PlaceItems(products, orderId, firstItemId, init);
      var pl := PlaceItems(products, orderId, firstItemId, reqs);
      assert pl == Step(prev, orderId, firstItemId, last);
      assert forall j :: 0 <= j < |init| ==> init[j] == reqs[j];
      if prev.failure.None? && pl.failure.None? {
        assert pl.created == prev.created + [OrderItem(firstItemId + |prev.created|, orderId, last.productId, last.quantity, last.total)];
      }
    }
  }

  /** The walk over `reqs[..i + 1]` is one more step after the walk over
      `reqs[..i]`. */
  lemma PlaceItemsExtend(products: map<int, Product>, orderId: int, firstItemId: int, reqs: seq<ItemRequest>, i: int)
    requires 0 <= i < |reqs|
    ensures PlaceItems(products, orderId, firstItemId, reqs[..i + 1])
         == Step(PlaceItems(products, orderId, firstItemId, reqs[..i]), orderId, firstItemId, reqs[i])
  {
    assert reqs[..i + 1][..i] == reqs[..i];
  }

  /** The walk keeps the table's keys and each product under its own key. */
  lemma {:induction false} PlaceItemsKeepsKeys(products: map<int, Product>, orderId: int, firstItemId: int, reqs: seq<ItemRequest>)
    ensures var pl := PlaceItems(products, orderId, firstItemId, reqs);
            && pl.products.Keys == products.Keys
            && (KeyedById(products) ==> KeyedById(pl.products))
    decreases |reqs|
  {
    if reqs != [] {
      PlaceItemsKeepsKeys(products, orderId, firstItemId, reqs[..|reqs| - 1]);
    }
  }

  /** What the walk leaves behind satisfies the store's key invariants: the
      products stay keyed by id below the product counter, and every item id
      stays below the advanced item counter. */
  lemma PlaceItemsKeepsTables(products: map<int, Product>, orders: seq<Order>, items: seq<OrderItem>, users: seq<User>,
                              nextProductId: int, nextOrderId: int, nextItemId: int, nextUserId: int, orderId: int, reqs: seq<ItemRequest>)
    requires TablesValid(products, orders, items, users, nextProductId, nextOrderId, nextItemId, nextUserId)
    ensures var pl := PlaceItems(products, orderId, nextItemId, reqs);
            TablesValid(pl.products, orders, items + pl.created, users, nextProductId, nextOrderId, nextItemId + |pl.created|, nextUserId)
  {
    var pl := PlaceItems(products, orderId, nextItemId, reqs);
    PlaceItemsKeepsKeys(products, orderId, nextItemId, reqs);
    PlaceItemsShape(products, orderId, nextItemId, reqs);
    forall k | 0 <= k < |items + pl.created| ensures (items + pl.created)[k].id < nextItemId + |pl.created| {
      if k >= |items| {
        assert (items + pl.created)[k] == pl.created[k - |items|];
      } else {
        assert (items + pl.created)[k] == items[k];
      }
    }
  }

  /** A step whose product is present and has enough stock. */
  lemma StepApplies(products: map<int, Product>, done: seq<OrderItem>, orderId: int, firstItemId: int, req: ItemRequest)
    requires req.productId in products && req.quantity <= products[req.productId].stock
    ensures Step(Placement(products, done, None), orderId, firstItemId, req)
         == Placement(products[req.productId := products[req.productId].(stock := products[req.productId].stock - req.quantity)],
                      done + [OrderItem(firstItemId + |done|, orderId, req.productId, req.quantity, req.total)], None)
  {
  }

  /** The item walk as the handler runs it: one request at a time, each
      reading the product as the earlier steps left it. */
  method PlaceOrderItems(db: Db, orderId: int, reqs: seq<ItemRequest>) returns (failure: Option<OrderError>)
    modifies db`products, db`items, db`nextItemId
    ensures var pl := PlaceItems(old(db.products), orderId, old(db.nextItemId), reqs);
            && db.products == pl.products
            && db.items == old(db.items) + pl.created
            && db.nextItemId == old(db.nextItemId) + |pl.created|
            && failure == pl.failure
  {
    ghost var products0, items0, firstItemId := db.products, db.items, db.nextItemId;
    ghost var done: seq<OrderItem> := [];
    failure := None;
    var i := 0;
    while i < |reqs|
      invariant 0 <= i <= |reqs|
      invariant db.items == items0 + done
      invariant db.nextItemId == firstItemId + |done|
      invariant PlaceItems(products0, orderId, firstItemId, reqs[..i]) == Placement(db.products, done, None)
    {
      var item := reqs[i];
      PlaceItemsExtend(products0, orderId, firstItemId, reqs, i);
      if item.productId !in db.products {
        PlaceItemsAfterFailure(products0, orderId, firstItemId, reqs, i + 1);
        failure := Some(UnknownProduct(item.productId));
        break;
      }
      var product := db.products[item.productId];
      if product.stock < item.quantity {
        PlaceItemsAfterFailure(products0, orderId, firstItemId, reqs, i + 1);
        failure := Some(OutOfStock(product.name));
        break;
      }
      StepApplies(db.products, done, orderId, firstItemId, item);
      product := product.(stock := product.stock - item.quantity);
      db.products := db.products[item.productId := product];
      var created := OrderItem(db.nextItemId, orderId, item.productId, item.quantity, item.total);
      db.items := db.items + [created];
      db.nextItemId := db.nextItemId + 1;
      done := done + [created];
      i := i + 1;
    }
    if failure.None? {
      assert reqs[..i] == reqs;
    }
  }

  /** POST /orders: the order row is written first, with the sum of the
      requested totals, and stays written whatever the item walk does. */
  method CreateOrder(db: Db, tableNumber: int, paymentMethod: string, reqs: seq<ItemRequest>) returns (reply: Result<Order, OrderError>)
    requires db.Valid()
    modifies db`products, db`orders, db`items, db`nextOrderId, db`nextItemId
    ensures db.Valid()
    ensures var order := Order(old(db.nextOrderId), tableNumber, paymentMethod, SumTotals(reqs));
            var pl := PlaceItems(old(db.products), order.id, old(db.nextItemId), reqs);
            && db.orders == old(db.orders) + [order]
            && db.nextOrderId == old(db.nextOrderId) + 1
            && db.products == pl.products
            && db.items == old(db.items) + pl.created
            && db.nextItemId == old(db.nextItemId) + |pl.created|
            && reply == if pl.failure.None? then Ok(order) else Err(pl.failure.value)
  {
    var order := Order(db.nextOrderId, tableNumber, paymentMethod, SumTotals(reqs));
    db.orders := db.orders + [order];
    db.nextOrderId := db.nextOrderId + 1;
    ghost var orders1 := db.orders;
    var failure := PlaceOrderItems(db, order.id, reqs);
    PlaceItemsKeepsTables(old(db.products), orders1, old(db.items), db.users, db.nextProductId, db.nextOrderId, old(db.nextItemId), db.nextUserId, order.id, reqs);
    reply := if failure.None? then Ok(order) else Err(failure.value);
  }

  // ---------------------------------------------------------------------
  // Properties of the item walk

  /** Only the applied prefix of the request touches stock: each product
      loses exactly the units that prefix asked of it, and keeps every other
      field. */
  lemma {:induction false} PlaceItemsStock(products: map<int, Product>, orderId: int, firstItemId: int, reqs: seq<ItemRequest>, productId: int)
    requires productId in products
    ensures var pl := PlaceItems(products, orderId, firstItemId, reqs);
            && productId in pl.products
            && pl.products[productId] == products[productId].(stock := products[productId].stock - QtyFor(reqs[..|pl.created|], productId))
    decreases |reqs|
  {
    var pl := PlaceItems(products, orderId, firstItemId, reqs);
    if reqs == [] {
      assert reqs[..|pl.created|] == [];
    } else {
      var init := reqs[..|reqs| - 1];
      var prev := PlaceItems(products, orderId, firstItemId, init);
      PlaceItemsStock(products, orderId, firstItemId, init, productId);
      if pl.failure.Some? {
        assert pl.products == prev.products && pl.created == prev.created;
        assert reqs[..|pl.created|] == init[..|prev.created|];
      } else {
        assert reqs[..|pl.created|] == reqs && init[..|prev.created|] == init;
      }
    }
  }

  lemma {:induction false} QtyForUnmentioned(reqs: seq<ItemRequest>, productId: int)
    requires !Mentions(reqs, productId)
    ensures QtyFor(reqs, productId) == 0
    decreases |reqs|
  {
    if reqs != [] {
      var init := reqs[..|reqs| - 1];
      forall j | 0 <= j < |init| ensures init[j].productId != productId {
        assert init[j] == reqs[j];
      }
      QtyForUnmentioned(init, productId);
    }
  }

  /** A request list that mentions a product, minus its last request that
      does not, still mentions it. */
  lemma MentionsInit(reqs: seq<ItemRequest>, productId: int)
    requires reqs != [] && Mentions(reqs, productId) && reqs[|reqs| - 1].productId != productId
    ensures Mentions(reqs[..|reqs| - 1], productId)
  {
    var j :| 0 <= j < |reqs| && reqs[j].productId == productId;
    assert reqs[..|reqs| - 1][j] == reqs[j];
  }

  lemma {:induction false} PlaceItemsTouchedNonNegative(products: map<int, Product>, orderId: int, firstItemId: int, reqs: seq<ItemRequest>, productId: int)
    requires productId in products
    ensures var pl := PlaceItems(products, orderId, firstItemId, reqs);
            productId in pl.products && (Mentions(reqs[..|pl.created|], productId) ==> pl.products[productId].stock >= 0)
    decreases |reqs|
  {
    var pl := PlaceItems(products, orderId, firstItemId, reqs);
    if reqs == [] {
      assert reqs[..|pl.created|] == [];
    } else {
      var init := reqs[..|reqs| - 1];
      var last := reqs[|reqs| - 1];
      var prev := PlaceItems(products, orderId, firstItemId, init);
      PlaceItemsTouchedNonNegative(products, orderId, firstItemId, init, productId);
      if pl.failure.Some? {
        assert pl.products == prev.products && pl.created == prev.created;
        assert reqs[..|pl.created|] == init[..|prev.created|];
      } else if last.productId != productId && Mentions(reqs, productId) {
        assert reqs[..|pl.created|] == reqs && init[..|prev.created|] == init;
        MentionsInit(reqs, productId);
      } else {
        assert reqs[..|pl.created|] == reqs;
      }
    }
  }

  /** Items are applied in request order against the product as the earlier
      steps left it, so a product named several times can never be overdrawn
      jointly: every product the applied steps touched ends with stock >= 0,
      the units they took from it do not exceed its starting stock, and a
      product they did not touch is unchanged. */
  lemma PlaceItemsNeverOverdraws(products: map<int, Product>, orderId: int, firstItemId: int, reqs: seq<ItemRequest>, productId: int)
    requires productId in products
    ensures var pl := PlaceItems(products, orderId, firstItemId, reqs);
            var applied := reqs[..|pl.created|];
            && productId in pl.products
            && (Mentions(applied, productId) ==>
                  pl.products[productId].stock >= 0 && QtyFor(applied, productId) <= products[productId].stock)
            && (!Mentions(applied, productId) ==> pl.products[productId] == products[productId])
  {
    var pl := PlaceItems(products, orderId, firstItemId, reqs);
    var applied := reqs[..|pl.created|];
    PlaceItemsStock(products, orderId, firstItemId, reqs, productId);
    PlaceItemsTouchedNonNegative(products, orderId, firstItemId, reqs, productId);
    if !Mentions(applied, productId) {
      QtyForUnmentioned(applied, productId);
    }
  }

  /** No item step leaves a negative stock behind. */
  lemma PlaceItemsKeepsStockNonNegative(products: map<int, Product>, orderId: int, firstItemId: int, reqs: seq<ItemRequest>)
    requires StockNonNegative(products)
    ensures StockNonNegative(PlaceItems(products, orderId, firstItemId, reqs).products)
  {
    var pl := PlaceItems(products, orderId, firstItemId, reqs);
    PlaceItemsKeepsKeys(products, orderId, firstItemId, reqs);
    forall id | id in pl.products ensures pl.products[id].stock >= 0 {
      PlaceItemsNeverOverdraws(products, orderId, firstItemId, reqs, id);
    }
  }

  /** Item totals copied one for one from the requests sum alike. */
  lemma {:induction false} SumsAgree(items: seq<OrderItem>, reqs: seq<ItemRequest>)
    requires |items| == |reqs|
    requires forall j :: 0 <= j < |items| ==> items[j].total == reqs[j].total
    ensures SumItemTotals(items) == SumTotals(reqs)
    decreases |items|
  {
    if items != [] {
      SumsAgree(items[..|items| - 1], reqs[..|reqs| - 1]);
    }
  }

  /** The created items' totals add up to the requested totals of the applied
      prefix; on full success that is the order's totalAmount. */
  lemma PlaceItemsTotals(products: map<int, Product>, orderId: int, firstItemId: int, reqs: seq<ItemRequest>)
    ensures var pl := PlaceItems(products, orderId, firstItemId, reqs);
            SumItemTotals(pl.created) == SumTotals(reqs[..|pl.created|])
  {
    var pl := PlaceItems(products, orderId, firstItemId, reqs);
    PlaceItemsShape(products, orderId, firstItemId, reqs);
    SumsAgree(pl.created, reqs[..|pl.created|]);
  }

  lemma CompleteOrderMatchesTotal(products: map<int, Product>, orderId: int, firstItemId: int, reqs: seq<ItemRequest>)
    ensures var pl := PlaceItems(products, orderId, firstItemId, reqs);
            pl.failure.None? ==> |pl.created| == |reqs| && SumItemTotals(pl.created) == SumTotals(reqs)
  {
    var pl := PlaceItems(products, orderId, firstItemId, reqs);
    PlaceItemsTotals(products, orderId, firstItemId, reqs);
    assert pl.failure.None? ==> reqs[..|pl.created|] == reqs;
  }

  /** The new items name the new order and existing products, so the two
      foreign keys of order_items keep holding. */
  lemma PlaceItemsKeepsReferences(products: map<int, Product>, orders: seq<Order>, items: seq<OrderItem>, order: Order, firstItemId: int, reqs: seq<ItemRequest>)
    requires ItemsReferenceOrders(orders, items) && ItemsReferenceProducts(products, items)
    ensures var pl := PlaceItems(products, order.id, firstItemId, reqs);
            && ItemsReferenceOrders(orders + [order], items + pl.created)
            && ItemsReferenceProducts(pl.products, items + pl.created)
  {
    var pl := PlaceItems(products, order.id, firstItemId, reqs);
    PlaceItemsShape(products, order.id, firstItemId, reqs);
    PlaceItemsKeepsKeys(products, order.id, firstItemId, reqs);
    var all := items + pl.created;
    var os := orders + [order];
    assert order in os;
    forall i | 0 <= i < |all|
      ensures all[i].productId in pl.products
      ensures all[i].orderId in OrderIds(os)
    {
      if i < |items| {
        assert all[i] == items[i];
        var o :| o in orders && o.id == items[i].orderId;
        assert o in os;
      } else {
        assert all[i] == pl.created[i - |items|];
      }
    }
  }

  /** Two requests for the same product, 3 units each, against a stock of 5:
      the first is applied, the second sees the remaining 2 and fails. */
  lemma RepeatedProductCannotOverdraw()
    ensures var p := Product(1, "cafe", 500, None, 5);
            var pl := PlaceItems(map[1 := p], 7, 1, [ItemRequest(1, 3, 1500), ItemRequest(1, 3, 1500)]);
            && pl.failure == Some(OutOfStock("cafe"))
            && pl.products[1].stock == 2
            && pl.created == [OrderItem(1, 7, 1, 3, 1500)]
  {
    var p := Product(1, "cafe", 500, None, 5);
    var r := ItemRequest(1, 3, 1500);
    var reqs := [r, r];
    assert reqs[..1] == [r] && [r][..0] == [];
    assert PlaceItems(map[1 := p], 7, 1, [r][..0]) == Placement(map[1 := p], [], None);
    assert map[1 := p][1 := p.(stock := 2)] == map[1 := p.(stock := 2)];
    var first := PlaceItems(map[1 := p], 7, 1, [r]);
    assert first == Placement(map[1 := p.(stock := 2)], [OrderItem(1, 7, 1, 3, 1500)], None);
  }

  /** Quantities are not validated: a request for a negative quantity of a
      product with non-negative stock passes the stock check, is applied,
      and raises the stock. */
  lemma NegativeQuantityRaisesStock(products: map<int, Product>, orderId: int, firstItemId: int, req: ItemRequest)
    requires req.productId in products && products[req.productId].stock >= 0 && req.quantity < 0
    ensures var pl := PlaceItems(products, orderId, firstItemId, [req]);
            && pl.failure.None?
            && pl.created == [OrderItem(firstItemId, orderId, req.productId, req.quantity, req.total)]
            && pl.products[req.productId].stock == products[req.productId].stock - req.quantity > products[req.productId].stock
  {
    assert [req][..0] == [];
  }
}

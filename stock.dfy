/** The stock router (backend/routes/stock.js): the listing sorted by name,
    the validated manual override of a product's stock, and the checked
    decrement used for a sale. */
module Stock {
  import opened Models
  import opened Store

  datatype StockError = InvalidStock | InvalidQuantity | ProductNotFound | InsufficientStock

  /** The three attributes the stock endpoints expose of a product. */
  datatype StockRow = StockRow(id: int, name: string, stock: int)

  function RowOf(p: Product): StockRow {
    StockRow(p.id, p.name, p.stock)
  }

  /** The product table after a handler ran, and the handler's reply. */
  datatype Outcome<T> = Outcome(products: map<int, Product>, reply: Result<T, StockError>)

  // ---------------------------------------------------------------------
  // PUT /:id — validated manual override

  /** The stock a request body asks for is accepted only when it is present,
      a number, and not negative. */
  function SetStockSpec(products: map<int, Product>, id: int, stock: Value): (o: Outcome<StockRow>)
    ensures o.reply == Err(InvalidStock) <==> !(stock.Num? && stock.n >= 0)
    ensures o.reply == Err(ProductNotFound) <==> stock.Num? && stock.n >= 0 && id !in products
    ensures stock.Num? && stock.n >= 0 && id in products ==> o.reply.Ok?
    ensures o.reply.Err? ==> o.products == products
    ensures o.reply.Ok? ==>
      && stock.Num? && id in products
      && o.products.Keys == products.Keys
      && o.products[id].stock == stock.n
      && o.products[id] == products[id].(stock := o.products[id].stock)
      && (forall k :: k in products && k != id ==> o.products[k] == products[k])
      && o.reply.value == RowOf(o.products[id])
    ensures StockNonNegative(products) ==> StockNonNegative(o.products)
  {
    if stock.Missing? || !stock.Num? || stock.n < 0 then Outcome(products, Err(InvalidStock))
    else if id !in products then Outcome(products, Err(ProductNotFound))
    else
      var p := products[id].(stock := stock.n);
      Outcome(products[id := p], Ok(RowOf(p)))
  }

  method SetStock(db: Db, id: int, stock: Value) returns (reply: Result<StockRow, StockError>)
    requires db.Valid()
    modifies db`products
    ensures db.Valid()
    ensures Outcome(db.products, reply) == SetStockSpec(old(db.products), id, stock)
  {
    if stock.Missing? || !stock.Num? || stock.n < 0 {
      return Err(InvalidStock);
    }
    if id !in db.products {
      return Err(ProductNotFound);
    }
    var product := db.products[id];
    product := product.(stock := stock.n);
    db.products := db.products[id := product];
    reply := Ok(RowOf(product));
  }

  // ---------------------------------------------------------------------
  // POST /decrease/:id — checked decrement for a sale

  /** A sale of `quantity` units: the quantity must be a positive number and
      the product must hold at least that many. */
  function DecreaseSpec(products: map<int, Product>, id: int, quantity: Value): (o: Outcome<int>)
    ensures o.reply == Err(InvalidQuantity) <==> !(quantity.Num? && quantity.n > 0)
    ensures o.reply == Err(ProductNotFound) <==> quantity.Num? && quantity.n > 0 && id !in products
    ensures o.reply == Err(InsufficientStock) <==>
      quantity.Num? && quantity.n > 0 && id in products && products[id].stock < quantity.n
    ensures quantity.Num? && quantity.n > 0 && id in products && products[id].stock >= quantity.n ==> o.reply.Ok?
    ensures o.reply.Err? ==> o.products == products
    ensures o.reply.Ok? ==>
      && quantity.Num? && id in products
      && o.products.Keys == products.Keys
      && o.products[id].stock == products[id].stock - quantity.n >= 0
      && o.products[id] == products[id].(stock := o.products[id].stock)
      && (forall k :: k in products && k != id ==> o.products[k] == products[k])
      && o.reply.value == o.products[id].stock
    ensures StockNonNegative(products) ==> StockNonNegative(o.products)
  {
    if Falsy(quantity) || !quantity.Num? || quantity.n <= 0 then Outcome(products, Err(InvalidQuantity))
    else if id !in products then Outcome(products, Err(ProductNotFound))
    else if products[id].stock < quantity.n then Outcome(products, Err(InsufficientStock))
    else
      var p := products[id].(stock := products[id].stock - quantity.n);
      Outcome(products[id := p], Ok(p.stock))
  }

  method DecreaseStock(db: Db, id: int, quantity: Value) returns (reply: Result<int, StockError>)
    requires db.Valid()
    modifies db`products
    ensures db.Valid()
    ensures Outcome(db.products, reply) == DecreaseSpec(old(db.products), id, quantity)
  {
    if Falsy(quantity) || !quantity.Num? || quantity.n <= 0 {
      return Err(InvalidQuantity);
    }
    if id !in db.products {
      return Err(ProductNotFound);
    }
    var product := db.products[id];
    if product.stock < quantity.n {
      return Err(InsufficientStock);
    }
    product := product.(stock := product.stock - quantity.n);
    db.products := db.products[id := product];
    reply := Ok(product.stock);
  }

  // ---------------------------------------------------------------------
  // Listings

  lemma HasMember(ids: set<int>)
    requires ids != {}
    ensures exists y :: y in ids
  {
    if forall y :: y !in ids { assert false; }
  }

  predicate IsLeast(m: int, ids: set<int>) {
    m in ids && forall x :: x in ids ==> m <= x
  }

  lemma {:induction false} LeastExists(ids: set<int>)
    requires ids != {}
    ensures exists m :: IsLeast(m, ids)
    decreases ids
  {
    HasMember(ids);
    var y :| y in ids;
    var rest := ids - {y};
    if rest != {} {
      LeastExists(rest);
      var m :| IsLeast(m, rest);
      var least := if y < m then y else m;
      forall x | x in ids ensures least <= x {
        if x != y { assert x in rest; }
      }
      assert IsLeast(least, ids);
    } else {
      assert ids == {y};
      assert IsLeast(y, ids);
    }
  }

  /** A set of keys in ascending order. */
  function SortedIds(ids: set<int>): (r: seq<int>)
    ensures |r| == |ids|
    ensures forall i, j :: 0 <= i < j < |r| ==> r[i] < r[j]
    ensures forall id :: id in ids <==> id in r
    decreases ids
  {
    if ids == {} then []
    else
      LeastExists(ids);
      var m :| IsLeast(m, ids);
      var rest := SortedIds(ids - {m});
      assert forall id :: id in rest ==> m < id;
      [m] + rest
  }

  /** The rows of the products named by `ids`, in the order of `ids`. */
  function RowsAt(products: map<int, Product>, ids: seq<int>): (rows: seq<StockRow>)
    requires forall i :: 0 <= i < |ids| ==> ids[i] in products
    ensures |rows| == |ids|
    ensures forall i :: 0 <= i < |rows| ==> rows[i] == RowOf(products[ids[i]])
  {
    if ids == [] then [] else [RowOf(products[ids[0]])] + RowsAt(products, ids[1..])
  }

  /** Under a table keyed by id, the rows at `ids` carry those ids. */
  lemma RowIdsAre(products: map<int, Product>, ids: seq<int>)
    requires KeyedById(products)
    requires forall i :: 0 <= i < |ids| ==> ids[i] in products
    ensures forall i :: 0 <= i < |ids| ==> RowsAt(products, ids)[i].id == ids[i]
  {
    var rows := RowsAt(products, ids);
    forall i | 0 <= i < |rows| ensures rows[i].id == ids[i] {
      assert rows[i] == RowOf(products[ids[i]]);
    }
  }

  lemma RowsAtKeys(products: map<int, Product>, ids: seq<int>)
    requires KeyedById(products)
    requires forall i, j :: 0 <= i < j < |ids| ==> ids[i] < ids[j]
    requires forall i :: 0 <= i < |ids| ==> ids[i] in products
    requires forall id :: id in products ==> id in ids
    ensures var rows := RowsAt(products, ids);
      && (forall i :: 0 <= i < |rows| ==> rows[i].id in products && rows[i] == RowOf(products[rows[i].id]))
      && (forall id :: id in products ==> exists i :: 0 <= i < |rows| && rows[i].id == id)
      && (forall i, j :: 0 <= i < j < |rows| ==> rows[i].id < rows[j].id)
  {
    var rows := RowsAt(products, ids);
    RowIdsAre(products, ids);
    forall id | id in products ensures exists i :: 0 <= i < |rows| && rows[i].id == id {
      assert id in ids;
      var i :| 0 <= i < |ids| && ids[i] == id;
      assert rows[i].id == id;
    }
  }

  /** Every product as (id, name, stock), in ascending id order. */
  function RowsById(products: map<int, Product>): (rows: seq<StockRow>)
    requires KeyedById(products)
    ensures |rows| == |products|
    ensures forall i :: 0 <= i < |rows| ==> rows[i].id in products && rows[i] == RowOf(products[rows[i].id])
    ensures forall id :: id in products ==> exists i :: 0 <= i < |rows| && rows[i].id == id
    ensures forall i, j :: 0 <= i < j < |rows| ==> rows[i].id < rows[j].id
  {
    var ids := SortedIds(products.Keys);
    forall i | 0 <= i < |ids| ensures ids[i] in products {
      assert ids[i] in ids;
    }
    RowsAtKeys(products, ids);
    assert |products.Keys| == |products|;
    RowsAt(products, ids)
  }

  /** Names compare character by character, by character code. */
  predicate NameLeq(a: string, b: string)
    decreases |a|
  {
    |a| == 0 || (|b| > 0 && (a[0] < b[0] || (a[0] == b[0] && NameLeq(a[1..], b[1..]))))
  }

  lemma {:induction false} NameLeqTotal(a: string, b: string)
    ensures NameLeq(a, b) || NameLeq(b, a)
    decreases |a|
  {
    if |a| > 0 && |b| > 0 && a[0] == b[0] {
      NameLeqTotal(a[1..], b[1..]);
    }
  }

  lemma {:induction false} NameLeqTransitive(a: string, b: string, c: string)
    requires NameLeq(a, b) && NameLeq(b, c)
    ensures NameLeq(a, c)
    decreases |a|
  {
    if |a| > 0 && a[0] == b[0] && b[0] == c[0] {
      NameLeqTransitive(a[1..], b[1..], c[1..]);
    }
  }

  predicate SortedByName(rows: seq<StockRow>) {
    forall i, j :: 0 <= i < j < |rows| ==> NameLeq(rows[i].name, rows[j].name)
  }

  function InsertByName(row: StockRow, rows: seq<StockRow>): seq<StockRow> {
    if rows == [] || NameLeq(row.name, rows[0].name) then [row] + rows
    else [rows[0]] + InsertByName(row, rows[1..])
  }

  function SortByName(rows: seq<StockRow>): seq<StockRow> {
    if rows == [] then [] else InsertByName(rows[0], SortByName(rows[1..]))
  }

  /** Every row of `rows` has a name at least `name`. */
  predicate AllAtLeast(name: string, rows: seq<StockRow>) {
    forall k :: 0 <= k < |rows| ==> NameLeq(name, rows[k].name)
  }

  lemma ConsSorted(row: StockRow, rows: seq<StockRow>)
    requires AllAtLeast(row.name, rows) && SortedByName(rows)
    ensures SortedByName([row] + rows)
  {
    var r := [row] + rows;
    forall i, j | 0 <= i < j < |r| ensures NameLeq(r[i].name, r[j].name) {
      assert r[j] == rows[j - 1];
      if i > 0 { assert r[i] == rows[i - 1]; }
    }
  }

  lemma SortedTail(rows: seq<StockRow>)
    requires SortedByName(rows) && rows != []
    ensures SortedByName(rows[1..]) && AllAtLeast(rows[0].name, rows[1..])
  {
    forall i, j | 0 <= i < j < |rows[1..]| ensures NameLeq(rows[1..][i].name, rows[1..][j].name) {
      assert rows[1..][i] == rows[i + 1] && rows[1..][j] == rows[j + 1];
    }
    forall k | 0 <= k < |rows[1..]| ensures NameLeq(rows[0].name, rows[1..][k].name) {
      assert rows[1..][k] == rows[k + 1];
    }
  }

  lemma {:induction false} InsertKeepsLowerBound(name: string, row: StockRow, rows: seq<StockRow>)
    requires AllAtLeast(name, rows) && NameLeq(name, row.name)
    ensures AllAtLeast(name, InsertByName(row, rows))
  {
    var r := InsertByName(row, rows);
    if rows == [] || NameLeq(row.name, rows[0].name) {
      forall k | 0 <= k < |r| ensures NameLeq(name, r[k].name) {
        if k > 0 { assert r[k] == rows[k - 1]; }
      }
    } else {
      assert AllAtLeast(name, rows[1..]) by {
        forall k | 0 <= k < |rows[1..]| ensures NameLeq(name, rows[1..][k].name) {
          assert rows[1..][k] == rows[k + 1];
        }
      }
      InsertKeepsLowerBound(name, row, rows[1..]);
      var tail := InsertByName(row, rows[1..]);
      forall k | 0 <= k < |r| ensures NameLeq(name, r[k].name) {
        if k > 0 { assert r[k] == tail[k - 1]; }
      }
    }
  }

  lemma {:induction false} InsertByNamePermutes(row: StockRow, rows: seq<StockRow>)
    ensures multiset(InsertByName(row, rows)) == multiset(rows) + multiset{row}
  {
    if rows != [] && !NameLeq(row.name, rows[0].name) {
      InsertByNamePermutes(row, rows[1..]);
      assert rows == [rows[0]] + rows[1..];
    }
  }

  lemma {:induction false} InsertByNameSorted(row: StockRow, rows: seq<StockRow>)
    requires SortedByName(rows)
    ensures SortedByName(InsertByName(row, rows))
  {
    if rows == [] {
    } else if NameLeq(row.name, rows[0].name) {
      forall k | 0 <= k < |rows| ensures NameLeq(row.name, rows[k].name) {
        if k > 0 { NameLeqTransitive(row.name, rows[0].name, rows[k].name); }
      }
      ConsSorted(row, rows);
    } else {
      NameLeqTotal(row.name, rows[0].name);
      SortedTail(rows);
      InsertByNameSorted(row, rows[1..]);
      InsertKeepsLowerBound(rows[0].name, row, rows[1..]);
      ConsSorted(rows[0], InsertByName(row, rows[1..]));
    }
  }

  lemma {:induction false} SortByNameCorrect(rows: seq<StockRow>)
    ensures multiset(SortByName(rows)) == multiset(rows)
    ensures SortedByName(SortByName(rows))
  {
    if rows != [] {
      SortByNameCorrect(rows[1..]);
      InsertByNamePermutes(rows[0], SortByName(rows[1..]));
      InsertByNameSorted(rows[0], SortByName(rows[1..]));
      assert rows == [rows[0]] + rows[1..];
    }
  }

  /** GET / — every product as (id, name, stock), ordered by name
      ascending: a rearrangement of the listing in key order. */
  function StockListing(products: map<int, Product>): (rows: seq<StockRow>)
    requires KeyedById(products)
    ensures SortedByName(rows)
    ensures multiset(rows) == multiset(RowsById(products))
  {
    SortByNameCorrect(RowsById(products));
    SortByName(RowsById(products))
  }

  lemma {:induction false} DistinctIdsCountOnce(rows: seq<StockRow>, row: StockRow)
    requires forall i, j :: 0 <= i < j < |rows| ==> rows[i].id < rows[j].id
    requires row in rows
    ensures multiset(rows)[row] == 1
  {
    assert rows == [rows[0]] + rows[1..];
    if rows[0] == row {
      assert row !in rows[1..] by {
        forall k | 0 <= k < |rows[1..]| ensures rows[1..][k] != row {
          assert rows[1..][k] == rows[k + 1];
        }
      }
    } else {
      DistinctIdsCountOnce(rows[1..], row);
    }
  }

  /** The name-ordered listing holds each product's row exactly once and
      nothing else. */
  lemma ListingHoldsEachProductOnce(products: map<int, Product>)
    requires KeyedById(products)
    ensures |StockListing(products)| == |products|
    ensures forall id :: id in products ==> multiset(StockListing(products))[RowOf(products[id])] == 1
    ensures forall row :: row in StockListing(products) ==> row.id in products && row == RowOf(products[row.id])
  {
    var byId := RowsById(products);
    var rows := StockListing(products);
    assert |rows| == |multiset(rows)| == |multiset(byId)| == |byId|;
    forall id | id in products ensures multiset(rows)[RowOf(products[id])] == 1 {
      var i :| 0 <= i < |byId| && byId[i].id == id;
      DistinctIdsCountOnce(byId, RowOf(products[id]));
    }
    forall row | row in rows ensures row.id in products && row == RowOf(products[row.id]) {
      assert row in multiset(byId);
    }
  }
}

/** Which handler answers a request, as fixed by the order in which
    backend/index.js registers its own routes and mounts the routers.
    Express tries the registered routes in order and the first whose verb
    and path pattern match answers. */
module Routing {
  import opened Models
  import Stock
  import App

  datatype Verb = Get | Post | Put

  /** A path segment of a route pattern: a fixed word, or a `:param`,
      which matches any non-empty segment. */
  datatype Segment = Lit(word: string) | Param

  datatype Handler =
    // backend/index.js
    | Login | Register | CreateProduct | Revenue | ListStock | OverrideStock
    // backend/routes/orders.js
    | CreateOrder
    // backend/routes/stock.js
    | ListStockByName | SetStock | DecreaseStock
    // the handlers of the routers outside this model
    | Unmodelled

  datatype Route = Route(verb: Verb, pattern: seq<Segment>, handler: Handler)

  predicate SegmentMatches(s: Segment, word: string) {
    match s
    case Lit(w) => word == w
    case Param => word != ""
  }

  predicate Matches(pattern: seq<Segment>, path: seq<string>) {
    |pattern| == |path| && forall i :: 0 <= i < |path| ==> SegmentMatches(pattern[i], path[i])
  }

  predicate Accepts(route: Route, verb: Verb, path: seq<string>) {
    route.verb == verb && Matches(route.pattern, path)
  }

  /** The position of the first route that accepts the request. */
  function FirstMatch(routes: seq<Route>, verb: Verb, path: seq<string>): (r: Option<nat>)
    ensures r.Some? ==>
      && r.value < |routes| && Accepts(routes[r.value], verb, path)
      && forall j :: 0 <= j < r.value ==> !Accepts(routes[j], verb, path)
    ensures r.None? <==> forall j :: 0 <= j < |routes| ==> !Accepts(routes[j], verb, path)
  {
    if routes == [] then None
    else if Accepts(routes[0], verb, path) then Some(0)
    else match FirstMatch(routes[1..], verb, path)
      case None => None
      case Some(k) => Some(k + 1)
  }

  function Dispatch(routes: seq<Route>, verb: Verb, path: seq<string>): Option<Handler> {
    match FirstMatch(routes, verb, path)
    case None => None
    case Some(i) => Some(routes[i].handler)
  }

  // ---------------------------------------------------------------------
  // The registration order

  /** The routes backend/index.js declares itself, in declaration order. */
  function AppRoutes(): seq<Route> {
    [ Route(Post, [Lit("login")], Login),
      Route(Post, [Lit("register")], Register),
      Route(Post, [Lit("products")], CreateProduct),
      Route(Get, [Lit("faturamento")], Revenue),
      Route(Get, [Lit("stock")], ListStock),
      Route(Put, [Lit("stock"), Param], OverrideStock) ]
  }

  function OrdersRouter(): seq<Route> {
    [ Route(Post, [], CreateOrder) ]
  }

  function StockRouter(): seq<Route> {
    [ Route(Get, [], ListStockByName),
      Route(Put, [Param], SetStock),
      Route(Post, [Lit("decrease"), Param], DecreaseStock) ]
  }

  /** app.use(prefix, router): the router's routes under the prefix. */
  function Mount(prefix: string, routes: seq<Route>): seq<Route> {
    seq(|routes|, i requires 0 <= i < |routes| => Route(routes[i].verb, [Lit(prefix)] + routes[i].pattern, routes[i].handler))
  }

  /** The categories, products, clients and totalSales routers, mounted
      before the orders and stock routers: whatever they hold lies under
      their own prefixes. */
  predicate OtherRouters(others: seq<Route>) {
    forall i :: 0 <= i < |others| ==>
      && |others[i].pattern| > 0
      && others[i].pattern[0] in {Lit("categories"), Lit("products"), Lit("clients"), Lit("totalSales")}
      && others[i].handler == Unmodelled
  }

  /** Every route in registration order. */
  function Registered(others: seq<Route>): seq<Route> {
    AppRoutes() + others + Mount("orders", OrdersRouter()) + Mount("stock", StockRouter())
  }

  /** The registration without the two stock routes of backend/index.js,
      which the stock router supersedes. */
  function IntendedRoutes(others: seq<Route>): seq<Route> {
    AppRoutes()[..4] + others + Mount("orders", OrdersRouter()) + Mount("stock", StockRouter())
  }

  // ---------------------------------------------------------------------
  // Dispatch over a concatenation

  lemma FirstMatchIs(routes: seq<Route>, verb: Verb, path: seq<string>, k: nat)
    requires k < |routes| && Accepts(routes[k], verb, path)
    requires forall j :: 0 <= j < k ==> !Accepts(routes[j], verb, path)
    ensures FirstMatch(routes, verb, path) == Some(k)
  {
    var r := FirstMatch(routes, verb, path);
    assert r.Some?;
    assert !(r.value < k);
  }

  /** The routes of `a` are tried before those of `b`. */
  lemma DispatchAppend(a: seq<Route>, b: seq<Route>, verb: Verb, path: seq<string>)
    ensures Dispatch(a + b, verb, path) ==
            if Dispatch(a, verb, path).Some? then Dispatch(a, verb, path) else Dispatch(b, verb, path)
  {
    var ab := a + b;
    match FirstMatch(a, verb, path)
    case Some(k) =>
      assert ab[k] == a[k];
      forall j | 0 <= j < k ensures !Accepts(ab[j], verb, path) {
        assert ab[j] == a[j];
      }
      FirstMatchIs(ab, verb, path, k);
    case None =>
      forall j | 0 <= j < |a| ensures !Accepts(ab[j], verb, path) {
        assert ab[j] == a[j];
      }
      match FirstMatch(b, verb, path)
      case Some(k) =>
        assert ab[|a| + k] == b[k];
        forall j | |a| <= j < |a| + k ensures !Accepts(ab[j], verb, path) {
          assert ab[j] == b[j - |a|];
        }
        FirstMatchIs(ab, verb, path, |a| + k);
      case None =>
        forall j | |a| <= j < |ab| ensures !Accepts(ab[j], verb, path) {
          assert ab[j] == b[j - |a|];
        }
        assert FirstMatch(ab, verb, path).None?;
  }

  lemma MatchesUnderPrefix(prefix: string, pattern: seq<Segment>, path: seq<string>)
    ensures Matches([Lit(prefix)] + pattern, path) <==>
            |path| > 0 && path[0] == prefix && Matches(pattern, path[1..])
  {
    var full := [Lit(prefix)] + pattern;
    if |path| > 0 && |full| == |path| {
      if Matches(full, path) {
        assert SegmentMatches(full[0], path[0]);
        forall i | 0 <= i < |path[1..]| ensures SegmentMatches(pattern[i], path[1..][i]) {
          assert full[i + 1] == pattern[i] && path[1..][i] == path[i + 1];
          assert SegmentMatches(full[i + 1], path[i + 1]);
        }
      }
      if path[0] == prefix && Matches(pattern, path[1..]) {
        forall i | 0 <= i < |path| ensures SegmentMatches(full[i], path[i]) {
          if i > 0 {
            assert full[i] == pattern[i - 1] && path[i] == path[1..][i - 1];
          }
        }
      }
    }
  }

  /** app.use(prefix, router): a request is answered by the mounted router
      exactly when its first segment is the prefix, and then as the router
      answers the rest of the path. */
  lemma MountDispatch(prefix: string, routes: seq<Route>, verb: Verb, path: seq<string>)
    ensures Dispatch(Mount(prefix, routes), verb, path) ==
            if |path| > 0 && path[0] == prefix then Dispatch(routes, verb, path[1..]) else None
  {
    var m := Mount(prefix, routes);
    forall i | 0 <= i < |routes|
      ensures Accepts(m[i], verb, path) <==> |path| > 0 && path[0] == prefix && Accepts(routes[i], verb, path[1..])
    {
      MatchesUnderPrefix(prefix, routes[i].pattern, path);
    }
    if |path| > 0 && path[0] == prefix {
      match FirstMatch(routes, verb, path[1..])
      case Some(k) =>
        FirstMatchIs(m, verb, path, k);
      case None =>
        assert FirstMatch(m, verb, path).None?;
    } else {
      assert FirstMatch(m, verb, path).None?;
    }
  }

  /** A path under /stock or /orders is not answered by the other routers. */
  lemma OtherRoutersSkip(others: seq<Route>, verb: Verb, path: seq<string>)
    requires OtherRouters(others)
    requires |path| > 0 && (path[0] == "stock" || path[0] == "orders")
    ensures Dispatch(others, verb, path) == None
  {
    forall j | 0 <= j < |others| ensures !Accepts(others[j], verb, path) {
      assert others[j].pattern[0] != Lit("stock") && others[j].pattern[0] != Lit("orders");
    }
  }

  /** None of the routes of backend/index.js answers under /orders, nor a
      /stock path of three or more segments. */
  lemma AppRoutesMiss(verb: Verb, path: seq<string>)
    requires |path| > 0 && (path[0] == "orders" || (path[0] == "stock" && |path| > 2))
    ensures Dispatch(AppRoutes(), verb, path) == None
  {
    var routes := AppRoutes();
    forall j | 0 <= j < |routes| ensures !Accepts(routes[j], verb, path) {
      assert |routes[j].pattern| <= 2 && routes[j].pattern[0] != Lit("orders");
      assert |routes[j].pattern| != |path| || !SegmentMatches(routes[j].pattern[0], path[0]);
    }
  }

  /** The first four routes of backend/index.js answer nothing under /stock. */
  lemma AppRoutesHeadMiss(verb: Verb, path: seq<string>)
    requires |path| > 0 && path[0] == "stock"
    ensures Dispatch(AppRoutes()[..4], verb, path) == None
  {
    var routes := AppRoutes()[..4];
    forall j | 0 <= j < |routes| ensures !Accepts(routes[j], verb, path) {
      assert routes[j] == AppRoutes()[j];
      assert routes[j].pattern[0] != Lit("stock");
      assert !SegmentMatches(routes[j].pattern[0], path[0]);
    }
  }

  /** Dispatch of a /stock or /orders path through the whole registration,
      stage by stage. */
  lemma DispatchStages(head: seq<Route>, others: seq<Route>, verb: Verb, path: seq<string>)
    requires OtherRouters(others)
    requires |path| > 0 && (path[0] == "stock" || path[0] == "orders")
    ensures var orders := Mount("orders", OrdersRouter());
            var stock := Mount("stock", StockRouter());
            Dispatch(head + others + orders + stock, verb, path) ==
              if Dispatch(head, verb, path).Some? then Dispatch(head, verb, path)
              else if Dispatch(orders, verb, path).Some? then Dispatch(orders, verb, path)
              else Dispatch(stock, verb, path)
  {
    var orders := Mount("orders", OrdersRouter());
    var stock := Mount("stock", StockRouter());
    DispatchAppend(head + others + orders, stock, verb, path);
    DispatchAppend(head + others, orders, verb, path);
    DispatchAppend(head, others, verb, path);
    OtherRoutersSkip(others, verb, path);
  }

  // ---------------------------------------------------------------------
  // What answers the stock and order paths

  /** GET /stock is answered by the unordered listing of backend/index.js,
      registered before the stock router is mounted. */
  lemma IndexListingAnswersFirst(others: seq<Route>)
    requires OtherRouters(others)
    ensures Dispatch(Registered(others), Get, ["stock"]) == Some(ListStock)
  {
    DispatchStages(AppRoutes(), others, Get, ["stock"]);
    FirstMatchIs(AppRoutes(), Get, ["stock"], 4);
  }

  /** PUT /stock/:id is answered by the unvalidated override of
      backend/index.js, registered before the stock router is mounted. */
  lemma IndexOverrideAnswersFirst(others: seq<Route>, id: string)
    requires OtherRouters(others)
    requires id != ""
    ensures Dispatch(Registered(others), Put, ["stock", id]) == Some(OverrideStock)
  {
    DispatchStages(AppRoutes(), others, Put, ["stock", id]);
    FirstMatchIs(AppRoutes(), Put, ["stock", id], 5);
  }

  /** The router's listing and validated override sit at the end of the
      registration, each behind a route of backend/index.js that accepts
      every request they accept. */
  lemma RouterStockRoutesShadowed(others: seq<Route>, i: nat)
    requires OtherRouters(others)
    requires i < |Registered(others)|
    ensures Registered(others)[i].handler == ListStockByName ==>
              Registered(others)[i] == Route(Get, [Lit("stock")], ListStockByName)
    ensures Registered(others)[i].handler == SetStock ==>
              Registered(others)[i] == Route(Put, [Lit("stock"), Param], SetStock)
  {
    var routes := Registered(others);
    var n := |others|;
    if i < 6 {
      assert routes[i] == AppRoutes()[i];
    } else if i < 6 + n {
      assert routes[i] == others[i - 6];
    } else if i == 6 + n {
      assert routes[i] == Mount("orders", OrdersRouter())[0];
    } else {
      assert routes[i] == Mount("stock", StockRouter())[i - 7 - n];
      assert [Lit("stock")] + [] == [Lit("stock")];
      assert [Lit("stock")] + [Param] == [Lit("stock"), Param];
    }
  }

  /** The router's listing and validated override are never dispatched. */
  lemma RouterStockHandlersUnreached(others: seq<Route>, verb: Verb, path: seq<string>)
    requires OtherRouters(others)
    ensures Dispatch(Registered(others), verb, path) != Some(ListStockByName)
    ensures Dispatch(Registered(others), verb, path) != Some(SetStock)
  {
    var routes := Registered(others);
    match FirstMatch(routes, verb, path)
    case None =>
    case Some(i) =>
      RouterStockRoutesShadowed(others, i);
      if routes[i].handler == ListStockByName {
        assert path == ["stock"];
        IndexListingAnswersFirst(others);
      } else if routes[i].handler == SetStock {
        assert path == ["stock", path[1]];
        IndexOverrideAnswersFirst(others, path[1]);
      }
  }

  /** The sale decrement is answered by the stock router. */
  lemma RouterDecreaseReached(others: seq<Route>, id: string)
    requires OtherRouters(others)
    requires id != ""
    ensures Dispatch(Registered(others), Post, ["stock", "decrease", id]) == Some(DecreaseStock)
  {
    var path := ["stock", "decrease", id];
    DispatchStages(AppRoutes(), others, Post, path);
    AppRoutesMiss(Post, path);
    MountDispatch("orders", OrdersRouter(), Post, path);
    MountDispatch("stock", StockRouter(), Post, path);
    assert path[1..] == ["decrease", id];
    FirstMatchIs(StockRouter(), Post, ["decrease", id], 2);
  }

  /** Order creation is answered by the orders router. */
  lemma RouterCreateOrderReached(others: seq<Route>)
    requires OtherRouters(others)
    ensures Dispatch(Registered(others), Post, ["orders"]) == Some(CreateOrder)
  {
    var path := ["orders"];
    DispatchStages(AppRoutes(), others, Post, path);
    AppRoutesMiss(Post, path);
    MountDispatch("orders", OrdersRouter(), Post, path);
    assert path[1..] == [];
    FirstMatchIs(OrdersRouter(), Post, [], 0);
  }

  /** Without the two stock routes of backend/index.js, the stock router
      answers the listing. */
  lemma IntendedStockListing(others: seq<Route>)
    requires OtherRouters(others)
    ensures Dispatch(IntendedRoutes(others), Get, ["stock"]) == Some(ListStockByName)
  {
    var path := ["stock"];
    DispatchStages(AppRoutes()[..4], others, Get, path);
    AppRoutesHeadMiss(Get, path);
    MountDispatch("orders", OrdersRouter(), Get, path);
    MountDispatch("stock", StockRouter(), Get, path);
    assert path[1..] == [];
    FirstMatchIs(StockRouter(), Get, [], 0);
  }

  /** Without the two stock routes of backend/index.js, the stock router's
      validated handler answers the override. */
  lemma IntendedStockOverride(others: seq<Route>, id: string)
    requires OtherRouters(others)
    requires id != ""
    ensures Dispatch(IntendedRoutes(others), Put, ["stock", id]) == Some(SetStock)
  {
    var path := ["stock", id];
    DispatchStages(AppRoutes()[..4], others, Put, path);
    AppRoutesHeadMiss(Put, path);
    MountDispatch("orders", OrdersRouter(), Put, path);
    MountDispatch("stock", StockRouter(), Put, path);
    assert path[1..] == [id];
    FirstMatchIs(StockRouter(), Put, [id], 1);
  }

  // ---------------------------------------------------------------------
  // PUT /stock/:id end to end

  /** The product table after PUT /stock/<segment> with an integer stock in
      the body, `id` being the key the segment names. */
  function PutStock(routes: seq<Route>, products: map<int, Product>, segment: string, id: int, stock: int): map<int, Product> {
    match Dispatch(routes, Put, ["stock", segment])
    case Some(OverrideStock) => App.OverrideStockSpec(products, id, stock)
    case Some(SetStock) => Stock.SetStockSpec(products, id, Num(stock)).products
    case _ => products
  }

  /** As registered, PUT /stock/:id stores a negative stock. */
  lemma PutStockAsWrittenStoresNegative(others: seq<Route>, products: map<int, Product>, segment: string, id: int, stock: int)
    requires OtherRouters(others)
    requires segment != "" && id in products && stock < 0
    ensures PutStock(Registered(others), products, segment, id, stock)[id].stock == stock
    ensures !StockNonNegative(PutStock(Registered(others), products, segment, id, stock))
  {
    IndexOverrideAnswersFirst(others, segment);
    App.OverrideAdmitsNegativeStock(products, id, stock);
  }

  /** With the stock router answering, PUT /stock/:id is the validated
      override: a table without negative stock keeps none, whatever the
      body asks for. */
  lemma PutStockIntendedKeepsStockNonNegative(others: seq<Route>, products: map<int, Product>, segment: string, id: int, stock: int)
    requires OtherRouters(others)
    requires segment != ""
    ensures PutStock(IntendedRoutes(others), products, segment, id, stock) == Stock.SetStockSpec(products, id, Num(stock)).products
    ensures StockNonNegative(products) ==> StockNonNegative(PutStock(IntendedRoutes(others), products, segment, id, stock))
    ensures stock < 0 ==> PutStock(IntendedRoutes(others), products, segment, id, stock) == products
  {
    IntendedStockOverride(others, segment);
  }
}

/** The handlers written directly in backend/index.js: login and register
    over the users table, product creation with its field checks, and the
    unvalidated stock override that PUT /stock/:id reaches first. */
module App {
  import opened Models
  import opened Store
  import Stock

  datatype AppError = UserNotFound | WrongPassword | EmailTaken | MissingFields | InvalidCategory | ProductRejected

  // ---------------------------------------------------------------------
  // The users table

  /** User.findOne({ where: { email } }): the position of the first row, in
      table order, whose email is the given one. */
  function FindByEmail(users: seq<User>, email: string): (r: Option<nat>)
    ensures r.Some? ==>
      && r.value < |users| && users[r.value].email == email
      && forall j :: 0 <= j < r.value ==> users[j].email != email
    ensures r.None? <==> forall j :: 0 <= j < |users| ==> users[j].email != email
  {
    if users == [] then None
    else if users[0].email == email then Some(0)
    else match FindByEmail(users[1..], email)
      case None => None
      case Some(k) => Some(k + 1)
  }

  predicate EmailRegistered(users: seq<User>, email: string) {
    exists j :: 0 <= j < |users| && users[j].email == email
  }

  // ---------------------------------------------------------------------
  // POST /login

  /** The user found by email must exist, and the given password must equal
      the stored one. */
  function Login(users: seq<User>, email: string, password: string): (r: Result<User, AppError>)
    ensures r == Err(UserNotFound) <==> !EmailRegistered(users, email)
    ensures r.Ok? ==> r.value in users && r.value.email == email && r.value.password == password
    ensures r == Err(WrongPassword) ==>
      exists j :: 0 <= j < |users| && users[j].email == email && users[j].password != password
    ensures r.Ok? || r == Err(UserNotFound) || r == Err(WrongPassword)
  {
    match FindByEmail(users, email)
    case None => Err(UserNotFound)
    case Some(k) => if password == users[k].password then Ok(users[k]) else Err(WrongPassword)
  }

  /** With unique emails, login is an exact match on the pair. */
  lemma LoginExactMatch(users: seq<User>, email: string, password: string)
    requires UniqueEmails(users)
    ensures Login(users, email, password).Ok? <==>
            exists u :: u in users && u.email == email && u.password == password
  {
    if u :| u in users && u.email == email && u.password == password {
      var i :| 0 <= i < |users| && users[i] == u;
      assert FindByEmail(users, email).Some?;
      var k := FindByEmail(users, email).value;
      assert users[i].email == email == users[k].email;
      assert k == i;
    }
  }

  // ---------------------------------------------------------------------
  // POST /register

  /** The users table after a registration and the reply. */
  datatype Registration = Registration(users: seq<User>, reply: Result<User, AppError>)

  /** An email already present is refused; otherwise exactly one user is
      appended, with the next key and the given fields. */
  function RegisterSpec(users: seq<User>, nextUserId: int, username: string, email: string, password: string): (r: Registration)
    ensures r.reply == Err(EmailTaken) <==> EmailRegistered(users, email)
    ensures r.reply.Err? ==> r.reply == Err(EmailTaken) && r.users == users
    ensures r.reply.Ok? ==>
      && r.users == users + [r.reply.value]
      && r.reply.value == User(nextUserId, username, email, password)
  {
    if FindByEmail(users, email).Some? then Registration(users, Err(EmailTaken))
    else
      var user := User(nextUserId, username, email, password);
      Registration(users + [user], Ok(user))
  }

  method Register(db: Db, username: string, email: string, password: string) returns (reply: Result<User, AppError>)
    requires db.Valid()
    modifies db`users, db`nextUserId
    ensures db.Valid()
    ensures Registration(db.users, reply) == RegisterSpec(old(db.users), old(db.nextUserId), username, email, password)
    ensures db.nextUserId == if reply.Ok? then old(db.nextUserId) + 1 else old(db.nextUserId)
    ensures reply.Ok? ==> forall i :: 0 <= i < |old(db.users)| ==> old(db.users)[i].id != reply.value.id
  {
    var existing := FindByEmail(db.users, email);
    if existing.Some? {
      return Err(EmailTaken);
    }
    RegisterKeepsEmailsUnique(db.users, db.nextUserId, username, email, password);
    var user := User(db.nextUserId, username, email, password);
    db.users := db.users + [user];
    db.nextUserId := db.nextUserId + 1;
    reply := Ok(user);
  }

  lemma RegisterKeepsEmailsUnique(users: seq<User>, nextUserId: int, username: string, email: string, password: string)
    requires UniqueEmails(users)
    ensures UniqueEmails(RegisterSpec(users, nextUserId, username, email, password).users)
  {
    var r := RegisterSpec(users, nextUserId, username, email, password);
    if r.reply.Ok? {
      forall i, j | 0 <= i < j < |r.users| ensures r.users[i].email != r.users[j].email {
        if j == |users| {
          assert r.users[i] == users[i];
        }
      }
    }
  }

  /** A user just registered can log in with the same email and password,
      and a second registration with that email is refused. */
  lemma {:induction false} RegisterThenLogin(users: seq<User>, nextUserId: int, username: string, email: string, password: string)
    ensures var r := RegisterSpec(users, nextUserId, username, email, password);
            r.reply.Ok? ==>
              && Login(r.users, email, password) == Ok(r.reply.value)
              && RegisterSpec(r.users, nextUserId + 1, username, email, password).reply == Err(EmailTaken)
  {
    var r := RegisterSpec(users, nextUserId, username, email, password);
    if r.reply.Ok? {
      assert r.users[|users|].email == email;
      var k := FindByEmail(r.users, email);
      assert k.Some?;
      assert k.value == |users|;
    }
  }

  // ---------------------------------------------------------------------
  // POST /products

  /** `!name || !price || !categoryId`: an absent or empty name, an absent
      or zero price, or a falsy category. */
  predicate MissingField(name: Option<string>, price: Option<int>, categoryId: Value) {
    name == None || name == Some("") || price == None || price == Some(0) || Falsy(categoryId)
  }

  predicate IsDigit(c: char) {
    '0' <= c <= '9'
  }

  /** A non-empty string of decimal digits. */
  predicate DigitText(s: string) {
    |s| > 0 && forall i :: 0 <= i < |s| ==> IsDigit(s[i])
  }

  /** isNaN of a body field: a number is numeric, and a string is numeric
      when it is written in decimal digits. */
  predicate IsNaN(v: Value) {
    match v
    case Missing => true
    case Num(_) => false
    case Text(s) => !DigitText(s)
  }

  /** The value of a string of decimal digits. */
  function DigitsValue(s: string): (r: int)
    requires forall i :: 0 <= i < |s| ==> IsDigit(s[i])
    ensures r >= 0
    decreases |s|
  {
    if |s| == 0 then 0
    else
      assert IsDigit(s[|s|-1]);
      10 * DigitsValue(s[..|s|-1]) + (s[|s|-1] as int - '0' as int)
  }

  /** The decimal rendering of a natural number, without leading zeros. */
  function Show(n: nat): (s: string)
    ensures DigitText(s)
  {
    var d := ['0' + (n % 10) as char];
    if n < 10 then d else Show(n / 10) + d
  }

  /** Reading back the decimal rendering of a number gives the number. */
  lemma {:induction false} DigitsValueShow(n: nat)
    ensures DigitsValue(Show(n)) == n
  {
    var s := Show(n);
    var d := ['0' + (n % 10) as char];
    if n >= 10 {
      assert s == Show(n / 10) + d;
      assert s[..|s| - 1] == Show(n / 10);
      DigitsValueShow(n / 10);
    }
  }

  /** parseInt(categoryId, 10) of a field that passed the isNaN check. */
  function ParseInt(v: Value): (r: int)
    requires !IsNaN(v)
    ensures v.Num? ==> r == v.n
    ensures v.Text? ==> r >= 0
  {
    match v
    case Num(n) => n
    case Text(s) => DigitsValue(s)
  }

  /** parseInt of the decimal rendering of a natural number is that number. */
  lemma ParseIntShow(n: nat)
    ensures !IsNaN(Text(Show(n))) && ParseInt(Text(Show(n))) == n
  {
    DigitsValueShow(n);
  }

  /** The products table after a creation request and the reply. */
  datatype ProductCreation = ProductCreation(products: map<int, Product>, reply: Result<Product, AppError>)

  /** Missing fields are refused first, then a category that is not a
      number; the database then refuses a price that does not fit
      DECIMAL(10, 2).  Otherwise one product is inserted under the next key,
      with the given name, price and category and the default stock 0. */
  function CreateProductSpec(products: map<int, Product>, nextId: int,
                             name: Option<string>, price: Option<int>, categoryId: Value): (r: ProductCreation)
    ensures r.reply == Err(MissingFields) <==> MissingField(name, price, categoryId)
    ensures r.reply == Err(InvalidCategory) <==> !MissingField(name, price, categoryId) && IsNaN(categoryId)
    ensures r.reply == Err(ProductRejected) <==>
      !MissingField(name, price, categoryId) && !IsNaN(categoryId) && !PriceFits(price.value)
    ensures !MissingField(name, price, categoryId) && !IsNaN(categoryId) && PriceFits(price.value) ==> r.reply.Ok?
    ensures r.reply.Err? ==> r.products == products
    ensures r.reply.Ok? ==>
      && name.Some? && name.value != "" && price.Some? && price.value != 0 && PriceFits(price.value)
      && !IsNaN(categoryId)
      && r.reply.value == Product(nextId, name.value, price.value, Some(ParseInt(categoryId)), 0)
      && r.products == products[nextId := r.reply.value]
  {
    if name == None || name == Some("") || price == None || price == Some(0) || Falsy(categoryId) then
      ProductCreation(products, Err(MissingFields))
    else if IsNaN(categoryId) then ProductCreation(products, Err(InvalidCategory))
    else if !PriceFits(price.value) then ProductCreation(products, Err(ProductRejected))
    else
      var p := NewProduct(nextId, name.value, price.value, ParseInt(categoryId));
      ProductCreation(products[nextId := p], Ok(p))
  }

  method CreateProduct(db: Db, name: Option<string>, price: Option<int>, categoryId: Value) returns (reply: Result<Product, AppError>)
    requires db.Valid()
    modifies db`products, db`nextProductId
    ensures db.Valid()
    ensures ProductCreation(db.products, reply) == CreateProductSpec(old(db.products), old(db.nextProductId), name, price, categoryId)
    ensures db.nextProductId == if reply.Ok? then old(db.nextProductId) + 1 else old(db.nextProductId)
  {
    if name == None || name == Some("") || price == None || price == Some(0) || Falsy(categoryId) {
      return Err(MissingFields);
    }
    if IsNaN(categoryId) {
      return Err(InvalidCategory);
    }
    if !PriceFits(price.value) {
      return Err(ProductRejected);
    }
    var product := NewProduct(db.nextProductId, name.value, price.value, ParseInt(categoryId));
    db.products := db.products[db.nextProductId := product];
    db.nextProductId := db.nextProductId + 1;
    reply := Ok(product);
  }

  /** The auto-increment key is fresh: a created product takes a key no
      product holds, every earlier product is kept as it was, and the table
      stays keyed by id with non-negative stock. */
  lemma CreateProductFreshKey(products: map<int, Product>, nextId: int,
                              name: Option<string>, price: Option<int>, categoryId: Value)
    requires KeyedById(products)
    requires forall id :: id in products ==> id < nextId
    ensures var r := CreateProductSpec(products, nextId, name, price, categoryId);
            r.reply.Ok? ==>
              && r.reply.value.id !in products
              && r.products.Keys == products.Keys + {r.reply.value.id}
              && (forall id :: id in products ==> r.products[id] == products[id])
              && KeyedById(r.products)
              && (StockNonNegative(products) ==> StockNonNegative(r.products))
  {
  }

  /** The falsiness check and isNaN disagree on zero: the number 0 is
      refused as missing, while the string "0" passes both checks and is
      stored as category 0. */
  lemma CategoryZeroAsText(products: map<int, Product>, nextId: int, name: string, price: int)
    requires name != "" && price != 0 && PriceFits(price)
    ensures CreateProductSpec(products, nextId, Some(name), Some(price), Num(0)).reply == Err(MissingFields)
    ensures CreateProductSpec(products, nextId, Some(name), Some(price), Text("0")).reply
              == Ok(Product(nextId, name, price, Some(0), 0))
  {
    assert DigitText("0");
    assert DigitsValue("0") == 10 * DigitsValue("") + 0;
  }

  // ---------------------------------------------------------------------
  // PUT /stock/:id in index.js — the unvalidated override

  /** Product.update({ stock }, { where: { id } }): the row with that key, if
      any, takes the given stock as it is; every other row, and every other
      field of that row, is unchanged.  No key matching is not an error. */
  function OverrideStockSpec(products: map<int, Product>, id: int, stock: int): (r: map<int, Product>)
    ensures r.Keys == products.Keys
    ensures id in products ==> r[id] == products[id].(stock := stock)
    ensures forall k :: k in products && k != id ==> r[k] == products[k]
  {
    if id in products then products[id := products[id].(stock := stock)] else products
  }

  /** Always answers that the stock was updated. */
  method OverrideStock(db: Db, id: int, stock: int)
    requires db.Valid()
    modifies db`products
    ensures db.Valid()
    ensures db.products == OverrideStockSpec(old(db.products), id, stock)
  {
    if id in db.products {
      var product := db.products[id];
      db.products := db.products[id := product.(stock := stock)];
    }
  }

  /** The override writes a negative stock that the router's validated
      handler, given the same body, refuses without changing anything. */
  lemma OverrideAdmitsNegativeStock(products: map<int, Product>, id: int, stock: int)
    requires id in products && stock < 0
    ensures OverrideStockSpec(products, id, stock)[id].stock == stock
    ensures !StockNonNegative(OverrideStockSpec(products, id, stock))
    ensures Stock.SetStockSpec(products, id, Num(stock)).reply == Err(Stock.InvalidStock)
    ensures Stock.SetStockSpec(products, id, Num(stock)).products == products
  {
  }
}

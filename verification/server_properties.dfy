/** Properties of the server over the abstract store: the schema invariant is
    kept by every handler, the seed import is idempotent, and the routes fit
    together (register, then login, then order). */
module ServerProperties {
  import opened Wrappers
  import opened Store
  import opened Auth
  import opened AuthProperties
  import opened Routes

  /** A seed list whose ids are all present already changes nothing: it
      follows from the contract of `SeedProducts`. */
  lemma SeedPresentIsNoop(table: map<int, Product>, seed: seq<Product>)
    requires forall i :: 0 <= i < |seed| ==> seed[i].id in table
    ensures SeedProducts(table, seed) == table
  {
  }

  /** Seeding twice with the same list gives the table of seeding once. */
  lemma SeedIdempotent(table: map<int, Product>, seed: seq<Product>)
    ensures SeedProducts(SeedProducts(table, seed), seed) == SeedProducts(table, seed)
  {
    var once := SeedProducts(table, seed);
    forall i | 0 <= i < |seed|
      ensures seed[i].id in once
    {
      assert seed[i].id in SeedIds(seed);
    }
    SeedPresentIsNoop(once, seed);
  }

  /** The startup import run twice (two server starts over one database file)
      leaves the database as one run does. */
  lemma ImportIdempotent(db: Db, file: Option<seq<Product>>)
    ensures ImportProducts(ImportProducts(db, file), file) == ImportProducts(db, file)
  {
    if file.Some? {
      SeedIdempotent(db.products, file.value);
    }
  }

  /** After the import every seed id is served by `GET /api/products/:id`; an id
      that was not in the table before is served as its first seed entry. */
  lemma SeededProductServed(db: Db, seed: seq<Product>, i: nat)
    requires i < |seed|
    ensures GetProduct(ImportProducts(db, Some(seed)), seed[i].id).status == 200
    ensures seed[i].id !in db.products && FirstOfId(seed, i) ==>
      GetProduct(ImportProducts(db, Some(seed)), seed[i].id) == Response(200, ProductRow(seed[i]))
  {
    assert seed[i].id in SeedIds(seed);
  }

  /** Registration keeps the schema invariant, in particular the UNIQUE
      constraints on username and email. */
  lemma RegisterKeepsValid(db: Db, req: RegisterRequest, crypto: Crypto, salt: string)
    requires Valid(db)
    ensures Valid(Register(db, req, crypto, salt).db)
  {
    var r := Register(db, req, crypto, salt);
    if r.response.status == 200 {
      assert r.db.users == db.users[db.nextUser := r.db.users[db.nextUser]];
    }
  }

  /** Placing an order keeps the schema invariant: the new items all reference
      the new order, and every id stays below its counter. */
  lemma PlaceOrderKeepsValid(db: Db, header: Option<string>, items: ItemsField, crypto: Crypto, now: int)
    requires Valid(db)
    ensures Valid(PlaceOrder(db, header, items, crypto, now).db)
  {
    var r := PlaceOrder(db, header, items, crypto, now);
    if r.response.status == 200 {
      var lines := items.lines;
      forall id | id in r.db.items
        ensures r.db.items[id].id == id && 0 < id < r.db.nextItem
        ensures r.db.items[id].orderId in r.db.orders
      {
        if id !in db.items {
          var k := id - db.nextItem;
          assert 0 <= k < |lines|;
          var line := lines[k];
          assert r.db.items[db.nextItem + k] == OrderItem(id, db.nextOrder, line.productId, line.quantity);
        }
      }
    }
  }

  /** The second registration of a taken username is refused as a conflict
      and writes nothing. */
  lemma RegisterTwiceConflicts(db: Db, first: RegisterRequest, second: RegisterRequest, crypto: Crypto, salt1: string, salt2: string)
    requires Register(db, first, crypto, salt1).response.status == 200
    requires AllGiven(second) && second.username == first.username
    requires crypto.hash(second.password.value, salt2).Some?
    ensures var db' := Register(db, first, crypto, salt1).db;
      Register(db', second, crypto, salt2) == Reply(db', Response(400, Message("Username or email taken")))
  {
    var db' := Register(db, first, crypto, salt1).db;
    assert db'.users[db.nextUser].username == second.username.value;
  }

  /** bcrypt accepts the password a digest was made from. */
  predicate BcryptSound(crypto: Crypto, password: string, salt: string)
  {
    crypto.hash(password, salt).Some? ==> crypto.compare(password, crypto.hash(password, salt).value)
  }

  /** A user just registered can log in with the same password, and the token
      issued carries the new id and the username. */
  lemma RegisterThenLogin(db: Db, req: RegisterRequest, crypto: Crypto, salt: string)
    requires Valid(db)
    requires Register(db, req, crypto, salt).response.status == 200
    requires BcryptSound(crypto, req.password.value, salt)
    ensures var db' := Register(db, req, crypto, salt).db;
      && UniqueUsers(db'.users)
      && Login(db', LoginRequest(req.username, req.password), crypto) ==
         Response(200, LoggedIn(crypto.sign(Claims(db.nextUser, req.username.value)), req.username.value))
  {
    RegisterKeepsValid(db, req, crypto, salt);
    var db' := Register(db, req, crypto, salt).db;
    var id := db.nextUser;
    assert db'.users[id].username == req.username.value;
    assert crypto.compare(req.password.value, db'.users[id].password);
    assert CredentialsMatch(db'.users, req.username.value, req.password.value, crypto);
  }

  /** JWT hands back the claims a token was signed with, and its tokens are
      non-empty and free of spaces. */
  predicate JwtSound(crypto: Crypto, claims: Claims)
  {
    var token := crypto.sign(claims);
    token != "" && ' ' !in token && crypto.verify(token) == Some(claims)
  }

  /** A token from login, sent back as `Bearer <token>` with a non-empty item
      list, places an order owned by that user. */
  lemma TokenPlacesOrder(db: Db, claims: Claims, lines: seq<Line>, crypto: Crypto, now: int)
    requires JwtSound(crypto, claims)
    requires |lines| > 0
    ensures var r := PlaceOrder(db, Some("Bearer " + crypto.sign(claims)), Items(lines), crypto, now);
      && r.response == Response(200, OrderPlaced("Order placed successfully", db.nextOrder))
      && r.db.orders[db.nextOrder].userId == claims.id
  {
    BearerOfToken(crypto.sign(claims));
  }

  /** Each line adds one row under a new id. */
  lemma {:induction false} AddItemsSize(table: map<nat, OrderItem>, next: nat, orderId: nat, lines: seq<Line>)
    requires forall id :: id in table ==> id < next
    ensures |AddItems(table, next, orderId, lines).table| == |table| + |lines|
    decreases |lines|
  {
    if |lines| > 0 {
      var row := OrderItem(next, orderId, lines[0].productId, lines[0].quantity);
      assert |table[next := row]| == |table| + 1;
      AddItemsSize(table[next := row], next + 1, orderId, lines[1..]);
    }
  }

  /** An accepted order adds exactly one order row and exactly one item row per line. */
  lemma PlaceOrderRowCounts(db: Db, header: Option<string>, items: ItemsField, crypto: Crypto, now: int)
    requires Valid(db)
    requires PlaceOrder(db, header, items, crypto, now).response.status == 200
    ensures var r := PlaceOrder(db, header, items, crypto, now);
      && |r.db.orders| == |db.orders| + 1
      && |r.db.items| == |db.items| + |items.lines|
  {
    AddItemsSize(db.items, db.nextItem, db.nextOrder, items.lines);
  }

  /** Ordering `[{id: 1, quantity: 2}, {id: 2, quantity: 1}]` as an
      authenticated user adds exactly one order and exactly two items, both
      referencing it. */
  lemma TwoLineOrder(db: Db, header: Option<string>, crypto: Crypto, now: int)
    requires Valid(db)
    requires Authenticate(header, crypto.verify).Authorized?
    ensures var r := PlaceOrder(db, header, Items([Line(1, 2), Line(2, 1)]), crypto, now);
      && r.response.status == 200
      && |r.db.orders| == |db.orders| + 1
      && |r.db.items| == |db.items| + 2
      && r.db.items[db.nextItem] == OrderItem(db.nextItem, db.nextOrder, 1, 2)
      && r.db.items[db.nextItem + 1] == OrderItem(db.nextItem + 1, db.nextOrder, 2, 1)
  {
    var lines := [Line(1, 2), Line(2, 1)];
    var r := PlaceOrder(db, header, Items(lines), crypto, now);
    var n := db.nextItem;
    assert r.response.status == 200;
    assert r.db.items[n + 0] == OrderItem(n + 0, db.nextOrder, lines[0].productId, lines[0].quantity);
    assert r.db.items[n + 1] == OrderItem(n + 1, db.nextOrder, lines[1].productId, lines[1].quantity);
    PlaceOrderRowCounts(db, header, Items(lines), crypto, now);
  }
}

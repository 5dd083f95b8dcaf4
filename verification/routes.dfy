/** The route handlers of `backend/server.js`, each a pure function from the
    database and a request to the new database and the response. bcrypt and
    JWT are uninterpreted functions supplied in a `Crypto` value. */
module Routes {
  import opened Wrappers
  import opened Store
  import opened Auth

  /** The foreign cryptography. `hash(password, salt)` is `bcrypt.hash` at cost
      10 with the salt it drew (`None` is its error); `compare(password, digest)`
      is `bcrypt.compare`, an error counting as a mismatch; `sign` is `jwt.sign`
      with the server secret and a one-hour expiry; `verify` is `jwt.verify`,
      `None` for a malformed, forged or expired token. */
  datatype Crypto = Crypto(
    hash: (string, string) -> Option<string>,
    compare: (string, string) -> bool,
    sign: Claims -> string,
    verify: string -> Option<Claims>)

  /** The JSON body of a response. */
  datatype Body =
    | Message(text: string)
    | Registered(id: nat, username: string, email: string)
    | LoggedIn(token: string, username: string)
    | ProductRow(product: Product)
    | OrderPlaced(message: string, orderId: nat)

  datatype Response = Response(status: nat, body: Body)

  /** A handler's outcome: the database afterwards and the response sent. */
  datatype Reply = Reply(db: Db, response: Response)

  /** A string field of a JSON request body; `None` is a field left out. */
  type Field = Option<string>

  /** JavaScript truthiness of a string field: present and non-empty. */
  predicate Given(field: Field)
  {
    field.Some? && field.value != ""
  }

  datatype RegisterRequest = RegisterRequest(username: Field, password: Field, email: Field)

  datatype LoginRequest = LoginRequest(username: Field, password: Field)

  /** One element `{id, quantity}` of an order's `items`. */
  datatype Line = Line(productId: int, quantity: int)

  /** The `items` member of an order request: absent or falsy, some other
      non-array value, or an array. */
  datatype ItemsField = NoItems | NotAnArray | Items(lines: seq<Line>)

  predicate AllGiven(req: RegisterRequest)
  {
    Given(req.username) && Given(req.password) && Given(req.email)
  }

  /** `POST /api/users/register`. */
  function Register(db: Db, req: RegisterRequest, crypto: Crypto, salt: string): (r: Reply)
    ensures !AllGiven(req) ==> r == Reply(db, Response(400, Message("All fields required")))
    ensures AllGiven(req) && crypto.hash(req.password.value, salt).None? ==>
      r == Reply(db, Response(500, Message("Server error")))
    ensures (AllGiven(req) && crypto.hash(req.password.value, salt).Some? &&
             (UsernameTaken(db.users, req.username.value) || EmailTaken(db.users, req.email.value))) ==>
      r == Reply(db, Response(400, Message("Username or email taken")))
    ensures r.response.status == 200 <==>
      && AllGiven(req) && crypto.hash(req.password.value, salt).Some?
      && !UsernameTaken(db.users, req.username.value) && !EmailTaken(db.users, req.email.value)
    ensures r.response.status == 200 ==>
      var id := db.nextUser;
      && r.response.body == Registered(id, req.username.value, req.email.value)
      && r.db == db.(
           users := db.users[id := User(id, req.username.value, crypto.hash(req.password.value, salt).value, req.email.value)],
           nextUser := id + 1)
      && (Valid(db) ==> id !in db.users && |r.db.users| == |db.users| + 1)
  {
    if !AllGiven(req) then Reply(db, Response(400, Message("All fields required")))
    else
      var username, password, email := req.username.value, req.password.value, req.email.value;
      match crypto.hash(password, salt)
      case None => Reply(db, Response(500, Message("Server error")))
      case Some(digest) =>
        if UsernameTaken(db.users, username) || EmailTaken(db.users, email) then
          Reply(db, Response(400, Message("Username or email taken")))
        else
          var id := db.nextUser;
          Reply(
            db.(users := db.users[id := User(id, username, digest, email)], nextUser := id + 1),
            Response(200, Registered(id, username, email)))
  }

  /** Some user row carries this username and accepts this password. */
  predicate CredentialsMatch(users: map<nat, User>, username: string, password: string, crypto: Crypto)
  {
    exists id :: id in users && users[id].username == username && crypto.compare(password, users[id].password)
  }

  /** `POST /api/users/login`. The database is only read. */
  function Login(db: Db, req: LoginRequest, crypto: Crypto): (r: Response)
    requires UniqueUsers(db.users)
    ensures !(Given(req.username) && Given(req.password)) ==>
      r == Response(400, Message("Username and password required"))
    ensures (Given(req.username) && Given(req.password) &&
             !CredentialsMatch(db.users, req.username.value, req.password.value, crypto)) ==>
      r == Response(400, Message("Invalid credentials"))
    ensures r.status == 200 <==>
      Given(req.username) && Given(req.password) &&
      CredentialsMatch(db.users, req.username.value, req.password.value, crypto)
    ensures r.status != 200 ==> r.status == 400
    ensures r.status == 200 ==> forall id :: id in db.users && db.users[id].username == req.username.value ==>
      r.body == LoggedIn(crypto.sign(Claims(db.users[id].id, req.username.value)), req.username.value)
  {
    if !(Given(req.username) && Given(req.password)) then
      Response(400, Message("Username and password required"))
    else
      var username, password := req.username.value, req.password.value;
      match FindUser(db.users, username)
      case None => Response(400, Message("Invalid credentials"))
      case Some(user) =>
        if !crypto.compare(password, user.password) then Response(400, Message("Invalid credentials"))
        else Response(200, LoggedIn(crypto.sign(Claims(user.id, user.username)), user.username))
  }

  /** `GET /api/products/:id`. */
  function GetProduct(db: Db, id: int): (r: Response)
    ensures r.status == 200 <==> id in db.products
    ensures id !in db.products ==> r == Response(404, Message("Product not found"))
    ensures id in db.products ==> r.body == ProductRow(db.products[id])
  {
    if id in db.products then Response(200, ProductRow(db.products[id]))
    else Response(404, Message("Product not found"))
  }

  /** The `order_items` table after the item inserts, and the next free id. */
  datatype ItemsAdded = ItemsAdded(table: map<nat, OrderItem>, next: nat)

  /** The prepared `INSERT INTO order_items` run once per line, in order, each
      insert taking the next AUTOINCREMENT id. Returns the table and the next
      free id. */
  function AddItems(table: map<nat, OrderItem>, next: nat, orderId: nat, lines: seq<Line>): (r: ItemsAdded)
    ensures r.next == next + |lines|
    ensures forall id :: id in r.table <==> id in table || next <= id < next + |lines|
    ensures forall id :: id in table && id < next ==> r.table[id] == table[id]
    ensures forall k :: 0 <= k < |lines| ==>
      r.table[next + k] == OrderItem(next + k, orderId, lines[k].productId, lines[k].quantity)
    decreases |lines|
  {
    if |lines| == 0 then ItemsAdded(table, next)
    else
      var row := OrderItem(next, orderId, lines[0].productId, lines[0].quantity);
      var r := AddItems(table[next := row], next + 1, orderId, lines[1..]);
      assert forall k :: 0 < k < |lines| ==> lines[k] == lines[1..][k - 1];
      r
  }

  /** A request whose `items` would be refused: absent, not an array, or empty. */
  predicate NoLines(items: ItemsField)
  {
    !items.Items? || |items.lines| == 0
  }

  /** `POST /api/order`, behind `authenticateToken`. `now` is the
      `CURRENT_TIMESTAMP` the new order row defaults to. */
  function PlaceOrder(db: Db, header: Option<string>, items: ItemsField, crypto: Crypto, now: int): (r: Reply)
    ensures r.response.status != 200 ==> r.db == db
    ensures BearerToken(header).None? ==> r.response == Response(401, Message("Token missing"))
    ensures BearerToken(header).Some? && crypto.verify(BearerToken(header).value).None? ==>
      r.response == Response(403, Message("Invalid token"))
    ensures Authenticate(header, crypto.verify).Authorized? && NoLines(items) ==>
      r.response == Response(400, Message("No items in order"))
    ensures r.response.status == 200 <==> Authenticate(header, crypto.verify).Authorized? && !NoLines(items)
    ensures r.response.status == 200 ==>
      var oid := db.nextOrder;
      var owner := Authenticate(header, crypto.verify).claims.id;
      && r.response.body == OrderPlaced("Order placed successfully", oid)
      && r.db.orders == db.orders[oid := Order(oid, owner, now)]
      && r.db.nextOrder == oid + 1
      && (Valid(db) ==> oid !in db.orders)
      && r.db.nextItem == db.nextItem + |items.lines|
      && (forall id :: id in r.db.items <==> id in db.items || db.nextItem <= id < db.nextItem + |items.lines|)
      && (forall k :: 0 <= k < |items.lines| ==>
            r.db.items[db.nextItem + k] ==
            OrderItem(db.nextItem + k, oid, items.lines[k].productId, items.lines[k].quantity))
      && (Valid(db) ==> forall id :: id in db.items ==> r.db.items[id] == db.items[id])
      && r.db.users == db.users && r.db.nextUser == db.nextUser && r.db.products == db.products
  {
    match Authenticate(header, crypto.verify)
    case TokenMissing => Reply(db, Response(401, Message("Token missing")))
    case TokenInvalid => Reply(db, Response(403, Message("Invalid token")))
    case Authorized(claims) =>
      if NoLines(items) then Reply(db, Response(400, Message("No items in order")))
      else
        var oid := db.nextOrder;
        var added := AddItems(db.items, db.nextItem, oid, items.lines);
        Reply(
          db.(orders := db.orders[oid := Order(oid, claims.id, now)], nextOrder := oid + 1,
              items := added.table, nextItem := added.next),
          Response(200, OrderPlaced("Order placed successfully", oid)))
  }
}

/** The four SQLite tables of `backend/server.js` as maps keyed by row id, with
    the AUTOINCREMENT counters, and the startup product import. */
module Store {
  import opened Wrappers

  /** A `users` row; `password` holds the bcrypt digest, never the password. */
  datatype User = User(id: nat, username: string, password: string, email: string)

  /** A `products` row. The `REAL` price is taken in whole minor units. */
  datatype Product = Product(id: int, name: string, price: int, description: string, image: string)

  /** An `orders` row. `userId` is whatever identity the session token carried;
      the foreign key is declared but SQLite does not enforce it by default. */
  datatype Order = Order(id: nat, userId: int, orderDate: int)

  /** An `order_items` row. */
  datatype OrderItem = OrderItem(id: nat, orderId: nat, productId: int, quantity: int)

  /** The database. Each `next*` is the id the next AUTOINCREMENT insert into
      that table receives: one more than the largest id ever handed out. */
  datatype Db = Db(
    users: map<nat, User>, nextUser: nat,
    products: map<int, Product>,
    orders: map<nat, Order>, nextOrder: nat,
    items: map<nat, OrderItem>, nextItem: nat)

  /** Freshly created tables; SQLite's first AUTOINCREMENT id is 1. */
  function Empty(): (db: Db)
    ensures Valid(db)
  {
    Db(map[], 1, map[], map[], 1, map[], 1)
  }

  predicate UsernameTaken(users: map<nat, User>, name: string)
  {
    exists id :: id in users && users[id].username == name
  }

  predicate EmailTaken(users: map<nat, User>, email: string)
  {
    exists id :: id in users && users[id].email == email
  }

  /** The `UNIQUE` constraints on `users.username` and `users.email`. */
  predicate UniqueUsers(users: map<nat, User>)
  {
    && (forall i, j :: i in users && j in users && users[i].username == users[j].username ==> i == j)
    && (forall i, j :: i in users && j in users && users[i].email == users[j].email ==> i == j)
  }

  /** What holds of every reachable database: rows sit under their own id
      and ids are below their table's counter (AUTOINCREMENT), users are
      unique (the `UNIQUE` columns), and every order item belongs to an
      existing order. SQLite does not enforce the foreign key, so the last
      holds only because the order handler writes items under the order it
      has just inserted. */
  predicate Valid(db: Db)
  {
    && 0 < db.nextUser && 0 < db.nextOrder && 0 < db.nextItem
    && (forall id :: id in db.users ==> db.users[id].id == id && 0 < id < db.nextUser)
    && UniqueUsers(db.users)
    && (forall id :: id in db.products ==> db.products[id].id == id)
    && (forall id :: id in db.orders ==> db.orders[id].id == id && 0 < id < db.nextOrder)
    && (forall id :: id in db.items ==> db.items[id].id == id && 0 < id < db.nextItem)
    && (forall id :: id in db.items ==> db.items[id].orderId in db.orders)
  }

  /** `SELECT * FROM users WHERE username = ?`: at most one row, by the UNIQUE constraint. */
  function FindUser(users: map<nat, User>, name: string): (r: Option<User>)
    requires UniqueUsers(users)
    ensures r.None? <==> !UsernameTaken(users, name)
    ensures r.Some? ==> r.value.username == name
    ensures r.Some? ==> forall id :: id in users && users[id].username == name ==> users[id] == r.value
  {
    if UsernameTaken(users, name) then
      var id :| id in users && users[id].username == name;
      Some(users[id])
    else None
  }

  /** One `INSERT OR IGNORE INTO products`: a row whose id is already present wins. */
  function InsertOrIgnore(table: map<int, Product>, p: Product): (r: map<int, Product>)
    ensures r.Keys == table.Keys + {p.id}
    ensures p.id !in table ==> r[p.id] == p
    ensures forall id :: id in table ==> r[id] == table[id]
  {
    if p.id in table then table else table[p.id := p]
  }

  /** The ids a seed list mentions. */
  function SeedIds(seed: seq<Product>): set<int>
  {
    set i | 0 <= i < |seed| :: seed[i].id
  }

  /** Entry `i` is the first in the seed list carrying its id. */
  predicate FirstOfId(seed: seq<Product>, i: nat)
    requires i < |seed|
  {
    forall j :: 0 <= j < i ==> seed[j].id != seed[i].id
  }

  /** The seed list applied in order, one insert-or-ignore per entry. */
  function SeedProducts(table: map<int, Product>, seed: seq<Product>): (r: map<int, Product>)
    ensures r.Keys == table.Keys + SeedIds(seed)
    ensures forall id :: id in table ==> r[id] == table[id]
    ensures forall i :: 0 <= i < |seed| && seed[i].id !in table && FirstOfId(seed, i) ==> r[seed[i].id] == seed[i]
    ensures forall id :: id in r && id !in table ==> r[id] in seed && r[id].id == id
    decreases |seed|
  {
    if |seed| == 0 then table
    else
      var r := SeedProducts(InsertOrIgnore(table, seed[0]), seed[1..]);
      SeedStep(table, seed, r);
      r
  }

  /** The inductive step of `SeedProducts`: what seeding the tail promises
      about the table after the first insert carries over to the whole list. */
  lemma SeedStep(table: map<int, Product>, seed: seq<Product>, r: map<int, Product>)
    requires |seed| > 0
    requires var first, rest := InsertOrIgnore(table, seed[0]), seed[1..];
      && r.Keys == first.Keys + SeedIds(rest)
      && (forall id :: id in first ==> r[id] == first[id])
      && (forall i :: 0 <= i < |rest| && rest[i].id !in first && FirstOfId(rest, i) ==> r[rest[i].id] == rest[i])
      && (forall id :: id in r && id !in first ==> r[id] in rest && r[id].id == id)
    ensures r.Keys == table.Keys + SeedIds(seed)
    ensures forall id :: id in table ==> r[id] == table[id]
    ensures forall i :: 0 <= i < |seed| && seed[i].id !in table && FirstOfId(seed, i) ==> r[seed[i].id] == seed[i]
    ensures forall id :: id in r && id !in table ==> r[id] in seed && r[id].id == id
  {
    var first, rest := InsertOrIgnore(table, seed[0]), seed[1..];
    assert SeedIds(seed) == {seed[0].id} + SeedIds(rest) by {
      assert forall i :: 0 < i < |seed| ==> seed[i] == rest[i - 1];
      assert forall i :: 0 <= i < |rest| ==> rest[i] == seed[i + 1];
    }
    forall id | id in table
      ensures r[id] == table[id]
    {
      assert id in first && first[id] == table[id];
    }
    forall i | 0 <= i < |seed| && seed[i].id !in table && FirstOfId(seed, i)
      ensures r[seed[i].id] == seed[i]
    {
      if i > 0 {
        assert seed[i] == rest[i - 1];
        assert seed[0].id != seed[i].id;
        assert FirstOfId(rest, i - 1) by {
          forall j | 0 <= j < i - 1
            ensures rest[j].id != rest[i - 1].id
          {
            assert rest[j] == seed[j + 1];
          }
        }
      }
    }
    forall id | id in r && id !in table
      ensures r[id] in seed && r[id].id == id
    {
      if id in first {
        assert id == seed[0].id && r[id] == seed[0];
      } else {
        var k :| 0 <= k < |rest| && rest[k] == r[id];
        assert seed[k + 1] == r[id];
      }
    }
  }

  /** The startup import: `None` is a products file that could not be read or
      parsed, which is logged and leaves the table as it was. */
  function ImportProducts(db: Db, file: Option<seq<Product>>): (r: Db)
    ensures file.None? ==> r == db
    ensures r == db.(products := r.products)
    ensures file.Some? ==> r.products.Keys == db.products.Keys + SeedIds(file.value)
    ensures r.products.Keys >= db.products.Keys
    ensures forall id :: id in db.products ==> r.products[id] == db.products[id]
    ensures r.users == db.users && r.orders == db.orders && r.items == db.items
    ensures Valid(db) ==> Valid(r)
  {
    match file
    case None => db
    case Some(seed) => db.(products := SeedProducts(db.products, seed))
  }
}

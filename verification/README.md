# Style_Smile shop: cart and request logic in Dafny

This project models the two small state machines of the Style_Smile
e-commerce demo:

- the **client cart** of `public/script.js`: a list of
  `{id, name, price, image, quantity}` entries changed by `addToCart`,
  `changeQty` and `removeFromCart`, written back to `localStorage` after each
  change, totalled by `renderCart`, and emptied by the place-order button;
- the **server request logic** of `backend/server.js` over an abstract store:
  the `users`, `products`, `orders` and `order_items` tables are maps keyed by
  row id, with counters for the AUTOINCREMENT ids. Each route handler is a pure
  function from the database and a request to the new database and a response
  (status and JSON body). The `Authorization` header parsing and the startup
  product import are modelled too.

bcrypt and JWT are not modelled: they are uninterpreted functions carried in a
`Routes.Crypto` value (`hash`, `compare`, `sign`, `verify`). The bcrypt salt
and the order timestamp (`CURRENT_TIMESTAMP`) are parameters. The products
file is a parameter (`None` when it cannot be read or parsed). Prices are
integers in minor currency units, so totals are exact.

Modules:

| file | module | contents |
|---|---|---|
| wrappers.dfy | Wrappers | `Option` |
| cart.dfy | Cart | cart entries, the client state, the three mutations, place order, the total and `renderCart` |
| cart_properties.dfy | CartProperties | what each mutation does, the invariants they keep, totals, the cart as an event-driven state machine |
| store.dfy | Store | the table rows, the database, its schema invariant `Valid`, user lookup, the insert-or-ignore seeding |
| auth.dfy | Auth | `split`/`join`, bearer-token extraction, the `authenticateToken` middleware |
| auth_properties.dfy | AuthProperties | split/join round trips, an independent characterisation of the extracted token |
| routes.dfy | Routes | register, login, product lookup, place order |
| server_properties.dfy | ServerProperties | invariant preservation, seeding idempotence, register → login → order flows |

The invariant `Store.Valid` collects what holds of every reachable database.
Every row sits under its own id and ids lie below their AUTOINCREMENT counter.
Usernames and emails are unique, which the `UNIQUE` columns guarantee
(backend/server.js:29-31). Every order item references an existing order.
SQLite does not enforce the `FOREIGN KEY(order_id)` declaration
(backend/server.js:57) by default, so this last part is kept by the order
handler, which writes items only under the order it has just inserted
(`ServerProperties.PlaceOrderKeepsValid`). `Routes.Login` takes the uniqueness of usernames as a
precondition. The `UNIQUE` constraint on `users.username` guarantees it for
every real database, and the lookup `SELECT … WHERE username = ?` relies on it.

Facts about the code that the model keeps:

- The `order_items` schema has no check on `quantity` (backend/server.js:52-59).
  The order handler validates only that `items` is a non-empty array
  (backend/server.js:163-164) and stores each line's quantity as sent
  (backend/server.js:180-182). Zero and negative quantities are stored.
- The order's `user_id` is the id carried by the token (backend/server.js:169).
  Nothing checks that such a user exists, and SQLite does not enforce the
  `FOREIGN KEY(user_id)` declaration (backend/server.js:48) by default.
- The cart's place-order button (public/script.js:132-140) makes no request to
  the server. It only clears the cart and its stored copy.

## Model

| member | source | states |
|---|---|---|
| Cart.Load | public/script.js:2 | reading the stored key gives the stored list, or the empty list when the key is absent |
| Cart.Start | public/script.js:2 | the cart loaded at start-up is what the stored key reads as, the storage is left as it is, so storage and memory agree |
| Cart.Save | public/script.js:68 | after a mutation (the same write follows at lines 115 and 122) the stored copy is the new in-memory cart, so storage and memory agree |
| Cart.IndexOf | public/script.js:62 | `cart.find` by id: the first position holding the id, or none exactly when no entry holds it |
| Cart.AddToCart | public/script.js:61-68 | the cart is written back; a present id keeps the length, an absent id appends one entry after the unchanged old cart; the id is present afterwards |
| CartProperties.AddExisting | public/script.js:62-64 | adding a present id raises that entry's quantity by exactly 1 and leaves the length, its other fields and all other entries unchanged |
| CartProperties.AddNew | public/script.js:65-66 | adding an absent id appends exactly one entry with quantity 1 and the given name, price and image |
| Cart.ChangeQty | public/script.js:110-117 | an index outside the cart throws and changes nothing; otherwise the quantity becomes old + delta when that is positive (nothing else changes), else exactly that index is deleted with the others keeping order and values; the cart is written back |
| Cart.SpliceStart | public/script.js:121 | `splice`'s start argument: a negative index counts back from the end, and out-of-range starts are clamped |
| Cart.DeleteAt | public/script.js:113 | deleting position k shortens the cart by one, keeps the entries before k and shifts the later ones down; a position past the end deletes nothing |
| Cart.RemoveFromCart | public/script.js:120-124 | for a valid index the new cart is `cart[..idx] + cart[idx+1..]`; past the end nothing changes; negative indices remove from the end; the cart is written back |
| Cart.PlaceOrder | public/script.js:132-140 | an empty cart raises "Cart empty" and changes nothing; otherwise the cart is emptied and its stored key removed, which reads back as empty |
| Cart.RenderCart | public/script.js:81-106 | an empty cart shows the empty state and no total; otherwise the shown total is the sum of price × quantity over the entries |
| CartProperties.DeleteAtKeepsWellFormed | public/script.js:113 | deleting an entry keeps ids distinct and quantities at least 1 |
| CartProperties.AddKeepsWellFormed | public/script.js:62-66 | `addToCart` keeps ids pairwise distinct and every quantity at least 1 |
| CartProperties.ChangeQtyKeepsWellFormed | public/script.js:110-114 | `changeQty` keeps ids distinct and quantities at least 1, because a line that would drop to 0 or below is removed |
| CartProperties.RemoveKeepsWellFormed | public/script.js:120-121 | `removeFromCart` keeps ids distinct and quantities at least 1 |
| CartProperties.ApplyKeepsInvariant | public/script.js:61-137 | every click event keeps the invariants and leaves the stored copy equal to the in-memory cart |
| CartProperties.RunKeepsInvariant | public/script.js:61-137 | any sequence of click events keeps distinct ids, positive quantities and storage mirroring memory |
| CartProperties.TotalAppend | public/script.js:87-89 | the total of two carts put together is the sum of their totals |
| CartProperties.TotalAround | public/script.js:87-89 | the total splits around any position into the entries before, that line and the entries after |
| CartProperties.TotalUpdate | public/script.js:87-89 | replacing one line changes the total by the difference of the two line totals |
| CartProperties.TotalDelete | public/script.js:87-89 | deleting one line takes exactly its line total out of the total |
| CartProperties.TotalAfterAdd | public/script.js:61-68 | `addToCart` raises the total by the stored price of the existing entry, or by the given price for a new entry |
| CartProperties.TotalAfterChangeQty | public/script.js:110-114 | `changeQty` moves the total by price × delta, or removes the whole line total when the line is dropped |
| CartProperties.TotalAfterRemove | public/script.js:120-121 | `removeFromCart` at a valid index removes exactly that line's total |
| CartProperties.AddTwiceThenDrop | public/script.js:61-117 | adding product 1 twice gives one entry of quantity 2 and total 20, and `changeQty(0, -2)` empties the cart |
| Store.Empty | backend/server.js:25-60 | freshly created tables satisfy the schema invariant |
| Store.FindUser | backend/server.js:124 | the username lookup finds nothing exactly when no row has the name, and otherwise returns the one row that has it |
| Store.InsertOrIgnore | backend/server.js:69-71 | one `INSERT OR IGNORE`: the id is present afterwards, a row already under it is kept, otherwise the new row is stored, and all other rows are unchanged |
| Store.SeedStep | backend/server.js:67-72 | the step of the seeding loop: what seeding the rest of the list promises after the first insert carries over to the whole list |
| Store.SeedProducts | backend/server.js:67-72 | insert-or-ignore: the ids afterwards are the old ids plus the seed ids, existing rows are never overwritten, a new id gets its first seed entry, and every new row comes from the seed |
| Store.ImportProducts | backend/server.js:63-76 | an unreadable products file changes nothing; a readable one adds exactly its ids to the product table; existing products stay as they were; nothing but the product table changes; the invariant is kept |
| Auth.Split | backend/server.js:81 | `split(" ")` yields at least one field, no field holds the separator, and joining the fields gives back the header |
| Auth.BearerToken | backend/server.js:80-82 | no header means no token; an extracted token is never empty and contains no space |
| Auth.Authenticate | backend/server.js:79-89 | 401 exactly when no token can be extracted; 403 exactly when a token is extracted and verification fails; otherwise the request carries the verified claims |
| AuthProperties.SplitPrefix | backend/server.js:81 | a separator-free prefix joins the first field of what follows it |
| AuthProperties.SplitJoin | backend/server.js:81 | splitting undoes joining for separator-free fields |
| AuthProperties.BearerTokenHasLayout | backend/server.js:80-82 | every extracted token is non-empty, space-free, and follows the header's first space up to the next space or the end |
| AuthProperties.LayoutYieldsBearerToken | backend/server.js:80-82 | a header `a + " " + t + rest` with `a`, `t` space-free, `t` non-empty and `rest` empty or starting with a space yields the token `t` |
| AuthProperties.BearerTokenIff | backend/server.js:80-82 | the token is `t` exactly when the header is `a + " " + t + rest` with `a` and `t` space-free, `t` non-empty and `rest` empty or starting with a space |
| AuthProperties.MissingTokenNeverVerified | backend/server.js:82-85 | without a token the answer is 401 whatever the verifier would say |
| AuthProperties.BearerOfToken | backend/server.js:81 | the header `Bearer <token>` yields that token when it is non-empty and space-free |
| Routes.Register | backend/server.js:92-116 | a missing or empty field gives 400 and writes nothing; a hashing error gives 500; a taken username or email gives 400 "taken" and writes nothing; success happens exactly otherwise, and its only change to the database is one new user under a fresh id with the digest and the bumped user counter; it returns that id, username and email |
| Routes.Login | backend/server.js:119-141 | a missing field gives 400; no row whose password check passes gives 400 "Invalid credentials"; 200 happens exactly when such a row exists, with a token signed over that user's id and username |
| Routes.GetProduct | backend/server.js:152-158 | an absent id gives 404; a present id gives 200 with that row unchanged |
| Routes.AddItems | backend/server.js:176-183 | one row per line, in line order, under consecutive new ids, each referencing the order with the line's product id and quantity; earlier rows unchanged |
| Routes.PlaceOrder | backend/server.js:161-188 | 401 without a token, 403 on failed verification, 400 on missing, non-array or empty items, and nothing written then; success adds exactly one order owned by the token's user id and one item row per line, in order, referencing it |
| ServerProperties.SeedPresentIsNoop | backend/server.js:68-72 | seeding ids that are all present already changes nothing |
| ServerProperties.SeedIdempotent | backend/server.js:67-72 | seeding twice with the same list gives the same table as seeding once |
| ServerProperties.ImportIdempotent | backend/server.js:63-76 | running the startup import twice leaves the same database as running it once |
| ServerProperties.SeededProductServed | backend/server.js:67-72 | after the import every seed id is found, and a new id is served as its first seed entry |
| ServerProperties.RegisterKeepsValid | backend/server.js:102-112 | registration keeps the schema invariant, including unique usernames and emails |
| ServerProperties.PlaceOrderKeepsValid | backend/server.js:167-183 | placing an order keeps the schema invariant; every item references an existing order |
| ServerProperties.RegisterTwiceConflicts | backend/server.js:102-108 | registering a username a second time gives 400 "taken" and writes nothing |
| ServerProperties.RegisterThenLogin | backend/server.js:98-138 | when bcrypt accepts the password it hashed, a freshly registered user logs in and receives a token over the new id and username |
| ServerProperties.TokenPlacesOrder | backend/server.js:161-185 | when JWT gives back what it signed, `Bearer <token>` with a non-empty item list places an order owned by the token's user |
| ServerProperties.AddItemsSize | backend/server.js:180-182 | the item loop adds exactly one row per line |
| ServerProperties.PlaceOrderRowCounts | backend/server.js:167-183 | an accepted order adds exactly one order row and exactly as many item rows as lines |
| ServerProperties.TwoLineOrder | backend/server.js:167-185 | two lines for an authenticated user give one new order and two item rows referencing it, with the sent product ids and quantities |

## Left out

- DOM rendering, `innerHTML` templates, toasts and their timers, modal
  toggling and page redirects (public/script.js:5-58, 90-103, 145-168) are UI.
  `Cart.RenderCart` keeps only the total and the empty state.
- The `fetch` calls, the client `login` function and the product pages
  (public/script.js:6-47, 173-184) are network I/O.
- The JSON encoding of the stored cart is taken to be exact: the stored copy
  is the list itself. A stored cart that was tampered with is not checked
  against the cart invariants at load.
- Express routing, CORS, static serving and the SQLite connection
  (backend/server.js:1-22, 191-193) are framework plumbing.
- bcrypt and JWT are uninterpreted, including the token's one-hour expiry and
  its `iat`/`exp` claims. The lemmas that need them to behave state that as a
  hypothesis (`BcryptSound`, `JwtSound`).
- Store failures that answer 500 (backend/server.js:110, 125, 146, 154, 171)
  are not modelled: every insert and query succeeds. The bcrypt hashing error
  (line 99) is modelled.
- Routes.AddItems: the item inserts run asynchronously after the response is
  sent (backend/server.js:176-185). `stmt.run` is called without a callback,
  so a failing insert emits an `error` event on the statement that nothing
  listens for, which throws and terminates the server process. The model runs
  every insert, in order, before the response: partial failure and the
  process exit are not modelled.
- `GET /api/products` (backend/server.js:144-149) only returns every row.
- Routes.PlaceOrder: each element of `items` is taken to be an object with
  integer `id` and `quantity` (backend/server.js:180-181). A `null` element
  throws an uncaught TypeError inside the `db.run` callback after the order row
  was written (backend/server.js:167-182), which terminates the server
  process: no response is sent, the order row stays, and the items of
  elements before the `null` were already queued and may or may not be
  written. An element without those members (`{}`, `5`)
  stores NULL `product_id` and `quantity`. Neither case is modelled.
- Request fields are strings or absent. JSON numbers, booleans or objects in
  their place are not modelled. `req.params.id` is taken as the integer that
  SQLite's column affinity turns it into.
- A seed entry without an id (which SQLite would insert under a new rowid)
  and a seed file that throws part-way through the list are not modelled.
- Floating-point prices: prices are integers in minor units.
- CartProperties.RunKeepsInvariant: the model assumes a single page writes
  the "cart" key. Every open page of the site shares that key, reads it once
  at load (public/script.js:2) and writes its whole list back after each
  mutation (lines 68, 115, 122); nothing listens for the `storage` event.
  With two tabs the last writer wins: tab B adds product 2, tab A (loaded
  with `[]`) then adds product 1, storage holds only product 1, and B's
  `Persisted` fails.
- Cart.Save: `localStorage.setItem` (public/script.js:68, 115, 122) is taken
  never to throw. It can throw `QuotaExceededError` when storage is full or
  refused, after the cart has changed in memory; the handler then stops with
  the old list still stored. `Cart.Persisted`, and with it
  `CartProperties.RunKeepsInvariant`'s promise that storage mirrors memory,
  holds only under that assumption.
- Store.SeedProducts: the seed inserts (backend/server.js:67-72) are separate
  `db.run` calls issued outside `db.serialize`, so the driver does not promise
  they run in list order. The model applies them in list order. For distinct
  ids the order does not matter. When one id occurs several times in the seed
  list, the code does not fix which entry wins; the model's "first entry wins"
  (also in `ServerProperties.SeededProductServed`) is a modelling choice.

/** The browser-side cart of `public/script.js`: a list of entries kept in memory
    and mirrored into `localStorage` under the key "cart" after every mutation.
    Prices are whole minor currency units, so the total is exact. */
module Cart {
  import opened Wrappers

  /** One cart line `{id, name, price, image, quantity}`. */
  datatype Entry = Entry(id: int, name: string, price: int, image: string, quantity: int)

  /** The client state: the in-memory `cart` and the persisted "cart" key
      (`None` once the key has been removed). The JSON encoding of the stored
      copy is taken to be exact, so the stored value is the list itself. */
  datatype Client = Client(cart: seq<Entry>, stored: Option<seq<Entry>>)

  /** What `renderCart` shows: the empty-state message or the total. */
  datatype Display = EmptyState | ShowTotal(total: int)

  /** What the place-order click handler does: the alert it raises and the new state. */
  datatype Checkout = Checkout(alert: string, client: Client)

  /** Reading the persisted key at page load: an absent key reads as "[]". */
  function Load(stored: Option<seq<Entry>>): (cart: seq<Entry>)
    ensures stored.None? ==> cart == []
    ensures stored.Some? ==> cart == stored.value
  {
    match stored
    case None => []
    case Some(s) => s
  }

  /** The state right after the script starts. */
  function Start(stored: Option<seq<Entry>>): (c: Client)
    ensures c.stored == stored
    ensures c.cart == Load(stored)
    ensures Persisted(c)
  {
    Client(Load(stored), stored)
  }

  /** The persisted copy, read back, is the in-memory cart. */
  predicate Persisted(c: Client)
  {
    Load(c.stored) == c.cart
  }

  predicate UniqueIds(cart: seq<Entry>)
  {
    forall i, j :: 0 <= i < j < |cart| ==> cart[i].id != cart[j].id
  }

  predicate PositiveQuantities(cart: seq<Entry>)
  {
    forall i :: 0 <= i < |cart| ==> cart[i].quantity >= 1
  }

  /** The invariant the cart mutations keep. */
  predicate WellFormed(cart: seq<Entry>)
  {
    UniqueIds(cart) && PositiveQuantities(cart)
  }

  predicate HasId(cart: seq<Entry>, id: int)
  {
    exists k :: 0 <= k < |cart| && cart[k].id == id
  }

  /** `cart.find(item => item.id === id)`, as the position of the first match. */
  function IndexOf(cart: seq<Entry>, id: int): (r: Option<nat>)
    ensures r.Some? ==> r.value < |cart| && cart[r.value].id == id
    ensures r.Some? ==> forall k :: 0 <= k < r.value ==> cart[k].id != id
    ensures r.None? <==> !HasId(cart, id)
  {
    if |cart| == 0 then None
    else if cart[0].id == id then Some(0)
    else
      match IndexOf(cart[1..], id)
      case None => None
      case Some(k) => Some(k + 1)
  }

  /** `cart.splice(k, 1)` for a start `k` already normalised into `0..|s|`. */
  function DeleteAt(s: seq<Entry>, k: nat): (r: seq<Entry>)
    ensures k < |s| ==> |r| == |s| - 1
    ensures k < |s| ==> forall j :: 0 <= j < k ==> r[j] == s[j]
    ensures k < |s| ==> forall j :: k <= j < |r| ==> r[j] == s[j + 1]
    ensures k >= |s| ==> r == s
  {
    if k < |s| then s[..k] + s[k + 1..] else s
  }

  /** How `Array.prototype.splice` turns its start argument into a position:
      a negative start counts back from the end, and both ends are clamped. */
  function SpliceStart(n: nat, start: int): (k: nat)
    ensures k <= n
    ensures 0 <= start ==> k == if start < n then start else n
    ensures start < 0 && 0 <= n + start ==> k == n + start
    ensures n + start < 0 ==> k == 0
  {
    if start < 0 then (if n + start < 0 then 0 else n + start)
    else if start < n then start else n
  }

  /** The new state after a mutation: the cart is written back to storage. */
  function Save(cart: seq<Entry>): (c: Client)
    ensures c.cart == cart && Persisted(c)
  {
    Client(cart, Some(cart))
  }

  /** `addToCart(id, name, price, image)`. */
  function AddToCart(c: Client, id: int, name: string, price: int, image: string): (r: Client)
    ensures r.stored == Some(r.cart)
    ensures HasId(c.cart, id) ==> |r.cart| == |c.cart|
    ensures !HasId(c.cart, id) ==> |r.cart| == |c.cart| + 1 && r.cart[..|c.cart|] == c.cart
    ensures HasId(r.cart, id)
  {
    match IndexOf(c.cart, id)
    case Some(k) =>
      var bumped := c.cart[k := c.cart[k].(quantity := c.cart[k].quantity + 1)];
      assert bumped[k].id == id;
      Save(bumped)
    case None =>
      var added := c.cart + [Entry(id, name, price, image, 1)];
      assert added[|c.cart|].id == id;
      Save(added)
  }

  /** `changeQty(idx, delta)`. `None` stands for the TypeError that `cart[idx]`
      raises when `idx` is not a position of the cart; nothing has changed then. */
  function ChangeQty(c: Client, idx: int, delta: int): (r: Option<Client>)
    ensures r.None? <==> !(0 <= idx < |c.cart|)
    ensures r.Some? ==> r.value.stored == Some(r.value.cart)
    ensures r.Some? && c.cart[idx].quantity + delta > 0 ==>
      && |r.value.cart| == |c.cart|
      && r.value.cart[idx].quantity == c.cart[idx].quantity + delta
      && r.value.cart[idx].(quantity := 0) == c.cart[idx].(quantity := 0)
      && forall j :: 0 <= j < |c.cart| && j != idx ==> r.value.cart[j] == c.cart[j]
    ensures r.Some? && c.cart[idx].quantity + delta <= 0 ==>
      && |r.value.cart| == |c.cart| - 1
      && (forall j :: 0 <= j < idx ==> r.value.cart[j] == c.cart[j])
      && (forall j :: idx <= j < |r.value.cart| ==> r.value.cart[j] == c.cart[j + 1])
  {
    if 0 <= idx < |c.cart| then
      var q := c.cart[idx].quantity + delta;
      if q <= 0 then Some(Save(DeleteAt(c.cart, idx)))
      else Some(Save(c.cart[idx := c.cart[idx].(quantity := q)]))
    else None
  }

  /** `removeFromCart(idx)`, i.e. `cart.splice(idx, 1)`. */
  function RemoveFromCart(c: Client, idx: int): (r: Client)
    ensures r.stored == Some(r.cart)
    ensures 0 <= idx < |c.cart| ==> r.cart == c.cart[..idx] + c.cart[idx + 1..]
    ensures idx >= |c.cart| || |c.cart| == 0 ==> r.cart == c.cart
    ensures idx < 0 && 0 <= |c.cart| + idx ==> r.cart == DeleteAt(c.cart, |c.cart| + idx)
    ensures |c.cart| + idx < 0 && |c.cart| > 0 ==> r.cart == c.cart[1..]
  {
    Save(DeleteAt(c.cart, SpliceStart(|c.cart|, idx)))
  }

  /** The place-order click handler: an empty cart only raises "Cart empty";
      otherwise the "cart" key is removed and the cart emptied. */
  function PlaceOrder(c: Client): (r: Checkout)
    ensures |c.cart| == 0 ==> r.alert == "Cart empty" && r.client == c
    ensures |c.cart| > 0 ==> r.alert == "Order placed!"
    ensures |c.cart| > 0 ==> r.client.cart == [] && r.client.stored.None? && Load(r.client.stored) == []
  {
    if |c.cart| == 0 then Checkout("Cart empty", c)
    else Checkout("Order placed!", Client([], None))
  }

  /** The price of one line. */
  function LineTotal(e: Entry): int
  {
    e.price * e.quantity
  }

  /** The sum of `price * quantity` over the cart, summed in the cart's order. */
  function Total(cart: seq<Entry>): int
  {
    if |cart| == 0 then 0 else Total(cart[..|cart| - 1]) + LineTotal(cart[|cart| - 1])
  }

  /** `renderCart`: the `forEach` loop that accumulates the total, or the
      empty-state message for an empty cart. */
  method RenderCart(cart: seq<Entry>) returns (shown: Display)
    ensures |cart| == 0 <==> shown == EmptyState
    ensures |cart| > 0 ==> shown == ShowTotal(Total(cart))
  {
    if |cart| == 0 {
      return EmptyState;
    }
    var total := 0;
    var i := 0;
    while i < |cart|
      invariant 0 <= i <= |cart|
      invariant total == Total(cart[..i])
    {
      assert cart[..i + 1][..i] == cart[..i];
      total := total + cart[i].price * cart[i].quantity;
      i := i + 1;
    }
    assert cart[..i] == cart;
    shown := ShowTotal(total);
  }
}

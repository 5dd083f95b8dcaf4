/** Properties of the client cart: what each mutation does to the entries, the
    invariants it keeps, how it moves the total, and the cart as a state machine
    driven by the page's click events. */
module CartProperties {
  import opened Wrappers
  import opened Cart

  /** A click that mutates or submits the cart. */
  datatype Event =
    | Add(id: int, name: string, price: int, image: string)
    | Change(idx: int, delta: int)
    | Remove(idx: int)
    | Submit

  /** One event applied to the client; a `changeQty` that throws leaves it as it was. */
  function Apply(c: Client, e: Event): Client
  {
    match e
    case Add(id, name, price, image) => AddToCart(c, id, name, price, image)
    case Change(idx, delta) =>
      (match ChangeQty(c, idx, delta)
       case None => c
       case Some(c') => c')
    case Remove(idx) => RemoveFromCart(c, idx)
    case Submit => PlaceOrder(c).client
  }

  /** A session: events applied in order. */
  function Run(c: Client, events: seq<Event>): Client
    decreases |events|
  {
    if |events| == 0 then c else Run(Apply(c, events[0]), events[1..])
  }

  /** Adding an id already present bumps that entry's quantity by one and
      changes nothing else: not the length, not its name, price or image. */
  lemma AddExisting(c: Client, id: int, name: string, price: int, image: string, k: nat)
    requires UniqueIds(c.cart)
    requires k < |c.cart| && c.cart[k].id == id
    ensures |AddToCart(c, id, name, price, image).cart| == |c.cart|
    ensures AddToCart(c, id, name, price, image).cart[k] == c.cart[k].(quantity := c.cart[k].quantity + 1)
    ensures forall j :: 0 <= j < |c.cart| && j != k ==> AddToCart(c, id, name, price, image).cart[j] == c.cart[j]
  {
    var found := IndexOf(c.cart, id);
    assert found.Some?;
    assert found.value == k;
  }

  /** Adding an absent id appends exactly one entry, with quantity 1. */
  lemma AddNew(c: Client, id: int, name: string, price: int, image: string)
    requires !HasId(c.cart, id)
    ensures AddToCart(c, id, name, price, image).cart == c.cart + [Entry(id, name, price, image, 1)]
  {
  }

  /** Removing one position keeps distinct ids distinct and positive quantities positive. */
  lemma DeleteAtKeepsWellFormed(s: seq<Entry>, k: nat)
    requires WellFormed(s)
    ensures WellFormed(DeleteAt(s, k))
  {
    var r := DeleteAt(s, k);
    if k < |s| {
      forall i, j | 0 <= i < j < |r|
        ensures r[i].id != r[j].id
      {
        var i' := if i < k then i else i + 1;
        var j' := if j < k then j else j + 1;
        assert r[i] == s[i'] && r[j] == s[j'];
      }
    }
  }

  lemma AddKeepsWellFormed(c: Client, id: int, name: string, price: int, image: string)
    requires WellFormed(c.cart)
    ensures WellFormed(AddToCart(c, id, name, price, image).cart)
  {
    if HasId(c.cart, id) {
      var k := IndexOf(c.cart, id).value;
      AddExisting(c, id, name, price, image, k);
    } else {
      AddNew(c, id, name, price, image);
    }
  }

  lemma ChangeQtyKeepsWellFormed(c: Client, idx: int, delta: int)
    requires WellFormed(c.cart)
    requires 0 <= idx < |c.cart|
    ensures WellFormed(ChangeQty(c, idx, delta).value.cart)
  {
    if c.cart[idx].quantity + delta <= 0 {
      DeleteAtKeepsWellFormed(c.cart, idx);
    }
  }

  lemma RemoveKeepsWellFormed(c: Client, idx: int)
    requires WellFormed(c.cart)
    ensures WellFormed(RemoveFromCart(c, idx).cart)
  {
    DeleteAtKeepsWellFormed(c.cart, SpliceStart(|c.cart|, idx));
  }

  /** Every event keeps the invariants: ids distinct, quantities at least 1,
      and the persisted copy equal to the in-memory cart. */
  lemma ApplyKeepsInvariant(c: Client, e: Event)
    requires WellFormed(c.cart) && Persisted(c)
    ensures WellFormed(Apply(c, e).cart) && Persisted(Apply(c, e))
  {
    match e
    case Add(id, name, price, image) => AddKeepsWellFormed(c, id, name, price, image);
    case Change(idx, delta) =>
      if 0 <= idx < |c.cart| {
        ChangeQtyKeepsWellFormed(c, idx, delta);
      }
    case Remove(idx) => RemoveKeepsWellFormed(c, idx);
    case Submit =>
  }

  /** The invariants hold after any sequence of clicks. */
  lemma {:induction false} RunKeepsInvariant(c: Client, events: seq<Event>)
    requires WellFormed(c.cart) && Persisted(c)
    ensures WellFormed(Run(c, events).cart) && Persisted(Run(c, events))
    decreases |events|
  {
    if |events| > 0 {
      ApplyKeepsInvariant(c, events[0]);
      RunKeepsInvariant(Apply(c, events[0]), events[1..]);
    }
  }

  /** The total of a concatenation is the sum of the totals. */
  lemma {:induction false} TotalAppend(a: seq<Entry>, b: seq<Entry>)
    ensures Total(a + b) == Total(a) + Total(b)
    decreases |b|
  {
    if |b| == 0 {
      assert a + b == a;
    } else {
      var b' := b[..|b| - 1];
      assert (a + b)[..|a + b| - 1] == a + b';
      assert (a + b)[|a + b| - 1] == b[|b| - 1];
      TotalAppend(a, b');
    }
  }

  /** Cutting the cart around position `k` for the total. */
  lemma TotalAround(s: seq<Entry>, k: nat)
    requires k < |s|
    ensures Total(s) == Total(s[..k]) + LineTotal(s[k]) + Total(s[k + 1..])
  {
    assert s == s[..k] + [s[k]] + s[k + 1..];
    TotalAppend(s[..k] + [s[k]], s[k + 1..]);
    TotalAppend(s[..k], [s[k]]);
    assert Total([s[k]]) == LineTotal(s[k]) by {
      assert [s[k]][..0] == [];
    }
  }

  /** Replacing one line changes the total by the difference of the two lines. */
  lemma TotalUpdate(s: seq<Entry>, k: nat, e: Entry)
    requires k < |s|
    ensures Total(s[k := e]) == Total(s) - LineTotal(s[k]) + LineTotal(e)
  {
    TotalAround(s, k);
    TotalAround(s[k := e], k);
    assert s[k := e][..k] == s[..k];
    assert s[k := e][k + 1..] == s[k + 1..];
  }

  /** Deleting one line takes that line out of the total. */
  lemma TotalDelete(s: seq<Entry>, k: nat)
    requires k < |s|
    ensures Total(DeleteAt(s, k)) == Total(s) - LineTotal(s[k])
  {
    TotalAround(s, k);
    TotalAppend(s[..k], s[k + 1..]);
  }

  /** `addToCart` raises the total by the price of the line it touches: the
      stored price of an existing entry, or the given price of a new one. */
  lemma TotalAfterAdd(c: Client, id: int, name: string, price: int, image: string)
    ensures IndexOf(c.cart, id).Some? ==>
      Total(AddToCart(c, id, name, price, image).cart) == Total(c.cart) + c.cart[IndexOf(c.cart, id).value].price
    ensures IndexOf(c.cart, id).None? ==>
      Total(AddToCart(c, id, name, price, image).cart) == Total(c.cart) + price
  {
    match IndexOf(c.cart, id)
    case Some(k) =>
      TotalUpdate(c.cart, k, c.cart[k].(quantity := c.cart[k].quantity + 1));
    case None =>
      TotalAppend(c.cart, [Entry(id, name, price, image, 1)]);
      assert [Entry(id, name, price, image, 1)][..0] == [];
  }

  /** `changeQty(idx, delta)` moves the total by `price * delta`, or drops the
      whole line when the quantity would fall to zero or below. */
  lemma TotalAfterChangeQty(c: Client, idx: int, delta: int)
    requires 0 <= idx < |c.cart|
    ensures c.cart[idx].quantity + delta > 0 ==>
      Total(ChangeQty(c, idx, delta).value.cart) == Total(c.cart) + c.cart[idx].price * delta
    ensures c.cart[idx].quantity + delta <= 0 ==>
      Total(ChangeQty(c, idx, delta).value.cart) == Total(c.cart) - LineTotal(c.cart[idx])
  {
    var e := c.cart[idx];
    if e.quantity + delta <= 0 {
      TotalDelete(c.cart, idx);
    } else {
      TotalUpdate(c.cart, idx, e.(quantity := e.quantity + delta));
      assert e.price * (e.quantity + delta) == e.price * e.quantity + e.price * delta;
    }
  }

  /** `removeFromCart(idx)` on a position of the cart drops that line from the total. */
  lemma TotalAfterRemove(c: Client, idx: int)
    requires 0 <= idx < |c.cart|
    ensures Total(RemoveFromCart(c, idx).cart) == Total(c.cart) - LineTotal(c.cart[idx])
  {
    TotalDelete(c.cart, idx);
  }

  /** Adding product 1 (price 10) twice gives one entry of quantity 2 and a
      total of 20; `changeQty(0, -2)` then empties the cart. */
  lemma AddTwiceThenDrop()
    ensures var c := Run(Start(None), [Add(1, "A", 10, "img"), Add(1, "A", 10, "img")]);
      && c.cart == [Entry(1, "A", 10, "img", 2)]
      && Total(c.cart) == 20
      && Apply(c, Change(0, -2)).cart == []
  {
    var c0 := Start(None);
    var c1 := Apply(c0, Add(1, "A", 10, "img"));
    assert c1.cart == [Entry(1, "A", 10, "img", 1)];
    var c2 := Apply(c1, Add(1, "A", 10, "img"));
    assert IndexOf(c1.cart, 1) == Some(0);
    assert c2.cart == [Entry(1, "A", 10, "img", 2)];
    assert Run(c0, [Add(1, "A", 10, "img"), Add(1, "A", 10, "img")]) == c2 by {
      assert [Add(1, "A", 10, "img"), Add(1, "A", 10, "img")][1..] == [Add(1, "A", 10, "img")];
    }
    assert c2.cart[..0] == [];
  }
}

/**
 * The server-side cart endpoints. `index` is a pure read; `store`, `update`, `destroy` and
 * `clear` change the cart rows of the calling user. Each endpoint is a method over the
 * database that follows the controller branch by branch, and is specified by a transition
 * function on the cart table (`StoreStep`, `UpdateStep`, `DestroyStep`, `ClearStep`) about
 * which the lemmas below are stated.
 */
module CartController {
  import opened Common
  import opened Catalog
  import opened Shop

  /** What an endpoint answers: a JSON message with a status, or a framework error. */
  datatype Response =
    | Message(status: nat, message: string)
    | ValidationFailed   // the request's validation rules failed: 422
    | NotFound           // `findOrFail` found no row: 404
    | ServerError        // a method called on a user without a cart: 500

  function StatusOf(r: Response): nat
  {
    match r
    case Message(status, _) => status
    case ValidationFailed => 422
    case NotFound => 404
    case ServerError => 500
  }

  /** The part of the database the cart endpoints write. */
  datatype CartState = CartState(carts: map<nat, seq<CartItem>>, nextItemId: nat)

  /** The rows of a user's cart, empty when the user has none. */
  function CartRows(s: CartState, user: nat): seq<CartItem>
  {
    if user in s.carts then s.carts[user] else []
  }

  // ---------------------------------------------------------------------------------------
  // index
  // ---------------------------------------------------------------------------------------

  /** Sum of quantity x the product's current price over the rows (`$cart->items->sum(...)`). */
  function LiveTotal(products: map<nat, Product>, items: seq<CartItem>): int
    requires ItemsKnown(products, items)
  {
    if items == [] then 0
    else
      assert ItemsKnown(products, items[1..]) by {
        forall i | 0 <= i < |items[1..]| ensures items[1..][i].productId in products {
          assert items[1..][i] == items[i + 1];
        }
      }
      items[0].quantity * products[items[0].productId].price + LiveTotal(products, items[1..])
  }

  /** With non-negative quantities and prices the index total is non-negative. */
  lemma {:induction false} LiveTotalNonNegative(products: map<nat, Product>, items: seq<CartItem>)
    requires ItemsKnown(products, items)
    requires forall i :: 0 <= i < |items| ==> items[i].quantity >= 0
    requires forall i :: 0 <= i < |items| ==> products[items[i].productId].price >= 0
    ensures LiveTotal(products, items) >= 0
  {
    if items != [] {
      assert forall i :: 0 <= i < |items| - 1 ==> items[1..][i] == items[i + 1];
      LiveTotalNonNegative(products, items[1..]);
      assert items[0].quantity * products[items[0].productId].price >= 0;
    }
  }

  /** Sum of the quantities of the rows for one product. */
  function QuantityOf(items: seq<CartItem>, productId: nat): int
  {
    if items == [] then 0
    else (if items[0].productId == productId then items[0].quantity else 0) + QuantityOf(items[1..], productId)
  }

  datatype CartView = CartView(items: seq<CartItem>, total: int)

  /** `index`: the user's rows and their live total; no cart reads as empty with total 0. */
  function Index(products: map<nat, Product>, carts: map<nat, seq<CartItem>>, user: nat): (v: CartView)
    requires user in carts ==> ItemsKnown(products, carts[user])
    ensures user !in carts ==> v == CartView([], 0)
    ensures user in carts ==> v.items == carts[user] && v.total == LiveTotal(products, carts[user])
  {
    if user !in carts then CartView([], 0)
    else CartView(carts[user], LiveTotal(products, carts[user]))
  }

  lemma {:induction false} LiveTotalSplit(products: map<nat, Product>, a: seq<CartItem>, b: seq<CartItem>)
    requires ItemsKnown(products, a) && ItemsKnown(products, b)
    ensures ItemsKnown(products, a + b)
    ensures LiveTotal(products, a + b) == LiveTotal(products, a) + LiveTotal(products, b)
  {
    if a == [] {
      assert a + b == b;
    } else {
      assert (a + b)[1..] == a[1..] + b;
      assert ItemsKnown(products, a[1..]) by {
        forall i | 0 <= i < |a[1..]| ensures a[1..][i].productId in products {
          assert a[1..][i] == a[i + 1];
        }
      }
      LiveTotalSplit(products, a[1..], b);
    }
  }

  /** The total of a single row. */
  lemma LiveTotalSingle(products: map<nat, Product>, e: CartItem)
    requires e.productId in products
    ensures LiveTotal(products, [e]) == e.quantity * products[e.productId].price
  {
    assert [e][1..] == [];
  }

  /** The total only reads the price of the product table, never the price copied into a row. */
  lemma {:induction false} LiveTotalIgnoresStoredPrice(products: map<nat, Product>, items: seq<CartItem>, k: nat, price: int)
    requires ItemsKnown(products, items) && k < |items|
    ensures ItemsKnown(products, items[k := items[k].(price := price)])
    ensures LiveTotal(products, items[k := items[k].(price := price)]) == LiveTotal(products, items)
  {
    if k > 0 {
      var items' := items[k := items[k].(price := price)];
      assert items'[1..] == items[1..][k - 1 := items[k].(price := price)];
      assert ItemsKnown(products, items[1..]) by {
        forall i | 0 <= i < |items[1..]| ensures items[1..][i].productId in products {
          assert items[1..][i] == items[i + 1];
        }
      }
      LiveTotalIgnoresStoredPrice(products, items[1..], k - 1, price);
    }
  }

  /**
   * A change of a product's price moves the total by the price difference times the quantity
   * of that product in the cart.
   */
  lemma {:induction false} LiveTotalPriceChange(products: map<nat, Product>, items: seq<CartItem>, productId: nat, price: int)
    requires ItemsKnown(products, items) && productId in products
    ensures ItemsKnown(products[productId := products[productId].(price := price)], items)
    ensures LiveTotal(products[productId := products[productId].(price := price)], items)
         == LiveTotal(products, items) + (price - products[productId].price) * QuantityOf(items, productId)
  {
    var products' := products[productId := products[productId].(price := price)];
    if items != [] {
      assert ItemsKnown(products, items[1..]) by {
        forall i | 0 <= i < |items[1..]| ensures items[1..][i].productId in products {
          assert items[1..][i] == items[i + 1];
        }
      }
      LiveTotalPriceChange(products, items[1..], productId, price);
      var q := items[0].quantity;
      var d := price - products[productId].price;
      if items[0].productId == productId {
        assert q * price == q * products[productId].price + d * q by {
          assert q * price - q * products[productId].price == q * d;
        }
      }
      assert (d * ((if items[0].productId == productId then q else 0) + QuantityOf(items[1..], productId))
           == d * (if items[0].productId == productId then q else 0) + d * QuantityOf(items[1..], productId));
    }
  }

  // ---------------------------------------------------------------------------------------
  // Row lookups
  // ---------------------------------------------------------------------------------------

  /** `$cart->items()->where('product_id', ...)->first()`: the first row of the product. */
  function FindProduct(items: seq<CartItem>, productId: nat): (r: Option<nat>)
    ensures r.Some? ==> r.value < |items| && items[r.value].productId == productId
    ensures r.Some? ==> forall i :: 0 <= i < r.value ==> items[i].productId != productId
    ensures r.None? ==> forall i :: 0 <= i < |items| ==> items[i].productId != productId
  {
    if items == [] then None
    else if items[0].productId == productId then Some(0)
    else
      var r := FindProduct(items[1..], productId);
      if r.Some? then Some(r.value + 1) else None
  }

  /** `$cart->items()->findOrFail($itemId)`: the row of the cart with that id. */
  function FindItem(items: seq<CartItem>, itemId: nat): (r: Option<nat>)
    ensures r.Some? ==> r.value < |items| && items[r.value].id == itemId
    ensures r.Some? ==> forall i :: 0 <= i < r.value ==> items[i].id != itemId
    ensures r.None? ==> forall i :: 0 <= i < |items| ==> items[i].id != itemId
  {
    if items == [] then None
    else if items[0].id == itemId then Some(0)
    else
      var r := FindItem(items[1..], itemId);
      if r.Some? then Some(r.value + 1) else None
  }

  // ---------------------------------------------------------------------------------------
  // Transition functions
  // ---------------------------------------------------------------------------------------

  /** The carts of every user other than `user` are the same in s and t. */
  predicate OtherCartsKept(s: CartState, t: CartState, user: nat)
  {
    && (forall u :: u in s.carts && u != user ==> u in t.carts && t.carts[u] == s.carts[u])
    && (forall u :: u in t.carts && u != user ==> u in s.carts)
  }

  /** `store`: add `quantity` of a product, merging into the product's row when there is one. */
  function StoreStep(products: map<nat, Product>, s: CartState, user: nat, productId: nat, quantity: int): (r: (Response, CartState))
    ensures StatusOf(r.0) != 200 ==> r.1 == s
    ensures OtherCartsKept(s, r.1, user)
    ensures r.1.nextItemId >= s.nextItemId
  {
    if productId !in products || quantity < 1 then (ValidationFailed, s)
    else if products[productId].quantity < quantity then (Message(400, "Insufficient stock"), s)
    else
      var items := CartRows(s, user);
      var k := FindProduct(items, productId);
      if k.Some? then
        var newQuantity := items[k.value].quantity + quantity;
        if newQuantity > products[productId].quantity then
          (Message(400, "Quantity exceeds available stock"), s)
        else
          (Message(200, "Item added to cart"),
           CartState(s.carts[user := items[k.value := items[k.value].(quantity := newQuantity)]], s.nextItemId))
      else
        (Message(200, "Item added to cart"),
         CartState(s.carts[user := items + [CartItem(s.nextItemId, productId, quantity, products[productId].price)]],
                   s.nextItemId + 1))
  }

  /** `update`: set the quantity of one row of the user's cart. */
  function UpdateStep(products: map<nat, Product>, s: CartState, user: nat, itemId: nat, quantity: int): (r: (Response, CartState))
    requires user in s.carts ==> ItemsKnown(products, s.carts[user])
    ensures StatusOf(r.0) != 200 ==> r.1 == s
    ensures OtherCartsKept(s, r.1, user)
    ensures r.1.nextItemId == s.nextItemId
    ensures |CartRows(r.1, user)| == |CartRows(s, user)|
  {
    if quantity < 1 then (ValidationFailed, s)
    else if user !in s.carts then (ServerError, s)
    else
      var items := s.carts[user];
      var k := FindItem(items, itemId);
      if k.None? then (NotFound, s)
      else if quantity > products[items[k.value].productId].quantity then
        (Message(400, "Quantity exceeds available stock"), s)
      else
        (Message(200, "Cart updated"),
         CartState(s.carts[user := items[k.value := items[k.value].(quantity := quantity)]], s.nextItemId))
  }

  /** `destroy`: delete one row of the user's cart. */
  function DestroyStep(s: CartState, user: nat, itemId: nat): (r: (Response, CartState))
    ensures StatusOf(r.0) != 200 ==> r.1 == s
    ensures StatusOf(r.0) == 200 ==> |CartRows(r.1, user)| == |CartRows(s, user)| - 1
    ensures OtherCartsKept(s, r.1, user)
    ensures r.1.nextItemId == s.nextItemId
  {
    if user !in s.carts then (ServerError, s)
    else
      var items := s.carts[user];
      var k := FindItem(items, itemId);
      if k.None? then (NotFound, s)
      else
        (Message(200, "Item removed from cart"),
         CartState(s.carts[user := items[..k.value] + items[k.value + 1..]], s.nextItemId))
  }

  /** `clear`: delete every row of the user's cart, if the user has one. */
  function ClearStep(s: CartState, user: nat): (r: (Response, CartState))
    ensures StatusOf(r.0) == 200
    ensures CartRows(r.1, user) == []
    ensures OtherCartsKept(s, r.1, user)
    ensures r.1.nextItemId == s.nextItemId
  {
    (Message(200, "Cart cleared"),
     if user in s.carts then CartState(s.carts[user := []], s.nextItemId) else s)
  }

  // ---------------------------------------------------------------------------------------
  // The endpoints
  // ---------------------------------------------------------------------------------------

  method Store(db: Database, user: nat, productId: nat, quantity: int) returns (r: Response)
    requires db.Valid()
    modifies db
    ensures (r, CartState(db.carts, db.nextItemId))
         == StoreStep(old(db.products), CartState(old(db.carts), old(db.nextItemId)), user, productId, quantity)
    ensures db.products == old(db.products) && db.orders == old(db.orders)
    ensures db.orderItems == old(db.orderItems) && db.nextOrderId == old(db.nextOrderId)
    ensures db.Valid()
  {
    ghost var st := CartState(db.carts, db.nextItemId);
    if productId !in db.products || quantity < 1 {
      return ValidationFailed;
    }
    var product := db.products[productId];
    if product.quantity < quantity {
      return Message(400, "Insufficient stock");
    }
    ghost var before := db.carts;
    if user !in db.carts {
      db.carts := db.carts[user := []];
    }
    var items := db.carts[user];
    var k := FindProduct(items, productId);
    if k.Some? {
      var newQuantity := items[k.value].quantity + quantity;
      if newQuantity > product.quantity {
        return Message(400, "Quantity exceeds available stock");
      }
      db.carts := db.carts[user := items[k.value := items[k.value].(quantity := newQuantity)]];
    } else {
      db.carts := db.carts[user := items + [CartItem(db.nextItemId, productId, quantity, product.price)]];
      db.nextItemId := db.nextItemId + 1;
    }
    assert db.carts == before[user := db.carts[user]];
    StoreKeepsValid(db.products, st, user, productId, quantity);
    return Message(200, "Item added to cart");
  }

  method Update(db: Database, user: nat, itemId: nat, quantity: int) returns (r: Response)
    requires db.Valid()
    modifies db
    ensures (r, CartState(db.carts, db.nextItemId))
         == UpdateStep(old(db.products), CartState(old(db.carts), old(db.nextItemId)), user, itemId, quantity)
    ensures db.products == old(db.products) && db.orders == old(db.orders)
    ensures db.orderItems == old(db.orderItems) && db.nextOrderId == old(db.nextOrderId)
    ensures db.Valid()
  {
    ghost var st := CartState(db.carts, db.nextItemId);
    if quantity < 1 {
      return ValidationFailed;
    }
    if user !in db.carts {
      return ServerError;
    }
    var items := db.carts[user];
    var k := FindItem(items, itemId);
    if k.None? {
      return NotFound;
    }
    if quantity > db.products[items[k.value].productId].quantity {
      return Message(400, "Quantity exceeds available stock");
    }
    db.carts := db.carts[user := items[k.value := items[k.value].(quantity := quantity)]];
    UpdateKeepsValid(db.products, st, user, itemId, quantity);
    return Message(200, "Cart updated");
  }

  method Destroy(db: Database, user: nat, itemId: nat) returns (r: Response)
    requires db.Valid()
    modifies db
    ensures (r, CartState(db.carts, db.nextItemId))
         == DestroyStep(CartState(old(db.carts), old(db.nextItemId)), user, itemId)
    ensures db.products == old(db.products) && db.orders == old(db.orders)
    ensures db.orderItems == old(db.orderItems) && db.nextOrderId == old(db.nextOrderId)
    ensures db.Valid()
  {
    ghost var st := CartState(db.carts, db.nextItemId);
    if user !in db.carts {
      return ServerError;
    }
    var items := db.carts[user];
    var k := FindItem(items, itemId);
    if k.None? {
      return NotFound;
    }
    db.carts := db.carts[user := items[..k.value] + items[k.value + 1..]];
    DestroyKeepsValid(db.products, st, user, itemId);
    return Message(200, "Item removed from cart");
  }

  method Clear(db: Database, user: nat) returns (r: Response)
    requires db.Valid()
    modifies db
    ensures (r, CartState(db.carts, db.nextItemId)) == ClearStep(CartState(old(db.carts), old(db.nextItemId)), user)
    ensures db.products == old(db.products) && db.orders == old(db.orders)
    ensures db.orderItems == old(db.orderItems) && db.nextOrderId == old(db.nextOrderId)
    ensures db.Valid()
  {
    if user in db.carts {
      db.carts := db.carts[user := []];
    }
    return Message(200, "Cart cleared");
  }

  // ---------------------------------------------------------------------------------------
  // Validity is preserved
  // ---------------------------------------------------------------------------------------

  lemma StoreKeepsValid(products: map<nat, Product>, s: CartState, user: nat, productId: nat, quantity: int)
    ensures AllCartsValid(products, s.carts, s.nextItemId) ==>
      var s' := StoreStep(products, s, user, productId, quantity).1;
      AllCartsValid(products, s'.carts, s'.nextItemId)
  {
    if AllCartsValid(products, s.carts, s.nextItemId) && productId in products && quantity >= 1
       && products[productId].quantity >= quantity {
      var items := CartRows(s, user);
      var s' := StoreStep(products, s, user, productId, quantity).1;
      if FindProduct(items, productId).None? {
        var e := CartItem(s.nextItemId, productId, quantity, products[productId].price);
        var items' := items + [e];
        assert CartValid(products, items', s'.nextItemId) by {
          forall i, j | 0 <= i < j < |items'|
            ensures items'[i].productId != items'[j].productId && items'[i].id != items'[j].id
          {
            assert items'[i] == items[i];
          }
        }
      }
    }
  }

  lemma UpdateKeepsValid(products: map<nat, Product>, s: CartState, user: nat, itemId: nat, quantity: int)
    requires user in s.carts ==> ItemsKnown(products, s.carts[user])
    ensures AllCartsValid(products, s.carts, s.nextItemId) ==>
      var s' := UpdateStep(products, s, user, itemId, quantity).1;
      AllCartsValid(products, s'.carts, s'.nextItemId)
  {
  }

  lemma DestroyKeepsValid(products: map<nat, Product>, s: CartState, user: nat, itemId: nat)
    ensures AllCartsValid(products, s.carts, s.nextItemId) ==>
      var s' := DestroyStep(s, user, itemId).1;
      AllCartsValid(products, s'.carts, s'.nextItemId)
  {
    if AllCartsValid(products, s.carts, s.nextItemId) && user in s.carts {
      var items := s.carts[user];
      var k := FindItem(items, itemId);
      if k.Some? {
        var items' := items[..k.value] + items[k.value + 1..];
        assert CartValid(products, items', s.nextItemId) by {
          forall i, j | 0 <= i < j < |items'|
            ensures items'[i].productId != items'[j].productId && items'[i].id != items'[j].id
          {
            var i' := if i < k.value then i else i + 1;
            var j' := if j < k.value then j else j + 1;
            assert items'[i] == items[i'] && items'[j] == items[j'];
          }
          forall i | 0 <= i < |items'| ensures items'[i].productId in products && items'[i].id < s.nextItemId {
            assert items'[i] == items[if i < k.value then i else i + 1];
          }
        }
      }
    }
  }

  // ---------------------------------------------------------------------------------------
  // What each endpoint does
  // ---------------------------------------------------------------------------------------

  /** `store` fails validation exactly when the product is unknown or the quantity below 1. */
  lemma StoreValidation(products: map<nat, Product>, s: CartState, user: nat, productId: nat, quantity: int)
    ensures var (r, s') := StoreStep(products, s, user, productId, quantity);
      (r == ValidationFailed <==> productId !in products || quantity < 1)
  {
  }

  /**
   * `store` answers 400 exactly when the request exceeds the stock, alone or together with
   * what the cart already holds of the product; and then nothing changes.
   */
  lemma StoreRejectsOverStock(products: map<nat, Product>, s: CartState, user: nat, productId: nat, quantity: int)
    requires AllCartsValid(products, s.carts, s.nextItemId)
    requires productId in products && quantity >= 1
    ensures var (r, s') := StoreStep(products, s, user, productId, quantity);
      && (StatusOf(r) == 400 <==>
            quantity > products[productId].quantity
            || exists i :: 0 <= i < |CartRows(s, user)| && CartRows(s, user)[i].productId == productId
                           && CartRows(s, user)[i].quantity + quantity > products[productId].quantity)
      && (StatusOf(r) == 400 ==> s' == s)
      && (StatusOf(r) != 400 ==> StatusOf(r) == 200)
  {
    var items := CartRows(s, user);
    var k := FindProduct(items, productId);
    if quantity <= products[productId].quantity && k.Some? {
      assert forall i :: 0 <= i < |items| && items[i].productId == productId ==> i == k.value by {
        assert user in s.carts;
        assert CartValid(products, items, s.nextItemId);
      }
    }
  }

  /** `store` of a product in the cart raises that row by the quantity and changes nothing else. */
  lemma StoreMerges(products: map<nat, Product>, s: CartState, user: nat, productId: nat, quantity: int, k: nat)
    requires productId in products && 1 <= quantity <= products[productId].quantity
    requires user in s.carts && k < |s.carts[user]| && s.carts[user][k].productId == productId
    requires s.carts[user][k].quantity + quantity <= products[productId].quantity
    requires CartValid(products, s.carts[user], s.nextItemId)
    ensures var (r, s') := StoreStep(products, s, user, productId, quantity);
      && r == Message(200, "Item added to cart")
      && s' == CartState(s.carts[user := s.carts[user][k := s.carts[user][k].(quantity := s.carts[user][k].quantity + quantity)]],
                         s.nextItemId)
  {
    var k' := FindProduct(s.carts[user], productId);
    assert k'.Some?;
    assert k'.value == k;
  }

  /** `store` of a product not in the cart appends one row with the live price, under a fresh id. */
  lemma StoreAppends(products: map<nat, Product>, s: CartState, user: nat, productId: nat, quantity: int)
    requires productId in products && 1 <= quantity <= products[productId].quantity
    requires forall i :: 0 <= i < |CartRows(s, user)| ==> CartRows(s, user)[i].productId != productId
    ensures var (r, s') := StoreStep(products, s, user, productId, quantity);
      && r == Message(200, "Item added to cart")
      && s'.carts == s.carts[user := CartRows(s, user) + [CartItem(s.nextItemId, productId, quantity, products[productId].price)]]
      && s'.nextItemId == s.nextItemId + 1
  {
  }

  /**
   * After a successful `store` the cart holds exactly one row of the product, its quantity
   * is within the product's stock, and the live total grew by quantity x price.
   */
  lemma StoreWithinStock(products: map<nat, Product>, s: CartState, user: nat, productId: nat, quantity: int)
    requires AllCartsValid(products, s.carts, s.nextItemId)
    ensures var (r, s') := StoreStep(products, s, user, productId, quantity);
      StatusOf(r) == 200 ==>
        && user in s'.carts
        && ItemsKnown(products, s'.carts[user])
        && (exists k :: 0 <= k < |s'.carts[user]| && s'.carts[user][k].productId == productId
                        && quantity <= s'.carts[user][k].quantity <= products[productId].quantity)
        && LiveTotal(products, s'.carts[user])
           == LiveTotal(products, CartRows(s, user)) + quantity * products[productId].price
  {
    var (r, s') := StoreStep(products, s, user, productId, quantity);
    StoreKeepsValid(products, s, user, productId, quantity);
    if StatusOf(r) == 200 {
      var items := CartRows(s, user);
      var k := FindProduct(items, productId);
      var price := products[productId].price;
      if k.Some? {
        var e := items[k.value];
        var e' := e.(quantity := e.quantity + quantity);
        assert s'.carts[user][k.value] == e';
        assert user in s.carts && CartValid(products, items, s.nextItemId);
        ReplaceTotal(products, items, k.value, e');
        assert e'.quantity * price == e.quantity * price + quantity * price by {
          assert (e.quantity + quantity) * price == e.quantity * price + quantity * price;
        }
      } else {
        var e := CartItem(s.nextItemId, productId, quantity, price);
        assert s'.carts[user][|items|] == e;
        assert ItemsKnown(products, items);
        LiveTotalSingle(products, e);
        LiveTotalSplit(products, items, [e]);
      }
    }
  }

  /** Replacing one row by a row of a known product swaps that row's share of the total. */
  lemma ReplaceTotal(products: map<nat, Product>, items: seq<CartItem>, k: nat, e: CartItem)
    requires ItemsKnown(products, items) && k < |items| && e.productId in products
    ensures ItemsKnown(products, items[k := e])
    ensures LiveTotal(products, items[k := e])
         == LiveTotal(products, items) - items[k].quantity * products[items[k].productId].price
            + e.quantity * products[e.productId].price
  {
    assert items == items[..k] + [items[k]] + items[k + 1..];
    assert items[k := e] == items[..k] + [e] + items[k + 1..];
    LiveTotalSingle(products, items[k]);
    LiveTotalSingle(products, e);
    LiveTotalSplit(products, items[..k], [items[k]]);
    LiveTotalSplit(products, items[..k], [e]);
    LiveTotalSplit(products, items[..k] + [items[k]], items[k + 1..]);
    LiveTotalSplit(products, items[..k] + [e], items[k + 1..]);
  }

  /**
   * `update` sets one row to the quantity when it is within the product's stock, and answers
   * 400 changing nothing when it is not; other rows and other carts are untouched.
   */
  lemma UpdateSetsOneRow(products: map<nat, Product>, s: CartState, user: nat, itemId: nat, quantity: int, k: nat)
    requires user in s.carts && ItemsKnown(products, s.carts[user]) && quantity >= 1
    requires k < |s.carts[user]| && s.carts[user][k].id == itemId
    requires CartValid(products, s.carts[user], s.nextItemId)
    ensures var (r, s') := UpdateStep(products, s, user, itemId, quantity);
      var items := s.carts[user];
      && (quantity <= products[items[k].productId].quantity ==>
            && r == Message(200, "Cart updated")
            && s' == CartState(s.carts[user := items[k := items[k].(quantity := quantity)]], s.nextItemId)
            && LiveTotal(products, s'.carts[user])
               == LiveTotal(products, items) + (quantity - items[k].quantity) * products[items[k].productId].price)
      && (quantity > products[items[k].productId].quantity ==>
            r == Message(400, "Quantity exceeds available stock") && s' == s)
  {
    var items := s.carts[user];
    var k' := FindItem(items, itemId);
    assert k'.Some? && k'.value == k;
    var price := products[items[k].productId].price;
    ReplaceTotal(products, items, k, items[k].(quantity := quantity));
    assert quantity * price - items[k].quantity * price == (quantity - items[k].quantity) * price;
  }

  /** `update` and `destroy` on a row the user's cart does not hold answer 404 and change nothing. */
  lemma UnknownRowNotFound(products: map<nat, Product>, s: CartState, user: nat, itemId: nat, quantity: int)
    requires user in s.carts && ItemsKnown(products, s.carts[user]) && quantity >= 1
    requires forall i :: 0 <= i < |s.carts[user]| ==> s.carts[user][i].id != itemId
    ensures UpdateStep(products, s, user, itemId, quantity) == (NotFound, s)
    ensures DestroyStep(s, user, itemId) == (NotFound, s)
  {
  }

  /**
   * `destroy` deletes exactly the addressed row: the remaining rows are the others, in order,
   * and the total loses that row's share.
   */
  lemma DestroyRemovesOnlyItem(products: map<nat, Product>, s: CartState, user: nat, itemId: nat, k: nat)
    requires user in s.carts && CartValid(products, s.carts[user], s.nextItemId)
    requires k < |s.carts[user]| && s.carts[user][k].id == itemId
    ensures var (r, s') := DestroyStep(s, user, itemId);
      var items := s.carts[user];
      && r == Message(200, "Item removed from cart")
      && s'.carts == s.carts[user := items[..k] + items[k + 1..]]
      && (forall e :: e in s'.carts[user] <==> e in items && e.id != itemId)
      && ItemsKnown(products, s'.carts[user])
      && LiveTotal(products, s'.carts[user])
         == LiveTotal(products, items) - items[k].quantity * products[items[k].productId].price
  {
    var items := s.carts[user];
    var k' := FindItem(items, itemId);
    assert k'.Some? && k'.value == k;
    DeleteRowMembers(items, k);
    DeleteRowTotal(products, items, k);
  }

  /** With ids unique, deleting row k keeps exactly the rows with another id. */
  lemma DeleteRowMembers(items: seq<CartItem>, k: nat)
    requires k < |items|
    requires forall i, j :: 0 <= i < j < |items| ==> items[i].id != items[j].id
    ensures forall e :: e in items[..k] + items[k + 1..] <==> e in items && e.id != items[k].id
  {
    var rest := items[..k] + items[k + 1..];
    forall e ensures e in rest <==> e in items && e.id != items[k].id {
      if e in rest {
        var i :| 0 <= i < |rest| && rest[i] == e;
        assert rest[i] == items[if i < k then i else i + 1];
      }
      if e in items && e.id != items[k].id {
        var i :| 0 <= i < |items| && items[i] == e;
        assert e == rest[if i < k then i else i - 1];
      }
    }
  }

  lemma DeleteRowTotal(products: map<nat, Product>, items: seq<CartItem>, k: nat)
    requires ItemsKnown(products, items) && k < |items|
    ensures ItemsKnown(products, items[..k] + items[k + 1..])
    ensures LiveTotal(products, items[..k] + items[k + 1..])
         == LiveTotal(products, items) - items[k].quantity * products[items[k].productId].price
  {
    assert items == items[..k] + [items[k]] + items[k + 1..];
    LiveTotalSingle(products, items[k]);
    LiveTotalSplit(products, items[..k], [items[k]]);
    LiveTotalSplit(products, items[..k] + [items[k]], items[k + 1..]);
    LiveTotalSplit(products, items[..k], items[k + 1..]);
  }

  /** `clear` leaves the user's cart empty, is a no-op without a cart, and touches no other cart. */
  lemma ClearEmpties(products: map<nat, Product>, s: CartState, user: nat)
    ensures var (r, s') := ClearStep(s, user);
      && StatusOf(r) == 200
      && (user in s.carts <==> user in s'.carts)
      && (user !in s.carts ==> s' == s)
      && Index(products, s'.carts, user) == CartView([], 0)
      && (forall u :: u != user ==> (u in s.carts <==> u in s'.carts))
      && (forall u :: u != user && u in s.carts ==> s'.carts[u] == s.carts[u])
  {
  }
}

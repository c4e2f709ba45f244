/**
 * Order placement and the order owner check. `Store` walks the requested lines in order,
 * reading each product's stock as left by the earlier lines, and either places the order
 * (decrementing stock, recording a snapshot of every line, deleting the user's cart) or
 * rolls every write back. Its specification is given by `Shortfall`, `Consumed`,
 * `OrderTotal` and `Drafts`; the lemmas below state what those mean.
 */
module OrderController {
  import opened Common
  import opened Catalog
  import opened Shop
  import Utils

  datatype LineRequest = LineRequest(productId: nat, quantity: int)
  datatype OrderRequest = OrderRequest(lines: seq<LineRequest>, shipping: Shipping)

  /** What `store` answers: 201 with the order, 422 on validation, 400 with the error text. */
  datatype PlaceResponse =
    | Placed(order: Order, items: seq<OrderItem>)
    | Invalid
    | Failed(error: string)

  function PlaceStatus(r: PlaceResponse): nat
  {
    match r
    case Placed(_, _) => 201
    case Invalid => 422
    case Failed(_) => 400
  }

  /** The line of an order before the order exists: the snapshot taken while checking stock. */
  datatype LineDraft = LineDraft(productId: nat, productName: string, quantity: int, price: int, total: int)

  // ---------------------------------------------------------------------------------------
  // Validation
  // ---------------------------------------------------------------------------------------

  predicate AllKnown(products: map<nat, Product>, lines: seq<LineRequest>)
  {
    forall i :: 0 <= i < |lines| ==> lines[i].productId in products
  }

  /** Every shipping field is `required|string`: present and not empty. */
  predicate ValidShipping(s: Shipping)
  {
    |s.name| > 0 && |s.address| > 0 && |s.city| > 0 && |s.postalCode| > 0 && |s.phone| > 0
  }

  /** The request's validation rules: at least one line, known products, quantities of at least 1. */
  predicate ValidRequest(products: map<nat, Product>, req: OrderRequest)
  {
    && |req.lines| >= 1
    && AllKnown(products, req.lines)
    && (forall i :: 0 <= i < |req.lines| ==> req.lines[i].quantity >= 1)
    && ValidShipping(req.shipping)
  }

  // ---------------------------------------------------------------------------------------
  // The specification of the stock loop
  // ---------------------------------------------------------------------------------------

  /** The total quantity the lines ask of one product. */
  function Demand(lines: seq<LineRequest>, productId: nat): int
  {
    if lines == [] then 0
    else
      var last := lines[|lines| - 1];
      Demand(lines[..|lines| - 1], productId) + (if last.productId == productId then last.quantity else 0)
  }

  /** Line k fits: the stock the earlier lines leave of its product covers its quantity. */
  predicate LineFits(products: map<nat, Product>, lines: seq<LineRequest>, k: nat)
    requires AllKnown(products, lines) && k < |lines|
  {
    lines[k].quantity <= products[lines[k].productId].quantity - Demand(lines[..k], lines[k].productId)
  }

  predicate AllFit(products: map<nat, Product>, lines: seq<LineRequest>)
    requires AllKnown(products, lines)
  {
    forall k :: 0 <= k < |lines| ==> LineFits(products, lines, k)
  }

  /** The first line from k on that does not fit, if any. */
  function ShortfallFrom(products: map<nat, Product>, lines: seq<LineRequest>, k: nat): (r: Option<nat>)
    requires AllKnown(products, lines) && k <= |lines|
    ensures r.Some? ==> k <= r.value < |lines| && !LineFits(products, lines, r.value)
    ensures r.Some? ==> forall i :: k <= i < r.value ==> LineFits(products, lines, i)
    ensures r.None? ==> forall i :: k <= i < |lines| ==> LineFits(products, lines, i)
    decreases |lines| - k
  {
    if k == |lines| then None
    else if !LineFits(products, lines, k) then Some(k)
    else ShortfallFrom(products, lines, k + 1)
  }

  /** The first line that does not fit, if any: the line `store` fails on. */
  function Shortfall(products: map<nat, Product>, lines: seq<LineRequest>): (r: Option<nat>)
    requires AllKnown(products, lines)
    ensures r.None? <==> AllFit(products, lines)
  {
    ShortfallFrom(products, lines, 0)
  }

  /** The product table once every line's quantity is taken from its product. */
  function Consumed(products: map<nat, Product>, lines: seq<LineRequest>): map<nat, Product>
  {
    map pid | pid in products :: products[pid].(quantity := products[pid].quantity - Demand(lines, pid))
  }

  /** Sum of price x quantity over the lines. */
  function OrderTotal(products: map<nat, Product>, lines: seq<LineRequest>): int
    requires AllKnown(products, lines)
  {
    if lines == [] then 0
    else
      var last := lines[|lines| - 1];
      OrderTotal(products, lines[..|lines| - 1]) + products[last.productId].price * last.quantity
  }

  function DraftOf(p: Product, line: LineRequest): LineDraft
  {
    LineDraft(line.productId, p.title, line.quantity, p.price, p.price * line.quantity)
  }

  /** One snapshot per line, in request order. */
  function Drafts(products: map<nat, Product>, lines: seq<LineRequest>): (d: seq<LineDraft>)
    requires AllKnown(products, lines)
    ensures |d| == |lines|
    ensures forall i :: 0 <= i < |lines| ==> d[i] == DraftOf(products[lines[i].productId], lines[i])
  {
    if lines == [] then []
    else
      var last := lines[|lines| - 1];
      Drafts(products, lines[..|lines| - 1]) + [DraftOf(products[last.productId], last)]
  }

  function ItemOf(orderId: nat, d: LineDraft): OrderItem
  {
    OrderItem(orderId, d.productId, d.productName, d.quantity, d.price, d.total)
  }

  function ItemsOf(orderId: nat, drafts: seq<LineDraft>): (items: seq<OrderItem>)
    ensures |items| == |drafts|
    ensures forall i :: 0 <= i < |drafts| ==> items[i] == ItemOf(orderId, drafts[i])
  {
    if drafts == [] then [] else ItemsOf(orderId, drafts[..|drafts| - 1]) + [ItemOf(orderId, drafts[|drafts| - 1])]
  }

  /** `'ORD-' . strtoupper(Str::random(10))`, with the random part given. */
  function OrderNumber(random: string): string
  {
    "ORD-" + Utils.ToUpper(random)
  }

  function NewOrder(id: nat, user: nat, total: int, shipping: Shipping, random: string): Order
  {
    Order(id, user, OrderNumber(random), Pending, PaymentPending, CashOnDelivery, total, shipping)
  }

  function InsufficientStock(title: string): string
  {
    "Insufficient stock for product: " + title
  }

  // ---------------------------------------------------------------------------------------
  // store
  // ---------------------------------------------------------------------------------------

  /**
   * What `store` answers and the database it leaves: a refused request changes nothing, a
   * shortfall is rolled back completely, and a placement decrements the stock, appends the
   * order and its items and deletes the user's cart. `fault` is the exception, if any, that
   * one of the writes after the stock check raises (an `order_number` that is already taken,
   * a failed insert or delete); it too is rolled back and its message returned.
   */
  function Place(st: DbState, user: nat, req: OrderRequest, random: string, fault: Option<string>): (r: (PlaceResponse, DbState))
    ensures r.0.Placed? <==>
      ValidRequest(st.products, req) && Shortfall(st.products, req.lines).None? && fault.None?
    ensures !r.0.Placed? ==> r.1 == st
    ensures r.0.Placed? ==>
      && r.1.orders == st.orders + [r.0.order]
      && r.1.orderItems == st.orderItems + r.0.items
      && r.0.order.userId == user
      && user !in r.1.carts
    ensures forall u :: u in st.carts && u != user ==> u in r.1.carts && r.1.carts[u] == st.carts[u]
  {
    if !ValidRequest(st.products, req) then (Invalid, st)
    else
      var short := Shortfall(st.products, req.lines);
      if short.Some? then
        (Failed(InsufficientStock(st.products[req.lines[short.value].productId].title)), st)
      else if fault.Some? then (Failed(fault.value), st)
      else
        var order := NewOrder(st.nextOrderId, user, OrderTotal(st.products, req.lines), req.shipping, random);
        var items := ItemsOf(order.id, Drafts(st.products, req.lines));
        (Placed(order, items),
         st.(products := Consumed(st.products, req.lines),
             carts := st.carts - {user},
             orders := st.orders + [order],
             orderItems := st.orderItems + items,
             nextOrderId := st.nextOrderId + 1))
  }

  method Store(db: Database, user: nat, req: OrderRequest, random: string, fault: Option<string>) returns (r: PlaceResponse)
    requires db.Valid()
    modifies db
    ensures (r, db.State()) == Place(old(db.State()), user, req, random, fault)
    ensures db.Valid()
  {
    ghost var st := db.State();
    if !ValidRequest(db.products, req) {
      PlaceRefuses(st, user, req, random, fault);
      return Invalid;
    }
    var before := db.products;
    var error, total, drafts := TakeStock(db, req.lines);
    if error.Some? {
      db.products := before;
      PlaceFails(st, user, req, random, fault);
      return Failed(error.value);
    }
    var carts, orders, orderItems, nextOrderId := db.carts, db.orders, db.orderItems, db.nextOrderId;
    var order := NewOrder(db.nextOrderId, user, total, req.shipping, random);
    db.orders := db.orders + [order];
    db.nextOrderId := db.nextOrderId + 1;
    var items := CreateItems(db, order.id, drafts);
    db.carts := db.carts - {user};
    if fault.Some? {
      db.products, db.carts, db.orders, db.orderItems, db.nextOrderId := before, carts, orders, orderItems, nextOrderId;
      PlaceFaultRollsBack(st, user, req, random, fault);
      return Failed(fault.value);
    }
    ghost var after := st.(products := Consumed(st.products, req.lines),
                           carts := st.carts - {user},
                           orders := st.orders + [order],
                           orderItems := st.orderItems + items,
                           nextOrderId := st.nextOrderId + 1);
    assert db.products == after.products && db.carts == after.carts && db.orders == after.orders;
    assert db.orderItems == after.orderItems && db.nextOrderId == after.nextOrderId;
    assert db.nextItemId == after.nextItemId;
    assert db.State() == after;
    assert order == NewOrder(st.nextOrderId, user, OrderTotal(st.products, req.lines), req.shipping, random);
    assert items == ItemsOf(order.id, Drafts(st.products, req.lines));
    PlaceSucceeds(st, user, req, random, fault);
    assert Place(st, user, req, random, fault) == (Placed(order, items), after);
    PlaceKeepsValid(st, user, req, random, fault);
    return Placed(order, items);
  }

  /**
   * The first loop of `store`: each line reads its product's current stock, fails when the
   * stock is short, and otherwise adds to the total, records a snapshot and decrements the
   * stock. On failure the table is left as the earlier lines made it; undoing that is the
   * caller's rollback.
   */
  method TakeStock(db: Database, lines: seq<LineRequest>) returns (error: Option<string>, total: int, drafts: seq<LineDraft>)
    requires AllKnown(db.products, lines)
    modifies db`products
    ensures error.Some? <==> Shortfall(old(db.products), lines).Some?
    ensures error.Some? ==>
      error.value == InsufficientStock(old(db.products)[lines[Shortfall(old(db.products), lines).value].productId].title)
    ensures error.None? ==>
      && db.products == Consumed(old(db.products), lines)
      && total == OrderTotal(old(db.products), lines)
      && drafts == Drafts(old(db.products), lines)
  {
    var before := db.products;
    total := 0;
    drafts := [];
    var i := 0;
    while i < |lines|
      invariant 0 <= i <= |lines|
      invariant db.products == Consumed(before, lines[..i])
      invariant forall j :: 0 <= j < i ==> LineFits(before, lines, j)
      invariant total == OrderTotal(before, lines[..i])
      invariant drafts == Drafts(before, lines[..i])
    {
      var line := lines[i];
      ConsumeStep(before, lines, i, db.products);
      TotalStep(before, lines, i);
      var product := db.products[line.productId];
      if product.quantity < line.quantity {
        ShortfallIsFirst(before, lines, i);
        return Some(InsufficientStock(product.title)), total, drafts;
      }
      total := total + product.price * line.quantity;
      drafts := drafts + [LineDraft(line.productId, product.title, line.quantity, product.price, product.price * line.quantity)];
      db.products := db.products[line.productId := product.(quantity := product.quantity - line.quantity)];
      i := i + 1;
    }
    assert lines[..i] == lines;
    return None, total, drafts;
  }

  /** The second loop of `store`: one order item per snapshot, in order. */
  method CreateItems(db: Database, orderId: nat, drafts: seq<LineDraft>) returns (items: seq<OrderItem>)
    modifies db`orderItems
    ensures items == ItemsOf(orderId, drafts)
    ensures db.orderItems == old(db.orderItems) + items
  {
    items := [];
    var j := 0;
    while j < |drafts|
      invariant 0 <= j <= |drafts|
      invariant items == ItemsOf(orderId, drafts[..j])
      invariant db.orderItems == old(db.orderItems) + items
    {
      var item := ItemOf(orderId, drafts[j]);
      db.orderItems := db.orderItems + [item];
      items := items + [item];
      assert drafts[..j + 1][..j] == drafts[..j];
      j := j + 1;
    }
    assert drafts[..j] == drafts;
  }

  /** The refused outcome of `store`: nothing changes. */
  lemma PlaceRefuses(st: DbState, user: nat, req: OrderRequest, random: string, fault: Option<string>)
    requires !ValidRequest(st.products, req)
    ensures Place(st, user, req, random, fault) == (Invalid, st)
  {
  }

  /** The rolled-back outcome of `store`, spelt out. */
  lemma PlaceFails(st: DbState, user: nat, req: OrderRequest, random: string, fault: Option<string>)
    requires ValidRequest(st.products, req) && Shortfall(st.products, req.lines).Some?
    ensures Place(st, user, req, random, fault) ==
      (Failed(InsufficientStock(st.products[req.lines[Shortfall(st.products, req.lines).value].productId].title)), st)
  {
  }

  /** A write that fails after the stock check is rolled back too, stock included. */
  lemma PlaceFaultRollsBack(st: DbState, user: nat, req: OrderRequest, random: string, fault: Option<string>)
    requires ValidRequest(st.products, req) && Shortfall(st.products, req.lines).None? && fault.Some?
    ensures Place(st, user, req, random, fault) == (Failed(fault.value), st)
  {
  }

  /** The successful outcome of `store`, spelt out. */
  lemma PlaceSucceeds(st: DbState, user: nat, req: OrderRequest, random: string, fault: Option<string>)
    requires ValidRequest(st.products, req) && Shortfall(st.products, req.lines).None? && fault.None?
    ensures var order := NewOrder(st.nextOrderId, user, OrderTotal(st.products, req.lines), req.shipping, random);
      Place(st, user, req, random, fault).0 == Placed(order, ItemsOf(order.id, Drafts(st.products, req.lines)))
    ensures var order := NewOrder(st.nextOrderId, user, OrderTotal(st.products, req.lines), req.shipping, random);
      Place(st, user, req, random, fault).1 ==
      st.(products := Consumed(st.products, req.lines),
          carts := st.carts - {user},
          orders := st.orders + [order],
          orderItems := st.orderItems + ItemsOf(order.id, Drafts(st.products, req.lines)),
          nextOrderId := st.nextOrderId + 1)
  {
  }

  /** The loop's step: line i takes its quantity from the stock the earlier lines left. */
  lemma ConsumeStep(products: map<nat, Product>, lines: seq<LineRequest>, i: nat, c: map<nat, Product>)
    requires AllKnown(products, lines) && i < |lines|
    requires c == Consumed(products, lines[..i])
    ensures var pid := lines[i].productId;
      && pid in c && c[pid] == products[pid].(quantity := c[pid].quantity)
      && (LineFits(products, lines, i) <==> lines[i].quantity <= c[pid].quantity)
      && Consumed(products, lines[..i + 1]) == c[pid := c[pid].(quantity := c[pid].quantity - lines[i].quantity)]
  {
    assert lines[..i + 1][..i] == lines[..i];
  }

  /** The loop's step on the running total and the snapshots. */
  lemma TotalStep(products: map<nat, Product>, lines: seq<LineRequest>, i: nat)
    requires AllKnown(products, lines) && i < |lines|
    ensures var p := products[lines[i].productId];
      && OrderTotal(products, lines[..i + 1]) == OrderTotal(products, lines[..i]) + p.price * lines[i].quantity
      && Drafts(products, lines[..i + 1]) == Drafts(products, lines[..i]) + [DraftOf(p, lines[i])]
  {
    assert lines[..i + 1][..i] == lines[..i];
  }

  /** When every earlier line fits and line i does not, line i is the shortfall. */
  lemma ShortfallIsFirst(products: map<nat, Product>, lines: seq<LineRequest>, i: nat)
    requires AllKnown(products, lines) && i < |lines|
    requires forall j :: 0 <= j < i ==> LineFits(products, lines, j)
    requires !LineFits(products, lines, i)
    ensures Shortfall(products, lines) == Some(i)
  {
    assert Shortfall(products, lines).Some?;
  }

  /** `store` keeps the database valid: carts and order ids stay well-formed. */
  lemma PlaceKeepsValid(st: DbState, user: nat, req: OrderRequest, random: string, fault: Option<string>)
    ensures StateValid(st) ==> StateValid(Place(st, user, req, random, fault).1)
  {
    if StateValid(st) && ValidRequest(st.products, req) && Shortfall(st.products, req.lines).None? && fault.None? {
      var st' := Place(st, user, req, random, fault).1;
      var c := Consumed(st.products, req.lines);
      assert c.Keys == st.products.Keys;
      forall u | u in st'.carts ensures CartValid(c, st'.carts[u], st'.nextItemId) {
        assert CartValid(st.products, st.carts[u], st.nextItemId);
      }
      assert OrdersValid(st'.orders, st'.nextOrderId);
    }
  }

  // ---------------------------------------------------------------------------------------
  // What placement means
  // ---------------------------------------------------------------------------------------

  lemma {:induction false} DemandPrefix(lines: seq<LineRequest>, k: nat, productId: nat)
    requires k <= |lines|
    requires forall i :: 0 <= i < |lines| ==> lines[i].quantity >= 0
    ensures Demand(lines[..k], productId) <= Demand(lines, productId)
    decreases |lines|
  {
    if k < |lines| {
      var init := lines[..|lines| - 1];
      assert init[..k] == lines[..k];
      DemandPrefix(init, k, productId);
    } else {
      assert lines[..k] == lines;
    }
  }

  /** A product no line asks for is not asked for. */
  lemma {:induction false} DemandAbsent(lines: seq<LineRequest>, productId: nat)
    requires forall i :: 0 <= i < |lines| ==> lines[i].productId != productId
    ensures Demand(lines, productId) == 0
  {
    if lines != [] {
      DemandAbsent(lines[..|lines| - 1], productId);
    }
  }

  /**
   * Checking each line against the stock the earlier lines leave is the same as checking
   * every requested product's total demand against its stock: a product listed twice needs
   * stock for the combined amount.
   */
  lemma {:induction false} AllFitIffDemandCovered(products: map<nat, Product>, lines: seq<LineRequest>)
    requires AllKnown(products, lines)
    requires forall i :: 0 <= i < |lines| ==> lines[i].quantity >= 0
    ensures AllFit(products, lines) <==>
      forall k :: 0 <= k < |lines| ==> Demand(lines, lines[k].productId) <= products[lines[k].productId].quantity
  {
    if lines != [] {
      var n := |lines| - 1;
      var init := lines[..n];
      var x := lines[n];
      assert forall k :: 0 <= k < n ==> init[k] == lines[k] && init[..k] == lines[..k];
      assert forall k :: 0 <= k < n ==> (LineFits(products, init, k) <==> LineFits(products, lines, k));
      AllFitIffDemandCovered(products, init);
      if AllFit(products, lines) {
        forall k | 0 <= k < |lines|
          ensures Demand(lines, lines[k].productId) <= products[lines[k].productId].quantity
        {
          assert LineFits(products, lines, n);
          if k < n {
            assert AllFit(products, init);
            assert init[k] == lines[k];
          }
        }
      }
      if forall k :: 0 <= k < |lines| ==> Demand(lines, lines[k].productId) <= products[lines[k].productId].quantity {
        forall k | 0 <= k < n
          ensures Demand(init, init[k].productId) <= products[init[k].productId].quantity
        {
          assert init[k] == lines[k];
          DemandPrefix(lines, n, lines[k].productId);
        }
        assert AllFit(products, init);
        assert LineFits(products, lines, n);
      }
    }
  }

  /** Placement fails exactly when some requested product's total demand exceeds its stock. */
  lemma PlacementSucceedsIffDemandCovered(products: map<nat, Product>, req: OrderRequest)
    requires ValidRequest(products, req)
    ensures Shortfall(products, req.lines).None? <==>
      forall k :: 0 <= k < |req.lines| ==>
        Demand(req.lines, req.lines[k].productId) <= products[req.lines[k].productId].quantity
  {
    AllFitIffDemandCovered(products, req.lines);
  }

  /**
   * After a placement, every requested product lost exactly its demand and none is below
   * zero; every other product is as it was.
   */
  lemma StockAfterPlacement(products: map<nat, Product>, req: OrderRequest)
    requires ValidRequest(products, req) && Shortfall(products, req.lines).None?
    ensures Consumed(products, req.lines).Keys == products.Keys
    ensures forall k :: 0 <= k < |req.lines| ==>
      var pid := req.lines[k].productId;
      && Consumed(products, req.lines)[pid].quantity == products[pid].quantity - Demand(req.lines, pid)
      && Consumed(products, req.lines)[pid].quantity >= 0
    ensures forall pid :: pid in products && (forall k :: 0 <= k < |req.lines| ==> req.lines[k].productId != pid)
                          ==> Consumed(products, req.lines)[pid] == products[pid]
  {
    AllFitIffDemandCovered(products, req.lines);
    forall pid | pid in products && (forall k :: 0 <= k < |req.lines| ==> req.lines[k].productId != pid)
      ensures Consumed(products, req.lines)[pid] == products[pid]
    {
      DemandAbsent(req.lines, pid);
    }
  }

  /** Stock that starts non-negative stays non-negative through a placement. */
  lemma StockStaysNonNegative(products: map<nat, Product>, req: OrderRequest)
    requires ValidRequest(products, req) && Shortfall(products, req.lines).None?
    requires forall pid :: pid in products ==> products[pid].quantity >= 0
    ensures forall pid :: pid in Consumed(products, req.lines) ==> Consumed(products, req.lines)[pid].quantity >= 0
  {
    StockAfterPlacement(products, req);
    forall pid | pid in products ensures Consumed(products, req.lines)[pid].quantity >= 0 {
      if forall k :: 0 <= k < |req.lines| ==> req.lines[k].productId != pid {
      } else {
        var k :| 0 <= k < |req.lines| && req.lines[k].productId == pid;
      }
    }
  }

  function SumOfTotals(drafts: seq<LineDraft>): int
  {
    if drafts == [] then 0 else SumOfTotals(drafts[..|drafts| - 1]) + drafts[|drafts| - 1].total
  }

  /** The order's total_amount is the sum of its line totals, each line's price x quantity. */
  lemma {:induction false} TotalIsSumOfLineTotals(products: map<nat, Product>, lines: seq<LineRequest>)
    requires AllKnown(products, lines)
    ensures OrderTotal(products, lines) == SumOfTotals(Drafts(products, lines))
  {
    if lines != [] {
      var init := lines[..|lines| - 1];
      TotalIsSumOfLineTotals(products, init);
      var d := Drafts(products, lines);
      assert d[..|d| - 1] == Drafts(products, init);
    }
  }

  /** A random part of ten letters and digits gives `ORD-` and ten characters, none lower-case. */
  lemma OrderNumberShape(random: string)
    requires |random| == 10
    requires forall i :: 0 <= i < |random| ==> Utils.IsDigit(random[i]) || Utils.IsUpper(random[i]) || Utils.IsLower(random[i])
    ensures var n := OrderNumber(random);
      && |n| == 14 && n[..4] == "ORD-"
      && forall i :: 4 <= i < 14 ==> Utils.IsDigit(n[i]) || Utils.IsUpper(n[i])
  {
    var n := OrderNumber(random);
    forall i | 4 <= i < 14 ensures Utils.IsDigit(n[i]) || Utils.IsUpper(n[i]) {
      assert n[i] == Utils.ToUpperChar(random[i - 4]);
    }
  }

  /** A one-unit order of a single product succeeds exactly when the product is in stock. */
  lemma OneUnitSucceedsIffInStock(products: map<nat, Product>, productId: nat)
    requires productId in products
    ensures Shortfall(products, [LineRequest(productId, 1)]).None? <==> IsInStock(products[productId])
  {
    var lines := [LineRequest(productId, 1)];
    assert lines[..0] == [];
    assert Shortfall(products, lines).None? <==> LineFits(products, lines, 0);
  }

  /** The same product listed twice is checked against the stock left by the first line. */
  lemma RepeatedProductNeedsCombinedStock(products: map<nat, Product>, productId: nat, a: int, b: int)
    requires productId in products && a >= 1 && b >= 1
    ensures Shortfall(products, [LineRequest(productId, a), LineRequest(productId, b)]).None?
        <==> a + b <= products[productId].quantity
  {
    var lines := [LineRequest(productId, a), LineRequest(productId, b)];
    assert lines[..0] == [] && lines[..1] == [lines[0]] && [lines[0]][..0] == [];
    assert Demand(lines[..1], productId) == a;
    assert AllFit(products, lines) <==> LineFits(products, lines, 0) && LineFits(products, lines, 1);
  }

  /** One unit of a product priced 100.00 with stock 10: placed, total 100.00, stock 9. */
  lemma SingleUnitScenario()
    ensures var products := map[1 := Product("Test Product", 10000, None, 10)];
      var req := OrderRequest([LineRequest(1, 1)],
                              Shipping("Test User", "123 Test St", "Test City", "12345", "1234567890"));
      && ValidRequest(products, req)
      && Shortfall(products, req.lines).None?
      && OrderTotal(products, req.lines) == 10000
      && Consumed(products, req.lines)[1].quantity == 9
  {
    var products := map[1 := Product("Test Product", 10000, None, 10)];
    var lines := [LineRequest(1, 1)];
    assert lines[..0] == [];
    OneUnitSucceedsIffInStock(products, 1);
  }

  // ---------------------------------------------------------------------------------------
  // show
  // ---------------------------------------------------------------------------------------

  datatype ShowResponse =
    | Shown(order: Order, items: seq<OrderItem>)
    | Forbidden       // 403 "Unauthorized"
    | OrderNotFound   // the route's order binding found no row: 404

  function FindOrder(orders: seq<Order>, id: nat): (r: Option<nat>)
    ensures r.Some? ==> r.value < |orders| && orders[r.value].id == id
    ensures r.None? ==> forall i :: 0 <= i < |orders| ==> orders[i].id != id
  {
    if orders == [] then None
    else if orders[0].id == id then Some(0)
    else
      var r := FindOrder(orders[1..], id);
      if r.Some? then Some(r.value + 1) else None
  }

  function ItemsOfOrder(orderItems: seq<OrderItem>, id: nat): (r: seq<OrderItem>)
    ensures forall it :: it in r <==> it in orderItems && it.orderId == id
  {
    if orderItems == [] then []
    else (if orderItems[0].orderId == id then [orderItems[0]] else []) + ItemsOfOrder(orderItems[1..], id)
  }

  /**
   * Selecting an order's items distributes over concatenation; with ItemsOfOrderOne this fixes
   * the selection completely: the order's items, in table order, each as often as it is stored.
   */
  lemma {:induction false} ItemsOfOrderSplit(a: seq<OrderItem>, b: seq<OrderItem>, id: nat)
    ensures ItemsOfOrder(a + b, id) == ItemsOfOrder(a, id) + ItemsOfOrder(b, id)
  {
    if a == [] {
      assert a + b == b;
    } else {
      assert (a + b)[0] == a[0] && (a + b)[1..] == a[1..] + b;
      ItemsOfOrderSplit(a[1..], b, id);
      var head := if a[0].orderId == id then [a[0]] else [];
      assert ItemsOfOrder(a + b, id) == head + (ItemsOfOrder(a[1..], id) + ItemsOfOrder(b, id));
      assert head + (ItemsOfOrder(a[1..], id) + ItemsOfOrder(b, id))
          == (head + ItemsOfOrder(a[1..], id)) + ItemsOfOrder(b, id);
    }
  }

  /** On one item the selection keeps it exactly when it belongs to the order. */
  lemma ItemsOfOrderOne(it: OrderItem, id: nat)
    ensures ItemsOfOrder([it], id) == if it.orderId == id then [it] else []
  {
    assert [it][1..] == [];
  }

  /** Items that all belong to the order are selected as they are. */
  lemma {:induction false} ItemsOfOrderAll(items: seq<OrderItem>, id: nat)
    requires forall i :: 0 <= i < |items| ==> items[i].orderId == id
    ensures ItemsOfOrder(items, id) == items
  {
    if items != [] {
      assert forall i :: 0 <= i < |items| - 1 ==> items[1..][i] == items[i + 1];
      ItemsOfOrderAll(items[1..], id);
      assert items == [items[0]] + items[1..];
    }
  }

  /** Items none of which belongs to the order contribute nothing. */
  lemma {:induction false} ItemsOfOrderNone(items: seq<OrderItem>, id: nat)
    requires forall i :: 0 <= i < |items| ==> items[i].orderId != id
    ensures ItemsOfOrder(items, id) == []
  {
    if items != [] {
      assert forall i :: 0 <= i < |items| - 1 ==> items[1..][i] == items[i + 1];
      ItemsOfOrderNone(items[1..], id);
    }
  }

  /**
   * `show` of a freshly placed order lists exactly the items `store` created for it, in the
   * order of the request's lines, when no older item carries the new order's id.
   */
  lemma ShowsPlacedItems(orderItems: seq<OrderItem>, id: nat, drafts: seq<LineDraft>)
    requires forall i :: 0 <= i < |orderItems| ==> orderItems[i].orderId != id
    ensures ItemsOfOrder(orderItems + ItemsOf(id, drafts), id) == ItemsOf(id, drafts)
  {
    var created := ItemsOf(id, drafts);
    ItemsOfOrderSplit(orderItems, created, id);
    ItemsOfOrderNone(orderItems, id);
    ItemsOfOrderAll(created, id);
    assert [] + created == created;
  }

  /** `show`: the caller's own order with its items; someone else's order is refused. */
  function Show(orders: seq<Order>, orderItems: seq<OrderItem>, caller: nat, id: nat): (r: ShowResponse)
    ensures r.Shown? ==> r.order in orders && r.order.id == id && r.order.userId == caller
    ensures r.Shown? ==> forall it :: it in r.items <==> it in orderItems && it.orderId == id
    ensures r.Shown? ==> r.items == ItemsOfOrder(orderItems, id)
    ensures r == OrderNotFound <==> forall i :: 0 <= i < |orders| ==> orders[i].id != id
    ensures r == Forbidden ==> exists i :: 0 <= i < |orders| && orders[i].id == id && orders[i].userId != caller
  {
    var k := FindOrder(orders, id);
    if k.None? then OrderNotFound
    else if orders[k.value].userId != caller then Forbidden
    else Shown(orders[k.value], ItemsOfOrder(orderItems, id))
  }

  /** With order ids unique, `show` answers 403 exactly when the order belongs to another user. */
  lemma ShowForbiddenIffOtherOwner(orders: seq<Order>, orderItems: seq<OrderItem>, caller: nat, id: nat)
    requires forall i, j :: 0 <= i < j < |orders| ==> orders[i].id < orders[j].id
    ensures Show(orders, orderItems, caller, id) == Forbidden <==>
      exists i :: 0 <= i < |orders| && orders[i].id == id && orders[i].userId != caller
    ensures Show(orders, orderItems, caller, id).Shown? <==>
      exists i :: 0 <= i < |orders| && orders[i].id == id && orders[i].userId == caller
  {
    var k := FindOrder(orders, id);
    if k.Some? {
      assert forall i :: 0 <= i < |orders| && orders[i].id == id ==> i == k.value;
    }
  }
}

/**
 * The storefront client's cart store: an ordered list of entries, at most one per product,
 * kept in the browser. Each operation replaces the list with a new one computed from the old
 * (the store's `set`); prices are in integer cents.
 */
module ClientCart {
  import opened Common

  /** One cart line as the client keeps it. */
  datatype CartEntry = CartEntry(
    id: string, productId: string, slug: string, title: string,
    price: int, quantity: int, image: string, maxQuantity: int)

  /** The argument of `addItem`: an entry whose quantity may be left out. */
  datatype NewEntry = NewEntry(
    id: string, productId: string, slug: string, title: string,
    price: int, quantity: Option<int>, image: string, maxQuantity: int)

  /** `item.quantity || 1`: a missing or zero quantity counts as one. */
  function RequestedQuantity(q: Option<int>): (n: int)
    ensures q.Some? && q.value != 0 ==> n == q.value
    ensures q.None? || q.value == 0 ==> n == 1
  {
    if q.None? || q.value == 0 then 1 else q.value
  }

  predicate HasProduct(items: seq<CartEntry>, productId: string)
  {
    exists i :: 0 <= i < |items| && items[i].productId == productId
  }

  /** The store's invariant: no product appears in two entries. */
  predicate UniqueProducts(items: seq<CartEntry>)
  {
    forall i, j :: 0 <= i < j < |items| ==> items[i].productId != items[j].productId
  }

  /** `items.map(...)` in addItem: every entry of the product grows, capped at its maximum. */
  function MergeQuantity(items: seq<CartEntry>, productId: string, add: int): (r: seq<CartEntry>)
    ensures |r| == |items|
    ensures forall i :: 0 <= i < |items| ==>
              r[i] == (if items[i].productId == productId
                       then items[i].(quantity := Min(items[i].quantity + add, items[i].maxQuantity))
                       else items[i])
  {
    if items == [] then []
    else
      var e := items[0];
      var head := if e.productId == productId
                  then e.(quantity := Min(e.quantity + add, e.maxQuantity)) else e;
      [head] + MergeQuantity(items[1..], productId, add)
  }

  /** `items.map(...)` in updateQuantity: every entry of the product is set, capped. */
  function SetQuantity(items: seq<CartEntry>, productId: string, quantity: int): (r: seq<CartEntry>)
    ensures |r| == |items|
    ensures forall i :: 0 <= i < |items| ==>
              r[i] == (if items[i].productId == productId
                       then items[i].(quantity := Min(quantity, items[i].maxQuantity))
                       else items[i])
  {
    if items == [] then []
    else
      var e := items[0];
      var head := if e.productId == productId
                  then e.(quantity := Min(quantity, e.maxQuantity)) else e;
      [head] + SetQuantity(items[1..], productId, quantity)
  }

  /** `items.filter((i) => i.productId !== productId)`. */
  function WithoutProduct(items: seq<CartEntry>, productId: string): (r: seq<CartEntry>)
  {
    if items == [] then []
    else if items[0].productId == productId then WithoutProduct(items[1..], productId)
    else [items[0]] + WithoutProduct(items[1..], productId)
  }

  /** The list `addItem(item)` leaves. */
  function AddedItems(items: seq<CartEntry>, item: NewEntry): seq<CartEntry>
  {
    if HasProduct(items, item.productId) then
      MergeQuantity(items, item.productId, RequestedQuantity(item.quantity))
    else
      items + [CartEntry(item.id, item.productId, item.slug, item.title, item.price,
                         RequestedQuantity(item.quantity), item.image, item.maxQuantity)]
  }

  /** The list `updateQuantity(productId, quantity)` leaves. */
  function UpdatedItems(items: seq<CartEntry>, productId: string, quantity: int): seq<CartEntry>
  {
    if quantity <= 0 then WithoutProduct(items, productId)
    else SetQuantity(items, productId, quantity)
  }

  /** `reduce((total, item) => total + item.quantity, 0)`. */
  function TotalItems(items: seq<CartEntry>): int
  {
    if items == [] then 0 else items[0].quantity + TotalItems(items[1..])
  }

  /** `reduce((total, item) => total + item.price * item.quantity, 0)`. */
  function TotalPrice(items: seq<CartEntry>): int
  {
    if items == [] then 0 else items[0].price * items[0].quantity + TotalPrice(items[1..])
  }

  // ---------------------------------------------------------------------------------------
  // The store
  // ---------------------------------------------------------------------------------------

  class CartStore {
    var items: seq<CartEntry>

    ghost predicate Valid()
      reads this
    {
      UniqueProducts(items)
    }

    constructor ()
      ensures items == [] && Valid()
    {
      items := [];
    }

    method AddItem(item: NewEntry)
      modifies this
      ensures items == AddedItems(old(items), item)
      ensures old(Valid()) ==> Valid()
    {
      var current := items;
      if HasProduct(current, item.productId) {
        items := MergeQuantity(current, item.productId, RequestedQuantity(item.quantity));
      } else {
        items := current + [CartEntry(item.id, item.productId, item.slug, item.title, item.price,
                                      RequestedQuantity(item.quantity), item.image, item.maxQuantity)];
      }
      AddKeepsUnique(current, item);
    }

    method RemoveItem(productId: string)
      modifies this
      ensures items == WithoutProduct(old(items), productId)
      ensures old(Valid()) ==> Valid()
    {
      var current := items;
      items := WithoutProduct(current, productId);
      RemoveKeepsUnique(current, productId);
    }

    method UpdateQuantity(productId: string, quantity: int)
      modifies this
      ensures items == UpdatedItems(old(items), productId, quantity)
      ensures old(Valid()) ==> Valid()
    {
      if quantity <= 0 {
        RemoveItem(productId);
        return;
      }
      var current := items;
      items := SetQuantity(current, productId, quantity);
    }

    method ClearCart()
      modifies this
      ensures items == [] && Valid()
    {
      items := [];
    }

    /** `getTotalItems()`. */
    function GetTotalItems(): (n: int)
      reads this
      ensures items == [] ==> n == 0
      ensures (forall i :: 0 <= i < |items| ==> items[i].quantity >= 0) ==> n >= 0
    {
      TotalsNonNegative(items);
      TotalItems(items)
    }

    /** `getTotalPrice()`. */
    function GetTotalPrice(): (n: int)
      reads this
      ensures items == [] ==> n == 0
      ensures (forall i :: 0 <= i < |items| ==> items[i].quantity >= 0 && items[i].price >= 0) ==> n >= 0
    {
      TotalsNonNegative(items);
      TotalPrice(items)
    }
  }

  // ---------------------------------------------------------------------------------------
  // Properties
  // ---------------------------------------------------------------------------------------

  /** Sums over lists of non-negative quantities and prices are non-negative. */
  lemma {:induction false} TotalsNonNegative(items: seq<CartEntry>)
    ensures (forall i :: 0 <= i < |items| ==> items[i].quantity >= 0) ==> TotalItems(items) >= 0
    ensures (forall i :: 0 <= i < |items| ==> items[i].quantity >= 0 && items[i].price >= 0)
              ==> TotalPrice(items) >= 0
  {
    if items != [] {
      TotalsNonNegative(items[1..]);
      assert forall i :: 0 <= i < |items| - 1 ==> items[1..][i] == items[i + 1];
      assert items[0].quantity >= 0 && items[0].price >= 0 ==> items[0].price * items[0].quantity >= 0;
    }
  }

  /** The index of the product's entry, when the list holds one. */
  lemma ProductIndex(items: seq<CartEntry>, productId: string) returns (k: nat)
    requires HasProduct(items, productId)
    ensures k < |items| && items[k].productId == productId
  {
    k :| 0 <= k < |items| && items[k].productId == productId;
  }

  /**
   * Adding a product already in the cart raises that entry to min(old + n, maximum), where n
   * is the given quantity or 1, and leaves every other entry and the order as they were.
   */
  lemma AddExisting(items: seq<CartEntry>, item: NewEntry, k: nat)
    requires UniqueProducts(items)
    requires k < |items| && items[k].productId == item.productId
    ensures var r := AddedItems(items, item);
      && |r| == |items|
      && r[k] == items[k].(quantity := Min(items[k].quantity + RequestedQuantity(item.quantity),
                                           items[k].maxQuantity))
      && forall i :: 0 <= i < |items| && i != k ==> r[i] == items[i]
  {
  }

  /** Adding a new product appends one entry, with the given quantity or 1, at the end. */
  lemma AddNew(items: seq<CartEntry>, item: NewEntry)
    requires !HasProduct(items, item.productId)
    ensures var r := AddedItems(items, item);
      && |r| == |items| + 1 && r[..|items|] == items
      && r[|items|].productId == item.productId
      && r[|items|].quantity == RequestedQuantity(item.quantity)
  {
    assert (items + [AddedItems(items, item)[|items|]])[..|items|] == items;
  }

  /** addItem keeps at most one entry per product. */
  lemma AddKeepsUnique(items: seq<CartEntry>, item: NewEntry)
    ensures UniqueProducts(items) ==> UniqueProducts(AddedItems(items, item))
  {
    var r := AddedItems(items, item);
    if UniqueProducts(items) && !HasProduct(items, item.productId) {
      forall i, j | 0 <= i < j < |r| ensures r[i].productId != r[j].productId {
        if j == |items| {
          assert r[i] == items[i];
        }
      }
    }
  }

  /** The filter keeps, in order, exactly the entries of other products. */
  lemma {:induction false} WithoutProductSpec(items: seq<CartEntry>, productId: string)
    ensures var r := WithoutProduct(items, productId);
      && !HasProduct(r, productId)
      && (forall e :: e in r <==> e in items && e.productId != productId)
      && |r| <= |items|
  {
    if items != [] {
      WithoutProductSpec(items[1..], productId);
      var r := WithoutProduct(items, productId);
      var rest := WithoutProduct(items[1..], productId);
      if items[0].productId != productId {
        assert r == [items[0]] + rest;
        forall k | 0 <= k < |r| ensures r[k].productId != productId {
          if k > 0 {
            assert r[k] == rest[k - 1];
          }
        }
      }
      forall e ensures e in r <==> e in items && e.productId != productId {
        assert e in items <==> e == items[0] || e in items[1..];
      }
    }
  }

  /**
   * The filter decides entry by entry and keeps the survivors in order: it distributes over
   * concatenation (with WithoutProductOne, this pins the result down completely).
   */
  lemma {:induction false} WithoutProductSplit(a: seq<CartEntry>, b: seq<CartEntry>, productId: string)
    ensures WithoutProduct(a + b, productId) == WithoutProduct(a, productId) + WithoutProduct(b, productId)
  {
    if a == [] {
      assert a + b == b;
    } else {
      assert (a + b)[0] == a[0] && (a + b)[1..] == a[1..] + b;
      WithoutProductSplit(a[1..], b, productId);
      if a[0].productId != productId {
        assert WithoutProduct(a + b, productId)
            == [a[0]] + (WithoutProduct(a[1..], productId) + WithoutProduct(b, productId));
      }
    }
  }

  /** A single entry survives the filter exactly when it belongs to another product. */
  lemma WithoutProductOne(e: CartEntry, productId: string)
    ensures WithoutProduct([e], productId) == if e.productId == productId then [] else [e]
  {
    assert [e][1..] == [];
  }

  /** With unique products, removing the product at k deletes exactly entry k. */
  lemma {:induction false} RemoveAt(items: seq<CartEntry>, productId: string, k: nat)
    requires UniqueProducts(items)
    requires k < |items| && items[k].productId == productId
    ensures WithoutProduct(items, productId) == items[..k] + items[k + 1..]
  {
    if k == 0 {
      NotPresentUnchanged(items[1..], productId);
      assert items[1..] == items[k + 1..];
    } else {
      assert UniqueProducts(items[1..]);
      RemoveAt(items[1..], productId, k - 1);
      assert items[1..][..k - 1] == items[1..k];
      assert items[1..][k..] == items[k + 1..];
      assert items[..k] == [items[0]] + items[1..k];
    }
  }

  /** Removing a product that is not there changes nothing. */
  lemma {:induction false} NotPresentUnchanged(items: seq<CartEntry>, productId: string)
    requires !HasProduct(items, productId)
    ensures WithoutProduct(items, productId) == items
  {
    if items != [] {
      assert !HasProduct(items[1..], productId) by {
        forall k | 0 <= k < |items[1..]| ensures items[1..][k].productId != productId {
          assert items[1..][k] == items[k + 1];
        }
      }
      NotPresentUnchanged(items[1..], productId);
      assert items == [items[0]] + items[1..];
    }
  }

  /** removeItem keeps at most one entry per product. */
  lemma RemoveKeepsUnique(items: seq<CartEntry>, productId: string)
    ensures UniqueProducts(items) ==> UniqueProducts(WithoutProduct(items, productId))
  {
    if UniqueProducts(items) {
      if HasProduct(items, productId) {
        var k := ProductIndex(items, productId);
        RemoveAt(items, productId, k);
        var r := items[..k] + items[k + 1..];
        forall i, j | 0 <= i < j < |r| ensures r[i].productId != r[j].productId {
          var i' := if i < k then i else i + 1;
          var j' := if j < k then j else j + 1;
          assert r[i] == items[i'] && r[j] == items[j'];
        }
      } else {
        NotPresentUnchanged(items, productId);
      }
    }
  }

  /** updateQuantity with a positive quantity sets the entry to min(quantity, maximum) only. */
  lemma UpdatePositive(items: seq<CartEntry>, productId: string, quantity: int, k: nat)
    requires UniqueProducts(items) && quantity > 0
    requires k < |items| && items[k].productId == productId
    ensures var r := UpdatedItems(items, productId, quantity);
      && |r| == |items|
      && r[k] == items[k].(quantity := Min(quantity, items[k].maxQuantity))
      && forall i :: 0 <= i < |items| && i != k ==> r[i] == items[i]
  {
  }

  /** updateQuantity with a quantity of zero or less is removeItem. */
  lemma UpdateNonPositiveRemoves(items: seq<CartEntry>, productId: string, quantity: int)
    requires quantity <= 0
    ensures UpdatedItems(items, productId, quantity) == WithoutProduct(items, productId)
  {
  }

  lemma {:induction false} TotalsAppend(items: seq<CartEntry>, e: CartEntry)
    ensures TotalItems(items + [e]) == TotalItems(items) + e.quantity
    ensures TotalPrice(items + [e]) == TotalPrice(items) + e.price * e.quantity
  {
    if items == [] {
      assert items + [e] == [e];
    } else {
      assert (items + [e])[1..] == items[1..] + [e];
      TotalsAppend(items[1..], e);
    }
  }

  lemma {:induction false} TotalsSplit(a: seq<CartEntry>, b: seq<CartEntry>)
    ensures TotalItems(a + b) == TotalItems(a) + TotalItems(b)
    ensures TotalPrice(a + b) == TotalPrice(a) + TotalPrice(b)
  {
    if a == [] {
      assert a + b == b;
    } else {
      assert (a + b)[1..] == a[1..] + b;
      TotalsSplit(a[1..], b);
    }
  }

  /** Totals after replacing entry k: the old entry's share is swapped for the new one's. */
  lemma TotalsReplace(items: seq<CartEntry>, k: nat, e: CartEntry)
    requires k < |items|
    ensures TotalItems(items[k := e]) == TotalItems(items) - items[k].quantity + e.quantity
    ensures TotalPrice(items[k := e]) == TotalPrice(items) - items[k].price * items[k].quantity + e.price * e.quantity
  {
    assert items == items[..k] + [items[k]] + items[k + 1..];
    assert items[k := e] == items[..k] + [e] + items[k + 1..];
    TotalsSplit(items[..k] + [items[k]], items[k + 1..]);
    TotalsSplit(items[..k] + [e], items[k + 1..]);
    TotalsAppend(items[..k], items[k]);
    TotalsAppend(items[..k], e);
  }

  /** Adding a new product raises the item count by the quantity added. */
  lemma AddNewTotals(items: seq<CartEntry>, item: NewEntry)
    requires !HasProduct(items, item.productId)
    ensures TotalItems(AddedItems(items, item)) == TotalItems(items) + RequestedQuantity(item.quantity)
    ensures TotalPrice(AddedItems(items, item)) == TotalPrice(items) + item.price * RequestedQuantity(item.quantity)
  {
    var e := CartEntry(item.id, item.productId, item.slug, item.title, item.price,
                       RequestedQuantity(item.quantity), item.image, item.maxQuantity);
    TotalsAppend(items, e);
  }

  /** Adding a product already present raises the item count by what the cap lets through. */
  lemma AddExistingTotals(items: seq<CartEntry>, item: NewEntry, k: nat)
    requires UniqueProducts(items)
    requires k < |items| && items[k].productId == item.productId
    ensures var n := Min(items[k].quantity + RequestedQuantity(item.quantity), items[k].maxQuantity);
      TotalItems(AddedItems(items, item)) == TotalItems(items) - items[k].quantity + n
  {
    var n := Min(items[k].quantity + RequestedQuantity(item.quantity), items[k].maxQuantity);
    AddExisting(items, item, k);
    assert AddedItems(items, item) == items[k := items[k].(quantity := n)];
    TotalsReplace(items, k, items[k].(quantity := n));
  }

  /** Removing a product takes its entry's quantity and price out of the totals. */
  lemma RemoveTotals(items: seq<CartEntry>, productId: string, k: nat)
    requires UniqueProducts(items)
    requires k < |items| && items[k].productId == productId
    ensures TotalItems(WithoutProduct(items, productId)) == TotalItems(items) - items[k].quantity
    ensures TotalPrice(WithoutProduct(items, productId)) == TotalPrice(items) - items[k].price * items[k].quantity
  {
    RemoveAt(items, productId, k);
    assert items == items[..k] + [items[k]] + items[k + 1..];
    TotalsSplit(items[..k] + [items[k]], items[k + 1..]);
    TotalsSplit(items[..k], items[k + 1..]);
    TotalsAppend(items[..k], items[k]);
  }
}

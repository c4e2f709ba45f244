/**
 * The backend's persistent state, as the cart and order controllers see it: the product table,
 * one cart per user (absent until first used), and the orders with their line items.
 * Row ids are natural numbers; money is in integer cents.
 */
module Shop {
  import opened Catalog

  /** A row of `cart_items`: the product, the quantity and the price copied when it was added. */
  datatype CartItem = CartItem(id: nat, productId: nat, quantity: int, price: int)

  datatype OrderStatus = Pending | Processing | Shipped | Delivered | Cancelled
  datatype PaymentStatus = PaymentPending | Paid | PaymentFailed | Refunded
  /** Orders are only ever placed as cash on delivery (`cod`). */
  datatype PaymentMethod = CashOnDelivery

  datatype Shipping = Shipping(name: string, address: string, city: string,
                               postalCode: string, phone: string)

  datatype Order = Order(id: nat, userId: nat, orderNumber: string,
                         status: OrderStatus, paymentStatus: PaymentStatus,
                         paymentMethod: PaymentMethod, totalAmount: int, shipping: Shipping)

  /** A row of `order_items`: a snapshot of the product's title and price at order time. */
  datatype OrderItem = OrderItem(orderId: nat, productId: nat, productName: string,
                                 quantity: int, price: int, total: int)

  /** Every item refers to an existing product. */
  predicate ItemsKnown(products: map<nat, Product>, items: seq<CartItem>)
  {
    forall i :: 0 <= i < |items| ==> items[i].productId in products
  }

  /**
   * A cart's rows: known products, positive quantities, ids already handed out, no product or
   * id twice.
   */
  predicate CartValid(products: map<nat, Product>, items: seq<CartItem>, nextItemId: nat)
  {
    && ItemsKnown(products, items)
    && (forall i :: 0 <= i < |items| ==> items[i].quantity >= 1 && items[i].id < nextItemId)
    && (forall i, j :: 0 <= i < j < |items| ==>
          items[i].productId != items[j].productId && items[i].id != items[j].id)
  }

  /** Every cart in the table is valid. */
  predicate AllCartsValid(products: map<nat, Product>, carts: map<nat, seq<CartItem>>, nextItemId: nat)
  {
    forall u :: u in carts ==> CartValid(products, carts[u], nextItemId)
  }

  /** The whole content of the database, as a value. */
  datatype DbState = DbState(products: map<nat, Product>, carts: map<nat, seq<CartItem>>, nextItemId: nat,
                             orders: seq<Order>, orderItems: seq<OrderItem>, nextOrderId: nat)

  /** Order ids were handed out in increasing order, below the next one. */
  predicate OrdersValid(orders: seq<Order>, nextOrderId: nat)
  {
    && (forall i :: 0 <= i < |orders| ==> orders[i].id < nextOrderId)
    && (forall i, j :: 0 <= i < j < |orders| ==> orders[i].id < orders[j].id)
  }

  predicate StateValid(st: DbState)
  {
    AllCartsValid(st.products, st.carts, st.nextItemId) && OrdersValid(st.orders, st.nextOrderId)
  }

  class Database {
    var products: map<nat, Product>
    /** user id -> the rows of that user's cart; a user without a key has no cart. */
    var carts: map<nat, seq<CartItem>>
    var nextItemId: nat
    var orders: seq<Order>
    var orderItems: seq<OrderItem>
    var nextOrderId: nat

    ghost predicate Valid()
      reads this
    {
      StateValid(State())
    }

    function State(): DbState
      reads this
    {
      DbState(products, carts, nextItemId, orders, orderItems, nextOrderId)
    }

    constructor (products: map<nat, Product>)
      ensures this.products == products
      ensures carts == map[] && orders == [] && orderItems == []
      ensures Valid()
    {
      this.products := products;
      carts := map[];
      nextItemId := 0;
      orders := [];
      orderItems := [];
      nextOrderId := 0;
    }
  }
}

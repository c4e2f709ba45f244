/**
 * The computed attributes of a catalogue product: discount percentage, "on sale" and
 * "in stock". Money is held in integer cents, which is how the two-decimal columns
 * store it, so every accessor is exact integer arithmetic.
 */
module Catalog {
  import opened Common

  /** A product row: its title, price and optional compare-at price in cents, and stock. */
  datatype Product = Product(title: string, price: int, comparePrice: Option<int>, quantity: int)

  /**
   * PHP truthiness of `compare_price`. The `decimal:2` cast turns a stored value into a
   * string such as "0.00", and every such string is true; only a NULL column is false.
   */
  predicate HasComparePrice(p: Product)
  {
    p.comparePrice.Some?
  }

  /** What the discount accessor yields: a percentage, or the division error it throws. */
  datatype Discount = Percent(value: int) | DivisionByZeroError

  /** (2a + b) / 2b is a nearest integer to a / b, rounding a tie upwards. */
  lemma HalfUpIsNearest(a: nat, b: int, q: int)
    requires b > 0 && q == (2 * a + b) / (2 * b)
    ensures q >= 0
    ensures -b <= 2 * (a - q * b) < b
  {
    var m, k := 2 * a + b, 2 * b;
    assert m == q * k + m % k;
    assert q * k == 2 * (q * b);
  }

  /** Moving the signs of n and d onto the rounded magnitude q. */
  lemma SignedProduct(n: int, d: int, q: int)
    requires q >= 0 && d != 0
    ensures var r := if (n < 0) == (d < 0) then q else -q;
      Abs(n - r * d) == Abs(Abs(n) - q * Abs(d)) && Abs(r * d) == q * Abs(d)
  {
    if d < 0 {
      assert q * d == -(q * Abs(d));
    }
  }

  /** Round half away from zero of n / d (PHP's round() applied to the exact quotient). */
  function RoundDiv(n: int, d: int): (r: int)
    requires d != 0
    // r is an integer nearest to n / d ...
    ensures 2 * Abs(n - r * d) <= Abs(d)
    // ... and on a tie it is the one further from zero
    ensures 2 * Abs(n - r * d) == Abs(d) ==> Abs(r * d) > Abs(n)
  {
    var q := (2 * Abs(n) + Abs(d)) / (2 * Abs(d));
    HalfUpIsNearest(Abs(n), Abs(d), q);
    SignedProduct(n, d, q);
    if (n < 0) == (d < 0) then q else -q
  }

  /**
   * Discount percentage: 0 unless the compare price is present and above the price. A zero
   * compare price passes that test when the price is negative, and the division then throws.
   */
  function DiscountPercentage(p: Product): (r: Discount)
    ensures r == DivisionByZeroError <==> p.comparePrice == Some(0) && p.price < 0
  {
    if !HasComparePrice(p) || p.comparePrice.value <= p.price then Percent(0)
    else if p.comparePrice.value == 0 then DivisionByZeroError
    else Percent(RoundDiv(100 * (p.comparePrice.value - p.price), p.comparePrice.value))
  }

  /** The product is on sale when a compare price is present and above the price. */
  predicate IsOnSale(p: Product)
  {
    HasComparePrice(p) && p.comparePrice.value > p.price
  }

  /** The product is in stock when at least one unit is on hand. */
  predicate IsInStock(p: Product)
  {
    p.quantity > 0
  }

  /**
   * A stored compare price of 0.00 is present: with a negative price the product is on sale and
   * the discount accessor divides by zero.
   */
  lemma ZeroComparePriceIsOnSale(p: Product)
    requires p.comparePrice == Some(0) && p.price < 0
    ensures HasComparePrice(p) && IsOnSale(p)
    ensures DiscountPercentage(p) == DivisionByZeroError
  {
  }

  /** A product that is not on sale shows no discount. */
  lemma DiscountZeroUnlessOnSale(p: Product)
    ensures !IsOnSale(p) ==> DiscountPercentage(p) == Percent(0)
    ensures DiscountPercentage(p) != Percent(0) ==> IsOnSale(p)
  {
  }

  /**
   * On sale with a non-zero compare price, the percentage is the integer nearest to
   * (compare - price) / compare * 100.
   */
  lemma DiscountIsNearestPercent(p: Product)
    requires IsOnSale(p) && p.comparePrice.value != 0
    ensures DiscountPercentage(p).Percent?
    ensures var cp := p.comparePrice.value;
      2 * Abs(100 * (cp - p.price) - DiscountPercentage(p).value * cp) <= Abs(cp)
  {
  }

  /** Multiplying both sides by a positive factor keeps an inequality. */
  lemma ScaleLeq(x: int, y: int, c: int)
    requires c > 0 && x <= y
    ensures x * c <= y * c
  {
    assert y * c - x * c == (y - x) * c;
  }

  /** With a non-negative price the discount percentage lies in 0..100. */
  lemma {:induction false} DiscountWithinPercentRange(p: Product)
    requires p.price >= 0
    ensures DiscountPercentage(p).Percent?
    ensures 0 <= DiscountPercentage(p).value <= 100
  {
    if IsOnSale(p) {
      var cp := p.comparePrice.value;
      var n := 100 * (cp - p.price);
      var r := RoundDiv(n, cp);
      assert DiscountPercentage(p) == Percent(r);
      assert 0 < n <= 100 * cp;
      assert 2 * Abs(n - r * cp) <= cp;
      if r < 0 {
        ScaleLeq(r, -1, cp);
        assert false;
      }
      if r > 100 {
        ScaleLeq(101, r, cp);
        assert false;
      }
    }
  }

  /** A free product with a positive compare price is a 100% discount. */
  lemma {:induction false} FreeProductIsFullDiscount(p: Product)
    requires p.price == 0 && IsOnSale(p)
    ensures DiscountPercentage(p) == Percent(100)
  {
    var cp := p.comparePrice.value;
    var r := RoundDiv(100 * cp, cp);
    assert DiscountPercentage(p) == Percent(r);
    assert 2 * Abs(100 * cp - r * cp) <= cp;
    if r < 100 {
      ScaleLeq(r, 99, cp);
      assert false;
    }
    if r > 100 {
      ScaleLeq(101, r, cp);
      assert false;
    }
  }
}

/** The storefront's price arithmetic on whole rupees and whole percentages: the
    discounted price every listing and order uses, the quote the order dialog shows, and
    the price buckets of the product filter. */
module Pricing {

  /** The price a customer pays: JavaScript's `Math.round(price - price * discount / 100)`.
      `Math.round(x)` is the integer nearest to `x`, halves rounded up, which is
      floor(x + 1/2); with `x` scaled by 100 that is a floor division by 100. */
  function DiscountedPrice(price: int, discount: int): (r: int)
    ensures 100 * r - 50 <= 100 * price - price * discount < 100 * r + 50
  {
    (100 * price - price * discount + 50) / 100
  }

  /** Rounding has one answer: any integer within half a rupee of the exact discounted
      price (halves counting upward) is the discounted price. */
  lemma DiscountedPriceUnique(price: int, discount: int, r: int)
    requires 100 * r - 50 <= 100 * price - price * discount < 100 * r + 50
    ensures r == DiscountedPrice(price, discount)
  {
  }

  lemma MulBounds(price: int, discount: int)
    requires 0 <= price && 0 <= discount <= 100
    ensures 0 <= price * discount <= 100 * price
  {
    assert price * discount <= price * 100 by {
      assert price * (100 - discount) >= 0;
    }
  }

  /** A discount between 0 and 100 percent never raises the price nor makes it negative. */
  lemma DiscountedPriceBounds(price: int, discount: int)
    requires 0 <= price && 0 <= discount <= 100
    ensures 0 <= DiscountedPrice(price, discount) <= price
  {
    MulBounds(price, discount);
  }

  /** The storefront's own example: a 799 rupee oil at 25 percent sells for 599. */
  lemma DiscountedPriceExample()
    ensures DiscountedPrice(799, 25) == 599
  {
  }

  // ---------------------------------------------------------------- order dialog quote

  /** What a dialog shows for a product: the original price, the amount saved and the
      price to pay. */
  datatype Quote = Quote(original: int, saving: int, final: int)

  /** The quote as `openOrderModal` computes it: the saving is
      `Math.round(price * discount / 100)` and the final price is `price` minus it. The
      two roundings differ, so this is not always the price the order records. */
  function ModalQuote(price: int, discount: int): (q: Quote)
    ensures q.original == price && q.final + q.saving == price
    ensures 100 * q.saving - 50 <= price * discount < 100 * q.saving + 50
  {
    var saving := (price * discount + 50) / 100;
    Quote(price, saving, price - saving)
  }

  lemma DivByHundred(a: int, b: int)
    requires 0 <= b < 100
    ensures (100 * a + b) / 100 == a
  {
  }

  /** The dialog's final price falls one rupee below the charged price exactly when
      `price * discount` ends in 50, i.e. when the exact saving is a half rupee; otherwise
      the two agree. */
  lemma ModalQuoteGap(price: int, discount: int)
    ensures DiscountedPrice(price, discount) - ModalQuote(price, discount).final
         == if (price * discount) % 100 == 50 then 1 else 0
  {
    var m := price * discount;
    var q := m / 100;
    var rem := m % 100;
    assert m == 100 * q + rem;
    if rem <= 50 {
      DivByHundred(price - q, 50 - rem);
      assert 100 * price - m + 50 == 100 * (price - q) + (50 - rem);
    } else {
      DivByHundred(price - q - 1, 150 - rem);
      assert 100 * price - m + 50 == 100 * (price - q - 1) + (150 - rem);
    }
    if rem < 50 {
      DivByHundred(q, rem + 50);
    } else {
      DivByHundred(q + 1, rem - 50);
      assert m + 50 == 100 * (q + 1) + (rem - 50);
    }
  }

  /** A 10 rupee item at 5 percent: the dialog says 9, the order records 10. */
  lemma ModalQuoteCounterexample()
    ensures ModalQuote(10, 5).final == 9
    ensures DiscountedPrice(10, 5) == 10
  {
  }

  /** The quote computed from the charged price, so that the dialog, the order and the
      receipt agree: the final price is the discounted price and the saving is what the
      receipt prints as `originalPrice - price`. */
  function OrderQuote(price: int, discount: int): (q: Quote)
    ensures q.original == price && q.final + q.saving == price
    ensures 100 * q.final - 50 <= 100 * price - price * discount < 100 * q.final + 50
  {
    var final := DiscountedPrice(price, discount);
    Quote(price, price - final, final)
  }

  // ---------------------------------------------------------------- price filter buckets

  /** 100 times the UNROUNDED discounted price `price - price * discount / 100`, which is
      what the price filter compares; scaling keeps the comparison exact. */
  function ScaledPrice(price: int, discount: int): int {
    100 * price - price * discount
  }

  /** The price filter of the listing. The empty value is "any price"; a value outside
      the four buckets filters nothing either. */
  predicate InPriceRange(range: string, price: int, discount: int) {
    var x := ScaledPrice(price, discount);
    if range == "" then true
    else if range == "0-500" then x <= 50000
    else if range == "500-1000" then 50000 < x <= 100000
    else if range == "1000-2000" then 100000 < x <= 200000
    else if range == "2000+" then x > 200000
    else true
  }

  /** The four buckets the filter offers. */
  const PriceRanges: seq<string> := ["0-500", "500-1000", "1000-2000", "2000+"]

  /** The one bucket an unrounded price falls in, read off its thresholds. */
  function BucketOf(price: int, discount: int): (b: string)
    ensures b in PriceRanges
  {
    var x := ScaledPrice(price, discount);
    if x > 200000 then "2000+"
    else if x > 100000 then "1000-2000"
    else if x > 50000 then "500-1000"
    else "0-500"
  }

  /** The buckets partition the prices: a product is in a bucket if and only if it is
      the bucket `BucketOf` names, so every price is in exactly one. */
  lemma PriceRangesPartition(price: int, discount: int, range: string)
    requires range in PriceRanges
    ensures InPriceRange(range, price, discount) <==> range == BucketOf(price, discount)
  {
  }

  /** Bucketing uses the unrounded price: an 834 rupee item at 40 percent costs 500.4,
      is listed at 500, and is filed under 500-1000. */
  lemma BucketUsesUnroundedPrice()
    ensures DiscountedPrice(834, 40) == 500
    ensures BucketOf(834, 40) == "500-1000"
    ensures !InPriceRange("0-500", 834, 40)
  {
  }
}

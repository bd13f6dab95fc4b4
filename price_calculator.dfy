/**
 * PriceCalculator: the demand-sensitive price of a seat. The source receives
 * the occupancy as a double and multiplies BigDecimals exactly (no scale or
 * rounding step); here the occupancy is the exact ratio and prices are reals.
 */
module PriceCalculator {

  /** bookedSeats / capacity, the rate BookingServiceImpl hands to calculatePrice. */
  function Occupancy(bookedSeats: int, capacity: int): real
    requires capacity > 0
  {
    bookedSeats as real / capacity as real
  }

  /**
   * calculatePrice: unchanged up to half full, ×1.2 below 80 %, ×1.5 from
   * 80 % on. Every occupancy yields one of the three exact products.
   */
  function CalculatePrice(basePrice: real, occupancyRate: real): (price: real)
    ensures price == basePrice || price == basePrice * 1.2 || price == basePrice * 1.5
    ensures basePrice >= 0.0 ==> basePrice <= price <= basePrice * 1.5
  {
    if occupancyRate <= 0.5 then basePrice
    else if occupancyRate < 0.8 then basePrice * 1.2
    else basePrice * 1.5
  }

  /**
   * The tier boundaries in integer terms: occupancy <= 0.5 exactly when
   * 2·booked <= capacity, occupancy < 0.8 exactly when 5·booked < 4·capacity
   * (so 80 % itself is in the top tier).
   */
  lemma {:induction false} PriceTiers(basePrice: real, bookedSeats: int, capacity: int)
    requires capacity > 0
    ensures Occupancy(bookedSeats, capacity) <= 0.5 <==> 2 * bookedSeats <= capacity
    ensures Occupancy(bookedSeats, capacity) < 0.8 <==> 5 * bookedSeats < 4 * capacity
    ensures 2 * bookedSeats <= capacity ==>
      CalculatePrice(basePrice, Occupancy(bookedSeats, capacity)) == basePrice
    ensures capacity < 2 * bookedSeats && 5 * bookedSeats < 4 * capacity ==>
      CalculatePrice(basePrice, Occupancy(bookedSeats, capacity)) == basePrice * 1.2
    ensures 4 * capacity <= 5 * bookedSeats ==>
      CalculatePrice(basePrice, Occupancy(bookedSeats, capacity)) == basePrice * 1.5
  {
    var b, c := bookedSeats as real, capacity as real;
    RatioBelow(b, c, 0.5);
    RatioBelow(b, c, 0.8);
  }

  /** Dividing by a positive denominator keeps the order: b / c <= k exactly when b <= k·c. */
  lemma {:induction false} RatioBelow(b: real, c: real, k: real)
    requires c > 0.0
    ensures b / c <= k <==> b <= k * c
    ensures b / c < k <==> b < k * c
  {
    var o := b / c;
    assert o * c == b;
    if o <= k {
      assert o * c <= k * c;
    }
    if o < k {
      assert o * c < k * c;
    }
    if b <= k * c {
      assert o * c <= k * c;
    }
    if b < k * c {
      assert o * c < k * c;
    }
  }

  /** For a non-negative base price the price never falls as occupancy rises. */
  lemma PriceMonotone(basePrice: real, lower: real, higher: real)
    requires basePrice >= 0.0 && lower <= higher
    ensures CalculatePrice(basePrice, lower) <= CalculatePrice(basePrice, higher)
  {
  }
}

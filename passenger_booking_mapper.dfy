/**
 * PassengerBookingMapper.calculateLoyalty: the points a booking is worth. The
 * same amount is credited when a booking is confirmed or promoted and clawed
 * back when a confirmed booking is cancelled.
 */
module PassengerBookingMapper {
  import opened Common

  /** price × 0.10, truncated towards zero (BigDecimal.intValue). */
  function LoyaltyPoints(price: real): (points: int)
    ensures price >= 0.0 ==> 0 <= points && points as real <= price / 10.0 < points as real + 1.0
    ensures price < 0.0 ==> points <= 0 && points as real - 1.0 < price / 10.0 <= points as real
  {
    TruncateToInt(price * 0.1)
  }

  /** calculateLoyalty: a booking without a price is worth nothing. */
  function CalculateLoyalty(price: Option<real>): (points: int)
    ensures price.None? ==> points == 0
    ensures price.Some? && price.value >= 0.0 ==> points >= 0
  {
    if price.None? then 0 else LoyaltyPoints(price.value)
  }

  /** For non-negative prices the points are non-negative and never fall as the price rises. */
  lemma LoyaltyMonotone(cheaper: real, dearer: real)
    requires 0.0 <= cheaper <= dearer
    ensures 0 <= LoyaltyPoints(cheaper) <= LoyaltyPoints(dearer)
  {
  }

  /** The mapper's loyaltyEarned is the amount the booking service credits and claws back. */
  lemma {:induction false} LoyaltyEarnedIsCredit(price: real)
    ensures CalculateLoyalty(Some(price)) == LoyaltyPoints(price)
    ensures price >= 0.0 ==> CalculateLoyalty(Some(price)) as real <= price / 10.0
  {
  }
}

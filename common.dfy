/**
 * Vocabulary shared by every service: optional values, the exceptions the
 * services throw (as values), and the few java.lang.String and BigDecimal
 * operations the services rely on (trim, ASCII case mapping, intValue).
 */
module Common {

  datatype Option<T> = None | Some(value: T)

  /** Why a BadRequestException, FlightConflictException or RuntimeException was thrown. */
  datatype Reason =
    | Departed                  // booking a flight whose departure is before now
    | PassengerAlreadyBooked    // a booking (any status) for the same flight and passenger exists
    | SeatTaken                 // a booking (any status) for the same flight and seat exists
    | AlreadyCancelled
    | CapacityOutOfRange        // capacity outside 50..400
    | TimesMissing              // departure or arrival is null
    | ArrivalNotAfterDeparture
    | BookedExceedsCapacity
    | NoChanges                 // an update equal to the stored record
    | HasBookings               // delete refused while bookings exist
    | EmailExists
    | IataExists
    | IcaoExists
    | SameDayDuplicate          // same number, airline and origin on the same day
    | TimeOverlap               // same number and airline, overlapping interval
    | InvalidSession
    | SessionNotUsable          // the session expiry check failed
    | MalformedCardData         // String index errors in the card masking

  /** One constructor per exception class the services throw. */
  datatype Error =
    | NotFound
    | BadRequest(reason: Reason)
    | FlightConflict(reason: Reason)
    | Overbooking
    | AccessDenied
    | ConstraintViolation       // a unique column of the store refused the write; the transaction rolls back
    | Runtime(reason: Reason)

  datatype Result<T> = Ok(value: T) | Err(error: Error)

  /** The result of a service method declared `void`. */
  datatype Outcome = Done | Fail(error: Error)

  /** String.trim: the characters it strips are those at or below U+0020. */
  predicate IsTrimmed(c: char) { c <= ' ' }

  /** Drops the leading characters that String.trim strips. */
  function TrimStart(s: string): (r: string)
    ensures |r| <= |s| && r == s[|s| - |r|..]
    ensures r == [] || !IsTrimmed(r[0])
    ensures forall i :: 0 <= i < |s| - |r| ==> IsTrimmed(s[i])
  {
    if |s| > 0 && IsTrimmed(s[0]) then TrimStart(s[1..]) else s
  }

  /** Drops the trailing characters that String.trim strips. */
  function TrimEnd(s: string): (r: string)
    ensures |r| <= |s| && r == s[..|r|]
    ensures r == [] || !IsTrimmed(r[|r| - 1])
    ensures forall i :: |r| <= i < |s| ==> IsTrimmed(s[i])
  {
    if |s| > 0 && IsTrimmed(s[|s| - 1]) then TrimEnd(s[..|s| - 1]) else s
  }

  /**
   * String.trim: the longest infix of `s` that neither starts nor ends with a
   * character at or below U+0020; everything cut off is such a character.
   */
  function Trim(s: string): (r: string)
    ensures r == [] || (!IsTrimmed(r[0]) && !IsTrimmed(r[|r| - 1]))
    ensures |s| - |TrimStart(s)| + |r| <= |s|
    ensures r == s[|s| - |TrimStart(s)|..|s| - |TrimStart(s)| + |r|]
    ensures forall i :: 0 <= i < |s| - |TrimStart(s)| ==> IsTrimmed(s[i])
    ensures forall i :: |s| - |TrimStart(s)| + |r| <= i < |s| ==> IsTrimmed(s[i])
  {
    var t := TrimStart(s);
    var r := TrimEnd(t);
    TrimmedInfix(s, t, r);
    r
  }

  /** Cutting a suffix of stripped characters off a suffix of `s` leaves an infix of `s`. */
  lemma TrimmedInfix(s: string, t: string, r: string)
    requires |t| <= |s| && t == s[|s| - |t|..]
    requires |r| <= |t| && r == t[..|r|]
    requires forall i :: |r| <= i < |t| ==> IsTrimmed(t[i])
    ensures r == s[|s| - |t|..|s| - |t| + |r|]
    ensures r != [] ==> r[0] == t[0]
    ensures forall i :: |s| - |t| + |r| <= i < |s| ==> IsTrimmed(s[i])
  {
    var k := |s| - |t|;
    forall i | k + |r| <= i < |s| ensures IsTrimmed(s[i]) {
      assert s[i] == t[i - k];
    }
  }

  /** Character.toUpperCase restricted to ASCII letters. */
  function UpperChar(c: char): char {
    if 'a' <= c <= 'z' then (c as int - 32) as char else c
  }

  /** Character.toLowerCase restricted to ASCII letters. */
  function LowerChar(c: char): char {
    if 'A' <= c <= 'Z' then (c as int + 32) as char else c
  }

  /** String.toUpperCase (ASCII letters): same length, no lower-case letter left, other characters kept. */
  function ToUpper(s: string): (r: string)
    ensures |r| == |s|
    ensures forall i :: 0 <= i < |r| ==> !('a' <= r[i] <= 'z')
    ensures forall i :: 0 <= i < |s| && !('a' <= s[i] <= 'z') ==> r[i] == s[i]
  {
    seq(|s|, i requires 0 <= i < |s| => UpperChar(s[i]))
  }

  /** String.toLowerCase (ASCII letters): same length, no upper-case letter left, other characters kept. */
  function ToLower(s: string): (r: string)
    ensures |r| == |s|
    ensures forall i :: 0 <= i < |r| ==> !('A' <= r[i] <= 'Z')
    ensures forall i :: 0 <= i < |s| && !('A' <= s[i] <= 'Z') ==> r[i] == s[i]
  {
    seq(|s|, i requires 0 <= i < |s| => LowerChar(s[i]))
  }

  /** Trimming a trimmed string changes nothing. */
  lemma TrimIdempotent(s: string)
    ensures Trim(Trim(s)) == Trim(s)
  {
    var r := Trim(s);
    assert TrimStart(r) == r;
    assert TrimEnd(r) == r;
  }

  /** Upper-casing twice is upper-casing once. */
  lemma ToUpperIdempotent(s: string)
    ensures ToUpper(ToUpper(s)) == ToUpper(s)
  {
  }

  /** Upper-casing a trimmed string leaves nothing for trim to strip. */
  lemma UpperOfTrimmedIsTrimmed(s: string)
    ensures Trim(ToUpper(Trim(s))) == ToUpper(Trim(s))
  {
    var t := Trim(s);
    var u := ToUpper(t);
    if u != [] {
      assert u[0] == UpperChar(t[0]) && u[|u| - 1] == UpperChar(t[|t| - 1]);
      assert TrimStart(u) == u;
      assert TrimEnd(u) == u;
    } else {
      assert TrimStart(u) == u;
    }
  }

  /** Lower-casing twice is lower-casing once. */
  lemma ToLowerIdempotent(s: string)
    ensures ToLower(ToLower(s)) == ToLower(s)
  {
  }

  /** Lower-casing a trimmed string leaves nothing for trim to strip. */
  lemma LowerOfTrimmedIsTrimmed(s: string)
    ensures Trim(ToLower(Trim(s))) == ToLower(Trim(s))
  {
    var t := Trim(s);
    var u := ToLower(t);
    if u != [] {
      assert u[0] == LowerChar(t[0]) && u[|u| - 1] == LowerChar(t[|t| - 1]);
      assert TrimStart(u) == u;
      assert TrimEnd(u) == u;
    } else {
      assert TrimStart(u) == u;
    }
  }

  /** String.equalsIgnoreCase, for ASCII letters. */
  predicate EqualsIgnoreCase(a: string, b: string) {
    ToUpper(a) == ToUpper(b)
  }

  /**
   * Equality ignoring case is an equivalence that only relates strings of
   * the same length, and a string equals its upper-cased form ignoring case.
   */
  lemma EqualsIgnoreCaseIsEquivalence(a: string, b: string, c: string)
    ensures EqualsIgnoreCase(a, a) && EqualsIgnoreCase(a, ToUpper(a))
    ensures EqualsIgnoreCase(a, b) ==> EqualsIgnoreCase(b, a) && |a| == |b|
    ensures EqualsIgnoreCase(a, b) && EqualsIgnoreCase(b, c) ==> EqualsIgnoreCase(a, c)
  {
    ToUpperIdempotent(a);
  }

  /**
   * BigDecimal.intValue on a value that fits an int: the fractional part is
   * discarded, so the result is the integer next to `x` towards zero.
   */
  function TruncateToInt(x: real): (n: int)
    ensures x >= 0.0 ==> 0 <= n && n as real <= x < n as real + 1.0
    ensures x < 0.0 ==> n <= 0 && n as real - 1.0 < x <= n as real
  {
    if x >= 0.0 then x.Floor else -((-x).Floor)
  }

  /** Integer.MIN_VALUE and Integer.MAX_VALUE. */
  const MinInt: int := -0x8000_0000
  const MaxInt: int := 0x7fff_ffff

  /** A value a Java `int` (or a non-null `Integer`) can hold. */
  type Int32 = x: int | MinInt <= x <= MaxInt

  /**
   * Java `int` addition: the sum taken modulo 2^32 into [MinInt, MaxInt], so
   * a sum past either end wraps around to the other.
   */
  function AddInt(a: int, b: int): (r: int)
    ensures MinInt <= r <= MaxInt
    ensures MinInt <= a + b <= MaxInt ==> r == a + b
    ensures MaxInt < a + b < 0x1_0000_0000 ==> r == a + b - 0x1_0000_0000
    ensures -0x1_0000_0000 <= a + b < MinInt ==> r == a + b + 0x1_0000_0000
  {
    (a + b + 0x8000_0000) % 0x1_0000_0000 - 0x8000_0000
  }
}

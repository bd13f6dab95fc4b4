/**
 * mapBackendMessageToUserFriendly: the front end's ordered, first-match
 * classification of a backend error message into a fixed user-facing text.
 */
module ErrorMessageMapper {
  import opened Common

  const UnexpectedText := "An unexpected error occurred. Please try again."
  const IataText := "This IATA code is already in use. Please choose another one."
  const IcaoText := "This ICAO code is already in use. Please choose another one."
  const NoChangesText := "No changes were detected. Please modify a field before saving."
  const AirlineHasBookingsText := "This airline cannot be deleted because it has active bookings."
  const NotFoundText := "The requested record could not be found. It may have been deleted."
  const InvalidDataText := "Some of the entered data is invalid. Please check your inputs."
  const FlightHasBookingsText := "This flight cannot be deleted because it has existing bookings."
  const EmailRegisteredText := "This email address is already registered. Please use another email."
  const CredentialsText := "Invalid email or password. Please try again."
  const FallbackText := "Operation failed. Please check your input or try again."

  /** Every text the mapper can return. */
  const Texts: set<string> := {UnexpectedText, IataText, IcaoText, NoChangesText, AirlineHasBookingsText, NotFoundText,
                               InvalidDataText, FlightHasBookingsText, EmailRegisteredText, CredentialsText, FallbackText}

  /** `p` occurs in `s` starting at index `i`. */
  predicate OccursAt(s: string, p: string, i: int) {
    0 <= i && i + |p| <= |s| && s[i..i + |p|] == p
  }

  /** String.prototype.includes. */
  predicate Contains(s: string, p: string) {
    exists i :: 0 <= i <= |s| - |p| && OccursAt(s, p, i)
  }

  /** An occurrence fixes every character it covers. */
  lemma OccursAtChar(s: string, p: string, i: int, k: int)
    requires OccursAt(s, p, i) && 0 <= k < |p|
    ensures s[i + k] == p[k]
  {
    assert s[i..i + |p|][k] == s[i + k];
  }

  /**
   * `p` does not occur in `s` when every place where its first character
   * occurs disagrees with it at offset `k`.
   */
  lemma Absent(s: string, p: string, k: nat)
    requires 0 < k < |p|
    requires forall i :: 0 <= i <= |s| - |p| && s[i] == p[0] ==> s[i + k] != p[k]
    ensures !Contains(s, p)
  {
    forall i | 0 <= i <= |s| - |p| ensures !OccursAt(s, p, i) {
      if OccursAt(s, p, i) {
        OccursAtChar(s, p, i, 0);
        OccursAtChar(s, p, i, k);
      }
    }
  }

  /** A string containing `p + q` contains `p`. */
  lemma ContainsPrefix(s: string, p: string, q: string)
    requires Contains(s, p + q)
    ensures Contains(s, p)
  {
    var i :| 0 <= i <= |s| - |p + q| && OccursAt(s, p + q, i);
    assert s[i..i + |p|] == s[i..i + |p + q|][..|p|];
    assert (p + q)[..|p|] == p;
    assert OccursAt(s, p, i);
  }

  /** The if-chain on the lower-cased message, in source order. */
  function Classify(normalized: string): (r: string)
    ensures r in Texts && r != UnexpectedText
  {
    if Contains(normalized, "iata code") then IataText
    else if Contains(normalized, "icao code") then IcaoText
    else if Contains(normalized, "no changes detected") then NoChangesText
    else if Contains(normalized, "cannot be deleted") || Contains(normalized, "booked") then AirlineHasBookingsText
    else if Contains(normalized, "not found") then NotFoundText
    else if Contains(normalized, "validation") || Contains(normalized, "invalid") then InvalidDataText
    else if Contains(normalized, "cannot delete flight with existing bookings") then FlightHasBookingsText
    else if Contains(normalized, "email is already registered") then EmailRegisteredText
    else if Contains(normalized, "bad credentials") || Contains(normalized, "invalid credentials") then CredentialsText
    else FallbackText
  }

  /**
   * mapBackendMessageToUserFriendly: a missing or empty message gives the
   * "unexpected error" text; any other gives one of the fixed texts.
   */
  function MapBackendMessage(message: Option<string>): (r: string)
    ensures r in Texts
    ensures r == UnexpectedText <==> message.None? || message.value == []
  {
    if message.None? || message.value == [] then UnexpectedText
    else Classify(ToLower(message.value))
  }

  /** Matching ignores case: a message and its lower-cased form map to the same text. */
  lemma {:induction false} MatchingIgnoresCase(message: string)
    ensures MapBackendMessage(Some(message)) == MapBackendMessage(Some(ToLower(message)))
  {
    ToLowerIdempotent(message);
  }

  /** The first rule wins: a message about an IATA code maps to the IATA text even when it also says "not found". */
  lemma IataRuleComesFirst(message: string)
    requires Contains(ToLower(message), "iata code")
    ensures MapBackendMessage(Some(message)) == IataText
  {
  }

  /**
   * The airline rule catches every message mentioning "cannot be deleted" or
   * "booked" that no earlier rule caught, and only those.
   */
  lemma AirlineRuleCatches(message: string)
    requires message != []
    ensures var n := ToLower(message);
      MapBackendMessage(Some(message)) == AirlineHasBookingsText <==>
        !Contains(n, "iata code") && !Contains(n, "icao code") && !Contains(n, "no changes detected") &&
        (Contains(n, "cannot be deleted") || Contains(n, "booked"))
  {
  }

  /**
   * "invalid credentials" is captured by the earlier "invalid" rule, so the
   * credentials text is returned exactly for "bad credentials" messages that no
   * earlier rule caught.
   */
  lemma {:induction false} CredentialsOnlyThroughBadCredentials(message: string)
    requires message != []
    ensures var n := ToLower(message);
      Contains(n, "invalid credentials") ==> MapBackendMessage(Some(message)) != CredentialsText
    ensures var n := ToLower(message);
      MapBackendMessage(Some(message)) == CredentialsText <==>
        Contains(n, "bad credentials") &&
        !Contains(n, "iata code") && !Contains(n, "icao code") && !Contains(n, "no changes detected") &&
        !Contains(n, "cannot be deleted") && !Contains(n, "booked") && !Contains(n, "not found") &&
        !Contains(n, "validation") && !Contains(n, "invalid") &&
        !Contains(n, "cannot delete flight with existing bookings") && !Contains(n, "email is already registered")
  {
    var n := ToLower(message);
    if Contains(n, "invalid credentials") {
      assert "invalid" + " credentials" == "invalid credentials";
      ContainsPrefix(n, "invalid", " credentials");
    }
  }

  /** With no rule matching, the result is the fallback text, and only then. */
  lemma FallbackExactlyWhenNothingMatches(message: string)
    requires message != []
    ensures var n := ToLower(message);
      MapBackendMessage(Some(message)) == FallbackText <==>
        !Contains(n, "iata code") && !Contains(n, "icao code") && !Contains(n, "no changes detected") &&
        !Contains(n, "cannot be deleted") && !Contains(n, "booked") && !Contains(n, "not found") &&
        !Contains(n, "validation") && !Contains(n, "invalid") &&
        !Contains(n, "cannot delete flight with existing bookings") && !Contains(n, "email is already registered") &&
        !Contains(n, "bad credentials") && !Contains(n, "invalid credentials")
  {
  }

  /** The lower-cased form of the flight-deletion refusal. */
  const FlightDeletionMessage := "cannot delete flight with existing bookings."

  // The lower-cased flight-deletion refusal mentions nothing an earlier rule looks for.

  lemma FlightDeletionLacksCodes()
    ensures !Contains(FlightDeletionMessage, "iata code")
    ensures !Contains(FlightDeletionMessage, "icao code")
  {
    Absent(FlightDeletionMessage, "iata code", 1);
    Absent(FlightDeletionMessage, "icao code", 1);
  }

  lemma FlightDeletionLacksUpdateAndLookupPhrases()
    ensures !Contains(FlightDeletionMessage, "no changes detected")
    ensures !Contains(FlightDeletionMessage, "not found")
  {
    Absent(FlightDeletionMessage, "no changes detected", 2);
    Absent(FlightDeletionMessage, "not found", 4);
  }

  lemma FlightDeletionLacksAirlinePhrases()
    ensures !Contains(FlightDeletionMessage, "cannot be deleted")
    ensures !Contains(FlightDeletionMessage, "booked")
  {
    Absent(FlightDeletionMessage, "cannot be deleted", 7);
    Absent(FlightDeletionMessage, "booked", 4);
  }

  lemma FlightDeletionLacksValidationPhrases()
    ensures !Contains(FlightDeletionMessage, "validation")
    ensures !Contains(FlightDeletionMessage, "invalid")
  {
    Absent(FlightDeletionMessage, "validation", 1);
    Absent(FlightDeletionMessage, "invalid", 2);
  }

  /** The flight-deletion refusal, lower-cased. */
  lemma FlightDeletionLowerCased()
    ensures ToLower("Cannot delete flight with existing bookings.") == FlightDeletionMessage
  {
    var m := "Cannot delete flight with existing bookings.";
    assert m[0] == 'C' && LowerChar(m[0]) == 'c';
    assert ToLower(m)[0] == LowerChar(m[0]);
    forall i | 1 <= i < |m| ensures ToLower(m)[i] == FlightDeletionMessage[i] {
      assert !('A' <= m[i] <= 'Z');
    }
  }

  /** The flight-deletion refusal mentions the flight rule's phrase. */
  lemma FlightDeletionHasItsPhrase()
    ensures Contains(FlightDeletionMessage, "cannot delete flight with existing bookings")
  {
    assert OccursAt(FlightDeletionMessage, "cannot delete flight with existing bookings", 0);
  }

  /**
   * The flight service's refusal "Cannot delete flight with existing bookings."
   * matches no earlier rule and gets the flight text.
   */
  lemma {:induction false} FlightDeletionGetsItsOwnText()
    ensures MapBackendMessage(Some("Cannot delete flight with existing bookings.")) == FlightHasBookingsText
  {
    FlightDeletionLowerCased();
    FlightDeletionLacksCodes();
    FlightDeletionLacksUpdateAndLookupPhrases();
    FlightDeletionLacksAirlinePhrases();
    FlightDeletionLacksValidationPhrases();
    FlightDeletionHasItsPhrase();
  }
}

# Airline management: a verified model of the booking, flight, airline, passenger, account and payment services

The system is a Spring backend for airlines. Its tables hold airlines, flights, passengers, users, bookings and payments. A front end talks to it and translates the backend's error messages into user-facing texts. This project models the service layer's business rules in Dafny and proves what they promise:

- **Booking allocation** (`booking_service.dfy`). A booking is CONFIRMED while the flight has free seats. Beyond that it is WAITLISTED, up to an overbooking limit of 110 % of capacity. The price depends on occupancy, with a 10 % loyalty discount. A CONFIRMED booking credits loyalty points and takes a seat. Cancelling it releases the seat, claws back the points and promotes the earliest WAITLISTED booking. A scheduled sweep cancels WAITLISTED bookings of departed flights. Each operation is specified by a function on the three tables as values (`Tables`). The methods update the repositories step by step, as the source does, and are proved to reach exactly that value. Lemmas prove the properties below:
  - the ledger invariant is kept;
  - the seat counter moves in step with the CONFIRMED bookings;
  - statuses follow the state machine.
- **Flights** (`flight_service.dfy`): capacity and time validation, same-day duplicate detection, time-conflict detection, the no-change check, the unique (flight number, departure) constraint of the flights table, update and deletion.
- **Airlines** (`airline_service.dfy`): unique IATA/ICAO codes, update, and deletion of an airline together with its flights.
- **Passengers** (`passenger_service.dfy`): e-mail uniqueness, normalisation, and loyalty points clamped at zero.
- **Registration** (`auth_service.dfy`): a user and a passenger are created together.
- **Payments** (`payment_service.dfy`): masking of the card number and holder name, and the bank call.
- **Pricing** (`price_calculator.dfy`, `passenger_booking_mapper.dfy`): occupancy tiers and loyalty points.
- **Front-end error mapping** (`error_message_mapper.dfy`): the first-match classification of backend messages.
- **Shared modules.** `common.dfy` holds error kinds, Java's `trim`/`toUpperCase`/`toLowerCase` on ASCII, and `intValue` truncation. `store.dfy` holds the entities, the repositories (classes over maps and sequences) and the invariants.

How the model represents the source:
- Repositories are classes whose `map`/`seq` fields the service methods update.
- Entities are datatypes.
- Identifiers are `nat`. A booking's identifier is its index in the bookings sequence.
- Times are whole nanoseconds since an epoch (`int`).
- Money is `real`.
- The clock (`now`), the security context (`Caller`), the password encoder, the role table, the session check and the bank are parameters.
- Exceptions become `Err`/`Fail` values carrying the exception kind and reason. A method that fails leaves the repositories unchanged, as the surrounding transaction's rollback does.

## Model

| member | source | states |
|---|---|---|
| Common.Trim | src/main/java/com/cobanoglu/airlinemanagement/service/impl/AirlineServiceImpl.java:84-90 | `String.trim`: the result is the infix of the input left after removing leading and trailing characters up to U+0020, and it neither starts nor ends with such a character |
| Common.TrimIdempotent | src/main/java/com/cobanoglu/airlinemanagement/service/impl/AirlineServiceImpl.java:84-90 | trimming twice is trimming once |
| Common.ToUpper | src/main/java/com/cobanoglu/airlinemanagement/service/impl/AirlineServiceImpl.java:84-90 | `toUpperCase` keeps the length, leaves no lower-case letter and changes nothing else |
| Common.ToUpperIdempotent | src/main/java/com/cobanoglu/airlinemanagement/service/impl/AirlineServiceImpl.java:84-90 | upper-casing twice is upper-casing once |
| Common.UpperOfTrimmedIsTrimmed | src/main/java/com/cobanoglu/airlinemanagement/service/impl/FlightServiceImpl.java:163 | a trimmed, upper-cased string is already trimmed |
| Common.ToLower | src/main/java/com/cobanoglu/airlinemanagement/service/impl/AuthServiceImpl.java:79 | `toLowerCase` keeps the length, leaves no upper-case letter and changes nothing else |
| Common.ToLowerIdempotent | frontend/utils/errorMessageMapper.ts:4 | lower-casing twice is lower-casing once |
| Common.LowerOfTrimmedIsTrimmed | src/main/java/com/cobanoglu/airlinemanagement/service/impl/AuthServiceImpl.java:79 | a trimmed, lower-cased e-mail is already trimmed |
| Common.EqualsIgnoreCaseIsEquivalence | src/main/java/com/cobanoglu/airlinemanagement/service/impl/PassengerServiceImpl.java:95 | `equalsIgnoreCase` is reflexive, symmetric and transitive, relates only strings of equal length, and relates a string to its upper-cased form |
| Common.TruncateToInt | src/main/java/com/cobanoglu/airlinemanagement/mapper/PassengerBookingMapper.java:30 | `intValue` truncates toward zero: the result lies within one of the value, on the zero side |
| Common.AddInt | src/main/java/com/cobanoglu/airlinemanagement/service/impl/PassengerServiceImpl.java:77 | Java `int` addition: the result is within Integer.MIN_VALUE..Integer.MAX_VALUE, equals the sum when it fits, and is the sum ∓ 2^32 when it overflows by at most one range |
| Store.ConfirmedCount | src/main/java/com/cobanoglu/airlinemanagement/service/impl/BookingServiceImpl.java:252-273 | the number of CONFIRMED bookings on a flight is bounded by the number of bookings |
| Store.ConfirmedCountAppend | src/main/java/com/cobanoglu/airlinemanagement/service/impl/BookingServiceImpl.java:73 | saving a booking adds one to its flight's CONFIRMED count exactly when it is CONFIRMED |
| Store.ConfirmedCountUpdate | src/main/java/com/cobanoglu/airlinemanagement/service/impl/BookingServiceImpl.java:103-105 | rewriting one booking changes a flight's CONFIRMED count by what the old and new booking contribute |
| Store.ConfirmedCountUnreferenced | src/main/java/com/cobanoglu/airlinemanagement/service/impl/FlightServiceImpl.java:74-83 | a flight no booking refers to has no CONFIRMED bookings |
| Store.AirlineRepository.Save | src/main/java/com/cobanoglu/airlinemanagement/service/impl/AirlineServiceImpl.java:28-36 | `save` of a new airline stores it under a fresh id and changes nothing else |
| Store.FlightRepository.DeleteAll | src/main/java/com/cobanoglu/airlinemanagement/service/impl/AirlineServiceImpl.java:54-64 | `deleteAll` removes exactly the given flights |
| PriceCalculator.CalculatePrice | src/main/java/com/cobanoglu/airlinemanagement/util/PriceCalculator.java:10-18 | the price is the base price times 1, 1.2 or 1.5, and never leaves [base, 1.5 · base] |
| PriceCalculator.PriceTiers | src/main/java/com/cobanoglu/airlinemanagement/util/PriceCalculator.java:10-18 | the tiers by seat counts: up to half full pays base, under 80 % pays 1.2×, from 80 % pays 1.5× |
| PriceCalculator.PriceMonotone | src/main/java/com/cobanoglu/airlinemanagement/util/PriceCalculator.java:10-18 | a fuller flight never costs less |
| PassengerBookingMapper.LoyaltyPoints | src/main/java/com/cobanoglu/airlinemanagement/mapper/PassengerBookingMapper.java:28-31 | points are a tenth of the price, truncated toward zero |
| PassengerBookingMapper.CalculateLoyalty | src/main/java/com/cobanoglu/airlinemanagement/mapper/PassengerBookingMapper.java:28-31 | a booking without a price earns 0; a non-negative price earns non-negative points |
| PassengerBookingMapper.LoyaltyMonotone | src/main/java/com/cobanoglu/airlinemanagement/mapper/PassengerBookingMapper.java:28-31 | a dearer booking never earns fewer points |
| PassengerBookingMapper.LoyaltyEarnedIsCredit | src/main/java/com/cobanoglu/airlinemanagement/mapper/PassengerBookingMapper.java:28-31 | the points credited for a priced booking are its truncated tenth, never more than a tenth |
| PassengerService.NormalizePoints | src/main/java/com/cobanoglu/airlinemanagement/service/impl/PassengerServiceImpl.java:111-113 | negative points become 0, others are kept |
| PassengerService.Credited | src/main/java/com/cobanoglu/airlinemanagement/service/impl/PassengerServiceImpl.java:74-79 | a credit changes only that passenger's points, to a value within 0..Integer.MAX_VALUE |
| PassengerService.CreditedBalance | src/main/java/com/cobanoglu/airlinemanagement/service/impl/PassengerServiceImpl.java:74-79 | the new balance is old + delta taken as a Java `int` sum and then floored at 0: in range it is max(old + delta, 0); a sum past Integer.MAX_VALUE wraps negative and gives 0; a sum below Integer.MIN_VALUE wraps to sum + 2^32 |
| PassengerService.CreditedExamples | src/main/java/com/cobanoglu/airlinemanagement/service/impl/PassengerServiceImpl.java:74-79 | 100 + 50 is 150; 20 − 50 is 0; 2147483600 + 100 overflows and is 0 |
| PassengerService.EarnThenClawBack | src/main/java/com/cobanoglu/airlinemanagement/service/impl/BookingServiceImpl.java:252-264 | earning points and clawing the same points back restores the passengers exactly when the earned balance fits an `int`; when it overflows, the balance ends at 0 and nothing else changes |
| PassengerService.ClawBackThenEarnLosesDebt | src/main/java/com/cobanoglu/airlinemanagement/service/impl/PassengerServiceImpl.java:74-79 | clawing back more than the balance loses the debt: 20 − 50 + 50 is 50, not 20 |
| PassengerService.CreditedKeepsPassengers | src/main/java/com/cobanoglu/airlinemanagement/service/impl/PassengerServiceImpl.java:74-79 | a credit keeps passenger e-mails unique and every balance non-negative |
| PassengerService.UpdateLoyaltyPoints | src/main/java/com/cobanoglu/airlinemanagement/service/impl/PassengerServiceImpl.java:74-79 | NotFound for an unknown id; otherwise the passengers become Credited(old, id, delta), the `int`-sum credit |
| PassengerService.NormalizePassengerData | src/main/java/com/cobanoglu/airlinemanagement/service/impl/PassengerServiceImpl.java:98-105 | normalised points are the DTO's `int` points, or 0 when those are negative, so never negative and never above Integer.MAX_VALUE |
| PassengerService.FindByEmailUnique | src/main/java/com/cobanoglu/airlinemanagement/service/impl/PassengerServiceImpl.java:68-72 | true exactly when no passenger holds the e-mail |
| PassengerService.CreatePassenger | src/main/java/com/cobanoglu/airlinemanagement/service/impl/PassengerServiceImpl.java:24-33 | a taken e-mail is refused with nothing stored; otherwise the passenger is stored under a fresh id with points clamped at 0; e-mail uniqueness is kept |
| PassengerService.UpdatePassenger | src/main/java/com/cobanoglu/airlinemanagement/service/impl/PassengerServiceImpl.java:35-53 | in order: NotFound, e-mail taken by another passenger, no changes, then the normalised data replaces the stored passenger, its points in 0..Integer.MAX_VALUE; failures store nothing; e-mail uniqueness is kept |
| BookingService.EvolvesTransitive | src/main/java/com/cobanoglu/airlinemanagement/entity/Booking.java:41-43 | status changes compose, so a CANCELLED booking stays CANCELLED |
| BookingService.SlotsUniqueAcrossStatusChanges | src/main/java/com/cobanoglu/airlinemanagement/entity/Booking.java:17-23 | changing only statuses keeps one booking per passenger and per seat on each flight |
| BookingService.OverbookingLimit | src/main/java/com/cobanoglu/airlinemanagement/service/impl/BookingServiceImpl.java:56-59 | the limit is capacity × 1.1 rounded half-up |
| BookingService.OverbookingUnreachable | src/main/java/com/cobanoglu/airlinemanagement/service/impl/BookingServiceImpl.java:56-59 | for capacities 50..400 the limit is 5 to 40 seats above capacity |
| BookingService.NormalizeSeatIsCanonical | src/main/java/com/cobanoglu/airlinemanagement/service/impl/BookingServiceImpl.java:66 | the stored seat has nothing left to trim, normalising it again changes nothing, and it equals the trimmed request ignoring case |
| BookingService.DynamicPrice | src/main/java/com/cobanoglu/airlinemanagement/service/impl/BookingServiceImpl.java:245-250 | the final price lies in [0.9 · base, 1.5 · base] |
| BookingService.DynamicPriceTiers | src/main/java/com/cobanoglu/airlinemanagement/service/impl/BookingServiceImpl.java:245-250 | the price is base × occupancy tier × (0.9 above 1000 loyalty points, else 1) |
| BookingService.DynamicPriceExample | src/main/java/com/cobanoglu/airlinemanagement/service/impl/BookingServiceImpl.java:245-250 | 1000 at 60 % occupancy costs 1080 with 1200 points and 1200 with 1000 points |
| BookingService.BookingRuleViolation | src/main/java/com/cobanoglu/airlinemanagement/service/impl/BookingServiceImpl.java:232-243 | no violation exactly when the flight has not departed, the passenger holds no booking on it and the normalised seat is free; otherwise the first failing rule in the source's order: a departed flight, then a passenger already booked, then a taken seat |
| BookingService.ResolvesUniquely | src/main/java/com/cobanoglu/airlinemanagement/service/impl/BookingServiceImpl.java:223-230 | with unique e-mails the booking passenger is determined uniquely |
| BookingService.ResolvePassengerForBooking | src/main/java/com/cobanoglu/airlinemanagement/service/impl/BookingServiceImpl.java:223-230 | an admin's explicit passenger id, else the passenger holding the caller's e-mail; NotFound exactly when there is none |
| BookingService.Booked | src/main/java/com/cobanoglu/airlinemanagement/service/impl/BookingServiceImpl.java:61-75 | a booking adds exactly one booking row |
| BookingService.BookingOutcome | src/main/java/com/cobanoglu/airlinemanagement/service/impl/BookingServiceImpl.java:53-75 | the new booking's seat, price and status: CONFIRMED exactly when seats are free, and then the counter rises and the passenger's balance becomes old + points, or 0 when that sum overflows an `int`, with nothing else of the passenger changed; WAITLISTED touches neither |
| BookingService.BookedEffects | src/main/java/com/cobanoglu/airlinemanagement/service/impl/BookingServiceImpl.java:252-257 | handleConfirmedBooking's effects: one more seat on the flight and the points added as an `int` (0 on overflow), no other passenger touched; a WAITLISTED booking changes neither flights nor passengers |
| BookingService.AppendKeepsSlotsUnique | src/main/java/com/cobanoglu/airlinemanagement/service/impl/BookingServiceImpl.java:232-243 | a booking that passed the rules keeps passengers and seats unique per flight |
| BookingService.BookedKeepsLedger | src/main/java/com/cobanoglu/airlinemanagement/service/impl/BookingServiceImpl.java:45-85 | an admitted booking keeps the ledger invariant and each flight's counter offset |
| BookingService.BookedKeepsCounts | src/main/java/com/cobanoglu/airlinemanagement/service/impl/BookingServiceImpl.java:252-257 | after an admitted booking every flight's counter still covers its CONFIRMED bookings, every booking still refers to a stored flight and passenger, and each flight's counter offset is kept |
| BookingService.BookedKeepsEntities | src/main/java/com/cobanoglu/airlinemanagement/service/impl/BookingServiceImpl.java:252-257 | an admitted booking keeps both key sets, every flight valid, e-mails unique and balances non-negative, and raises exactly its flight's counter by one when it is CONFIRMED |
| BookingService.HandleConfirmedBooking | src/main/java/com/cobanoglu/airlinemanagement/service/impl/BookingServiceImpl.java:252-257 | bookedSeats + 1 on the flight and the booking's loyalty points credited |
| BookingService.Verdict | src/main/java/com/cobanoglu/airlinemanagement/service/impl/BookingServiceImpl.java:51-59 | a booking is admitted exactly when no rule is violated and bookedSeats is below the overbooking limit |
| BookingService.BookResolvedPassenger | src/main/java/com/cobanoglu/airlinemanagement/service/impl/BookingServiceImpl.java:51-84 | a refusal changes nothing; an admission makes the tables Booked(old) and answers with the booking's response |
| BookingService.CreateBooking | src/main/java/com/cobanoglu/airlinemanagement/service/impl/BookingServiceImpl.java:45-85 | NotFound for an unknown flight or passenger; otherwise the verdict decides between a refusal with no change and Booked(old); the ledger invariant and counter offsets are kept; statuses only evolve |
| BookingService.FirstWaitlisted | src/main/java/com/cobanoglu/airlinemanagement/service/impl/BookingServiceImpl.java:290-296 | the WAITLISTED booking on the flight with the earliest creation date, first in table order on ties; None exactly when there is none |
| BookingService.FirstWaitlistedIgnoresOthers | src/main/java/com/cobanoglu/airlinemanagement/service/impl/BookingServiceImpl.java:290-296 | rewriting a booking that is not waitlisted on the flight does not change the choice |
| BookingService.PromotionCreditsOnePassenger | src/main/java/com/cobanoglu/airlinemanagement/service/impl/BookingServiceImpl.java:298-307 | a promotion credits the promoted passenger the booking's points (the `int` sum clamped at 0) and leaves every other passenger as it was |
| BookingService.PromotionChangesAtMostOne | src/main/java/com/cobanoglu/airlinemanagement/service/impl/BookingServiceImpl.java:290-311 | promotion happens exactly when the flight has a WAITLISTED booking and the counter is below the overbooking limit; then only the first WAITLISTED booking changes, to CONFIRMED, the flight's counter rises by one, and that booking's passenger, and no one else, earns its points (as an `int` sum clamped at 0); other flights never change |
| BookingService.PromotionKeepsOffsets | src/main/java/com/cobanoglu/airlinemanagement/service/impl/BookingServiceImpl.java:298-307 | promotion raises the counter together with the flight's CONFIRMED count, so no counter falls below its count |
| BookingService.PromotionEvolves | src/main/java/com/cobanoglu/airlinemanagement/service/impl/BookingServiceImpl.java:298-307 | promotion changes only a status, from WAITLISTED to CONFIRMED, and keeps the slots unique |
| BookingService.PromotionKeepsLedger | src/main/java/com/cobanoglu/airlinemanagement/service/impl/BookingServiceImpl.java:290-311 | promotion keeps the ledger invariant, the counter offsets and the status machine |
| BookingService.PromotionKeepsEntities | src/main/java/com/cobanoglu/airlinemanagement/service/impl/BookingServiceImpl.java:298-307 | promotion keeps both key sets, every flight valid, e-mails unique and balances non-negative, and raises the counter to at most the overbooking limit |
| BookingService.PromoteWaitlistedToConfirmed | src/main/java/com/cobanoglu/airlinemanagement/service/impl/BookingServiceImpl.java:290-311 | the tables become Promotion(old) |
| BookingService.MarkedKeepsLedger | src/main/java/com/cobanoglu/airlinemanagement/service/impl/BookingServiceImpl.java:103-105 | marking a booking CANCELLED keeps the ledger and lowers only its flight's CONFIRMED count |
| BookingService.ConfirmedCancellationEffects | src/main/java/com/cobanoglu/airlinemanagement/service/impl/BookingServiceImpl.java:259-307 | handleConfirmedCancellation in terms of the starting tables: the cancelling passenger loses the booking's points, the counter falls by one unless 0, and then, when a WAITLISTED booking exists and the lowered counter is under the limit, it is CONFIRMED, the counter rises again and its passenger earns its points; no other flight, passenger or booking changes |
| BookingService.CancellationEffects | src/main/java/com/cobanoglu/airlinemanagement/service/impl/BookingServiceImpl.java:88-108 | cancelling a WAITLISTED booking changes only that booking's status; cancelling a CONFIRMED one claws back its points, releases the seat and promotes the WAITLISTED booking the flight had before, crediting its passenger; nothing else changes |
| BookingService.CancelledConfirmedEffects | src/main/java/com/cobanoglu/airlinemanagement/service/impl/BookingServiceImpl.java:88-108 | the CONFIRMED case of cancelBooking on its own: clawback, release, and promotion of the WAITLISTED booking the flight had before, with its credit; no other flight, passenger or booking changes |
| BookingService.ReleasedKeepsLedger | src/main/java/com/cobanoglu/airlinemanagement/service/impl/BookingServiceImpl.java:259-270 | releasing the seat of a cancelled CONFIRMED booking keeps the ledger and the counter offsets |
| BookingService.ReleasedKeepsEntities | src/main/java/com/cobanoglu/airlinemanagement/service/impl/BookingServiceImpl.java:259-270 | releasing a seat keeps both key sets, every flight valid, e-mails unique and balances non-negative, and moves only the booking's flight's counter, down by one when positive |
| BookingService.SameOffsetsTransitive | src/main/java/com/cobanoglu/airlinemanagement/service/impl/BookingServiceImpl.java:259-273 | counter offsets kept step by step are kept overall |
| BookingService.CancellationKeepsLedger | src/main/java/com/cobanoglu/airlinemanagement/service/impl/BookingServiceImpl.java:88-108 | cancelling keeps the ledger invariant and the counter offsets, and leaves the booking CANCELLED |
| BookingService.CancellationHandsSeatOn | src/main/java/com/cobanoglu/airlinemanagement/service/impl/BookingServiceImpl.java:259-311 | cancelling a CONFIRMED booking on a flight with a waitlist leaves bookedSeats as it was and confirms the first waitlisted booking |
| BookingService.HandleConfirmedCancellation | src/main/java/com/cobanoglu/airlinemanagement/service/impl/BookingServiceImpl.java:259-273 | the tables become ConfirmedCancellation(old); ConfirmedCancellationEffects states that value: the points clawed back, the counter lowered unless 0, then the promotion with its credit |
| BookingService.CancelBooking | src/main/java/com/cobanoglu/airlinemanagement/service/impl/BookingServiceImpl.java:88-108 | in order: NotFound, AccessDenied for a USER cancelling another passenger's booking, already cancelled, then Cancellation(old); failures change nothing; the ledger invariant is kept |
| BookingService.Swept | src/main/java/com/cobanoglu/airlinemanagement/service/impl/BookingServiceImpl.java:132-143 | exactly the WAITLISTED bookings of departed flights become CANCELLED |
| BookingService.SweepKeepsCounts | src/main/java/com/cobanoglu/airlinemanagement/service/impl/BookingServiceImpl.java:132-143 | the sweep changes no flight's CONFIRMED count |
| BookingService.SweepIdempotent | src/main/java/com/cobanoglu/airlinemanagement/service/impl/BookingServiceImpl.java:132-143 | sweeping twice is sweeping once |
| BookingService.SweepKeepsLedger | src/main/java/com/cobanoglu/airlinemanagement/service/impl/BookingServiceImpl.java:132-143 | the sweep keeps the ledger and offsets and leaves no stale waitlisted booking |
| BookingService.ScheduledCancelOldWaitlisted | src/main/java/com/cobanoglu/airlinemanagement/service/impl/BookingServiceImpl.java:132-143 | the bookings become Swept(old), by a loop over the table |
| FlightService.WithNano0 | src/main/java/com/cobanoglu/airlinemanagement/service/impl/FlightServiceImpl.java:166-167 | `withNano(0)`: the whole second at or just before the time |
| FlightService.StartOfDay | src/main/java/com/cobanoglu/airlinemanagement/service/impl/FlightServiceImpl.java:124-125 | `atStartOfDay`: the midnight at or just before the time |
| FlightService.DuplicateWindowMissesLastSecond | src/main/java/com/cobanoglu/airlinemanagement/service/impl/FlightServiceImpl.java:123-137 | the window as written lies within the day but misses a departure at 23:59:59.5 |
| FlightService.SameDayWindow | src/main/java/com/cobanoglu/airlinemanagement/service/impl/FlightServiceImpl.java:123-137 | the corrected window [midnight, next midnight) is exactly the calendar day |
| FlightService.ValidateCapacityRange | src/main/java/com/cobanoglu/airlinemanagement/service/impl/FlightServiceImpl.java:108-112 | accepted exactly for capacities 50..400 |
| FlightService.ValidateDates | src/main/java/com/cobanoglu/airlinemanagement/service/impl/FlightServiceImpl.java:114-121 | accepted exactly when both times are present and arrival is after departure; a missing time is reported first |
| FlightService.UpdateDatesAsWrittenAdmitsEqualTimes | src/main/java/com/cobanoglu/airlinemanagement/service/impl/FlightServiceImpl.java:59 | times 0.1 s and 0.5 s pass validation yet are stored as the same second |
| FlightService.ValidateStoredDates | src/main/java/com/cobanoglu/airlinemanagement/service/impl/FlightServiceImpl.java:166-167 | the corrected check: accepted exactly when the stored (whole-second) arrival is after the stored departure; it implies the check as written |
| FlightService.DuplicateAsWrittenIsDuplicate | src/main/java/com/cobanoglu/airlinemanagement/service/impl/FlightServiceImpl.java:123-137 | every duplicate the window as written finds, the corrected check also finds |
| FlightService.OverlapsSymmetricNotBackToBack | src/main/java/com/cobanoglu/airlinemanagement/service/impl/FlightServiceImpl.java:139-149 | overlap is symmetric, back-to-back flights do not overlap, and a departure inside another flight does |
| FlightService.FreeScheduleKeepsUnique | src/main/java/com/cobanoglu/airlinemanagement/entity/Flight.java:10-15 | writing a flight whose number and departure no other row holds keeps the unique (flight number, departure) constraint |
| FlightService.WithNano0Monotone | src/main/java/com/cobanoglu/airlinemanagement/service/impl/FlightServiceImpl.java:166-167 | cutting two ordered times to the second keeps their order, though it may make them equal |
| FlightService.NewFlight | src/main/java/com/cobanoglu/airlinemanagement/service/impl/FlightServiceImpl.java:47-49 | the stored flight has the DTO's number and times and a booked-seat count of at least 0, equal to the DTO's when that is not negative |
| FlightService.CreateRejection | src/main/java/com/cobanoglu/airlinemanagement/service/impl/FlightServiceImpl.java:35-53 | accepted exactly when capacity, times, booked ≤ capacity, airline existence, no same-day duplicate (window as written), no time conflict and a free (number, departure) pair all hold; each failure yields its own error in the source's order: capacity, missing time, order of times, booked seats, airline, duplicate, conflict, then the unique constraint at save |
| Store.StoringFlightKeepsLedger | src/main/java/com/cobanoglu/airlinemanagement/service/impl/FlightServiceImpl.java:47-51 | storing a valid flight whose counter covers its CONFIRMED bookings keeps the ledger invariant |
| FlightService.CreateKeepsInvariants | src/main/java/com/cobanoglu/airlinemanagement/service/impl/FlightServiceImpl.java:35-53 | an accepted new flight keeps the ledger and catalogue invariants, the unique (number, departure) pair included, and its arrival is strictly after its departure |
| FlightService.CreateFlight | src/main/java/com/cobanoglu/airlinemanagement/service/impl/FlightServiceImpl.java:35-53 | a rejection stores nothing; otherwise the new flight, with bookedSeats at least 0, is stored under a fresh id |
| FlightService.UpdatedFlight | src/main/java/com/cobanoglu/airlinemanagement/service/impl/FlightServiceImpl.java:162-175 | an update keeps bookedSeats and stores whole-second times, each within a second of the time sent |
| FlightService.NoChangeIsIdentity | src/main/java/com/cobanoglu/airlinemanagement/service/impl/FlightServiceImpl.java:151-160 | for a stored flight, "no change" holds exactly when the update would store the same flight |
| FlightService.UpdateRejection | src/main/java/com/cobanoglu/airlinemanagement/service/impl/FlightServiceImpl.java:55-72 | accepted exactly when the flight exists, capacity and the times as sent are valid, there is no same-day duplicate (window as written) or time conflict under the current airline among the other flights, the update changes something, a new airline exists, and no other flight holds the stored (number, departure) pair; each failure yields its own error in the source's order |
| FlightService.UpdateKeepsInvariants | src/main/java/com/cobanoglu/airlinemanagement/service/impl/FlightServiceImpl.java:55-72 | an accepted update keeps the ledger and catalogue invariants and the seat counter; the stored arrival is not before the stored departure, though it may equal it |
| FlightService.UpdateCanStoreEqualTimes | src/main/java/com/cobanoglu/airlinemanagement/service/impl/FlightServiceImpl.java:55-72 | an update with departure 0.1 s and arrival 0.5 s into the same second is accepted and stores equal times |
| FlightService.StoredDatesKeepStrictTimes | src/main/java/com/cobanoglu/airlinemanagement/service/impl/FlightServiceImpl.java:166-167 | under the corrected time check an update stores an arrival strictly after its departure |
| FlightService.UpdateFlight | src/main/java/com/cobanoglu/airlinemanagement/service/impl/FlightServiceImpl.java:55-72 | a rejection stores nothing; otherwise UpdatedFlight replaces the stored flight |
| FlightService.DeleteKeepsInvariants | src/main/java/com/cobanoglu/airlinemanagement/service/impl/FlightServiceImpl.java:74-83 | deleting a flight without bookings keeps both invariants |
| FlightService.DeleteFlight | src/main/java/com/cobanoglu/airlinemanagement/service/impl/FlightServiceImpl.java:74-83 | NotFound, then refused while any booking refers to the flight, otherwise exactly that flight is removed |
| AirlineService.NormalizeCodes | src/main/java/com/cobanoglu/airlinemanagement/service/impl/AirlineServiceImpl.java:84-90 | codes trimmed and upper-cased, other fields trimmed |
| AirlineService.NormalizeCodesIdempotent | src/main/java/com/cobanoglu/airlinemanagement/service/impl/AirlineServiceImpl.java:84-90 | re-submitting a stored airline normalises to itself |
| AirlineService.CodesRejection | src/main/java/com/cobanoglu/airlinemanagement/service/impl/AirlineServiceImpl.java:92-108 | accepted exactly when no other airline holds either code; a taken IATA code is reported first, and a free IATA code with a taken ICAO code gives the ICAO error |
| AirlineService.FreeCodesKeepUnique | src/main/java/com/cobanoglu/airlinemanagement/service/impl/AirlineServiceImpl.java:92-108 | storing an airline whose codes no other airline holds keeps the IATA and ICAO codes unique |
| AirlineService.StoringFreeCodesKeepsCatalogue | src/main/java/com/cobanoglu/airlinemanagement/service/impl/AirlineServiceImpl.java:92-108 | storing an airline with free codes keeps codes unique |
| AirlineService.CreateAirline | src/main/java/com/cobanoglu/airlinemanagement/service/impl/AirlineServiceImpl.java:28-36 | taken codes store nothing; otherwise the normalised airline gets a fresh id; codes stay unique |
| AirlineService.NoChangeIsIdentity | src/main/java/com/cobanoglu/airlinemanagement/service/impl/AirlineServiceImpl.java:110-116 | for upper-case stored codes, "no change" holds exactly when the update would store the same airline |
| AirlineService.UpdateAirline | src/main/java/com/cobanoglu/airlinemanagement/service/impl/AirlineServiceImpl.java:38-52 | NotFound, codes taken by another airline, no changes, otherwise the normalised airline replaces the stored one; codes stay unique |
| AirlineService.FlightsOf | src/main/java/com/cobanoglu/airlinemanagement/service/impl/AirlineServiceImpl.java:62 | exactly the ids of the airline's flights |
| AirlineService.DeleteKeepsInvariants | src/main/java/com/cobanoglu/airlinemanagement/service/impl/AirlineServiceImpl.java:54-64 | removing an airline without bookings, together with its flights, keeps both invariants |
| AirlineService.DeleteAirline | src/main/java/com/cobanoglu/airlinemanagement/service/impl/AirlineServiceImpl.java:54-64 | NotFound, then refused while a booking is on any of its flights, otherwise its flights and then the airline are removed |
| AuthService.BuildUserFromRequest | src/main/java/com/cobanoglu/airlinemanagement/service/impl/AuthServiceImpl.java:75-84 | trimmed names, a trimmed lower-case e-mail that is its own normal form, the encoded password, role USER, active |
| AuthService.BuildPassengerFromUser | src/main/java/com/cobanoglu/airlinemanagement/service/impl/AuthServiceImpl.java:86-93 | the user's names and e-mail, 0 points |
| AuthService.NormalizedEmailIsStable | src/main/java/com/cobanoglu/airlinemanagement/service/impl/AuthServiceImpl.java:79 | registering again with the stored e-mail normalises to the same e-mail |
| AuthService.Register | src/main/java/com/cobanoglu/airlinemanagement/service/impl/AuthServiceImpl.java:34-48 | in order: e-mail exists, USER role missing, passenger e-mail taken (rolled back); otherwise one user and one passenger are added and the fixed message returned; passenger e-mails stay unique |
| PaymentService.PaymentRepository.Save | src/main/java/com/cobanoglu/airlinemanagement/service/impl/PaymentServiceImpl.java:42 | the payment replaces the one stored under its session |
| PaymentService.MaskPan | src/main/java/com/cobanoglu/airlinemanagement/service/impl/PaymentServiceImpl.java:61-63 | defined exactly for 4 or more characters; the first and last four kept, the middle a fixed mask, length 19 |
| PaymentService.MaskPanHidesTheMiddle | src/main/java/com/cobanoglu/airlinemanagement/service/impl/PaymentServiceImpl.java:61-63 | card numbers that agree on their first and last four characters mask alike |
| PaymentService.MaskPanExample | src/main/java/com/cobanoglu/airlinemanagement/service/impl/PaymentServiceImpl.java:61-63 | 4111111111111111 masks to "4111 **** **** 1111" |
| PaymentService.IndexOfSpace | src/main/java/com/cobanoglu/airlinemanagement/service/impl/PaymentServiceImpl.java:57 | the first space, or −1 when there is none |
| PaymentService.Words | src/main/java/com/cobanoglu/airlinemanagement/service/impl/PaymentServiceImpl.java:57 | `split(" ")` yields at least one piece |
| PaymentService.WordsJoinBack | src/main/java/com/cobanoglu/airlinemanagement/service/impl/PaymentServiceImpl.java:57 | joining the pieces with single spaces gives back the name |
| PaymentService.WordsHaveNoSpace | src/main/java/com/cobanoglu/airlinemanagement/service/impl/PaymentServiceImpl.java:57 | no piece contains a space |
| PaymentService.WordsOfPrefixed | src/main/java/com/cobanoglu/airlinemanagement/service/impl/PaymentServiceImpl.java:57 | a space-free word followed by a space splits off as the first piece |
| PaymentService.MaskName | src/main/java/com/cobanoglu/airlinemanagement/service/impl/PaymentServiceImpl.java:56-59 | defined exactly when there are two pieces of at least two characters; the first two characters of each kept, the rest a fixed mask |
| PaymentService.MaskNameIgnoresLaterWords | src/main/java/com/cobanoglu/airlinemanagement/service/impl/PaymentServiceImpl.java:56-59 | words after the second do not change the mask |
| PaymentService.MaskNameByWords | src/main/java/com/cobanoglu/airlinemanagement/service/impl/PaymentServiceImpl.java:56-59 | names whose first two pieces agree mask alike |
| PaymentService.MaskNameExample | src/main/java/com/cobanoglu/airlinemanagement/service/impl/PaymentServiceImpl.java:56-59 | "John Smith" masks to "Jo*** Sm**" |
| PaymentService.WithCard | src/main/java/com/cobanoglu/airlinemanagement/service/impl/PaymentServiceImpl.java:29-35 | the stored card number and holder name are the masked ones; the other card fields are copied; session and order fields are kept; the stored card number is never the raw one unless it is already 19 characters |
| PaymentService.BankRequestFor | src/main/java/com/cobanoglu/airlinemanagement/service/impl/PaymentServiceImpl.java:65-81 | the bank receives the raw card data and the payment's order fields |
| PaymentService.Charged | src/main/java/com/cobanoglu/airlinemanagement/service/impl/PaymentServiceImpl.java:29-40 | the stored payment holds the masked card and the status the bank returns for the unmasked request |
| PaymentService.ProcessPayment | src/main/java/com/cobanoglu/airlinemanagement/service/impl/PaymentServiceImpl.java:22-43 | in order: invalid session, unusable session, malformed card data (all change nothing), otherwise the charged payment is stored under its session |
| ErrorMessageMapper.Classify | frontend/utils/errorMessageMapper.ts:6-48 | every non-empty message maps to one of the fixed texts other than the "unexpected" one |
| ErrorMessageMapper.MapBackendMessage | frontend/utils/errorMessageMapper.ts:1-49 | the result is one of the fixed texts, and the "unexpected" text exactly for a missing or empty message |
| ErrorMessageMapper.MatchingIgnoresCase | frontend/utils/errorMessageMapper.ts:4 | a message and its lower-cased form map alike |
| ErrorMessageMapper.IataRuleComesFirst | frontend/utils/errorMessageMapper.ts:6-8 | a message mentioning "iata code" gets the IATA text whatever else it says |
| ErrorMessageMapper.AirlineRuleCatches | frontend/utils/errorMessageMapper.ts:18-23 | the airline text exactly for "cannot be deleted" or "booked" messages no earlier rule caught |
| ErrorMessageMapper.CredentialsOnlyThroughBadCredentials | frontend/utils/errorMessageMapper.ts:41-46 | "invalid credentials" never reaches the credentials text; that text is returned exactly for "bad credentials" messages no earlier rule caught |
| ErrorMessageMapper.FallbackExactlyWhenNothingMatches | frontend/utils/errorMessageMapper.ts:48 | the fallback text exactly when no rule matches |
| ErrorMessageMapper.FlightDeletionGetsItsOwnText | src/main/java/com/cobanoglu/airlinemanagement/service/impl/FlightServiceImpl.java:79 | the flight service's deletion refusal reaches the flight text: it matches no earlier rule |

## Left out

- Concurrency and transactions: each operation runs alone. A failing operation leaves the tables as they were, which is what the rollback gives.
- The security context is the `Caller` parameter. The user lookup at BookingServiceImpl.java:48 fails with NotFound for an unknown login. The model assumes the login exists; users are not tied to bookings.
- The clock is the parameter `now`; `LocalDateTime.now()` is not modelled.
- BigDecimal and double arithmetic are exact `real` arithmetic. Rounding to two decimals and `double` occupancy are not modelled.
- PassengerService.EarnThenClawBack: the clawback at cancellation (BookingServiceImpl.java:263) uses the price as reloaded from its two-decimal column (Booking.java:44-45), while the points were earned on the unrounded price. A base price of 122.22 in the lowest tier, for a passenger holding more than 1000 points, gives 109.998, which earns 10 points; the stored 110.00 claws back 11. The model claws back with the exact price, so the earned and the clawed-back points always match.
- BookingService.CancellationEffects: the same rounding: the points clawed back are computed from the exact price, not from the price rounded to two decimals by the column.
- Store.Ledger: the invariant states that every stored balance is at least 0 but not that it is at most Integer.MAX_VALUE; each write does keep that bound (NormalizePassengerData, Credited), but no lemma carries it across operations.
- PassengerBookingMapper.LoyaltyPoints: `intValue` of a BigDecimal beyond the `int` range keeps only its low 32 bits; the price column (precision 10, scale 2) keeps the points below 10^7, so this is not modelled.
- BookingService.DynamicPrice: the 10 % discount and tier factors are exact, without BigDecimal scale.
- FlightService.IsNoChange: the base price is compared as a number; `Objects.equals` on BigDecimal also compares the scale (1.0 ≠ 1.00).
- The e-mail notifications and refund log lines of the booking service: side effects with no state.
- Login, JWT issuing and the password encoder: the encoder is an opaque function parameter; login is not modelled.
- PaymentService.MaskName: strings are sequences of Unicode characters, while `substring(0, 2)` in the source counts UTF-16 code units (PaymentServiceImpl.java:56-59). For a character outside the Basic Multilingual Plane the two differ: the holder name "𝒜 Sm" masks to "𝒜*** Sm**" in the source, where the model finds the first word one character long and gives no mask; "𝒜x Smith" masks to "𝒜*** Sm**" in the source and to "𝒜x*** Sm**" in the model.
- PaymentService.MaskPan: the same gap: `substring(0, 4)`, `length()` and `substring(length() - 4)` count UTF-16 code units in the source (PaymentServiceImpl.java:61-63), and the model counts Unicode characters.
- PaymentService.ProcessPayment: because of the MaskName and MaskPan gap, a holder name such as "𝒜 Sm" is refused with MalformedCardData in the model, while the source masks it and charges the card.
- PaymentService.ProcessPayment: `validateSession` (parsing and comparing the expiry with the clock) is a predicate parameter, and the bank is a function parameter.
- The payment's order items and the BankDTO session field are not carried; payments are keyed by session.
- ErrorMessageMapper.MapBackendMessage: `toLowerCase` is ASCII only; JavaScript's Unicode case mapping is not modelled.
- Users' own unique e-mail column is not modelled beyond the e-mail check register makes.
- FlightService.CreateFlight: the mapper copies the DTO's id into the entity (FlightMapper.java:18), so a client-sent id of a stored flight makes `save` overwrite that row, seat counter included; the model always stores under a fresh id.
- PassengerService.CreatePassenger: the same id copy (PassengerMapper.java:16) lets a client-sent id overwrite a stored passenger; the model always stores under a fresh id.
- Common.ToUpper: ASCII letters only; Java's `toUpperCase` uses the default locale and full Unicode (ß becomes "SS", a Turkish locale maps i to İ).
- Common.ToLower: ASCII letters only; Java's `toLowerCase` uses the default locale and full Unicode.
- Common.EqualsIgnoreCase: ASCII letters only; Java's `equalsIgnoreCase` compares every Unicode letter case-insensitively.
- BookingService.FirstWaitlisted: among WAITLISTED bookings with equal creation times the earliest in the bookings sequence wins; the source sorts the rows `findByFlight_Id` returns with a stable sort, and the database does not fix their order.
- Store.FlightValid: an arrival equal to the departure is allowed, because an update as written can store one (see Findings); creation still stores an arrival strictly after the departure (FlightService.CreateKeepsInvariants).
- Store.ScheduleUnique: flight numbers are compared exactly; a database collation that ignores case is not modelled.
- FlightService.UpdateRejection: the duplicate and conflict checks use the stored flight's airline, as the source does, even when the update moves the flight to another airline.
- The AirlineDTO → entity mapping of the id, and column lengths (seat number 5 characters): not modelled.
- Bean-validation annotations on the DTOs are not modelled as checks. Only a positive base price is assumed where an invariant needs it (CreateKeepsInvariants, UpdateKeepsInvariants).
- Listing and read-only lookups (paging, get by id) are not modelled; they change nothing.

## Findings

The flight operations follow the code as written. For each row, the corrected member states what the intended check would guarantee.

| source | as written | input that shows it | evidently intended | confidence | as-written member | corrected member |
|---|---|---|---|---|---|---|
| src/main/java/com/cobanoglu/airlinemanagement/service/impl/FlightServiceImpl.java:123-137 | the same-day window ends one second before the next midnight, inclusive | an existing departure at 23:59:59.5 on the same day is not found as a duplicate | the whole calendar day, up to the next midnight exclusive | low to medium, not executed; depends on the database keeping fractional seconds | FlightService.DuplicateWindowMissesLastSecond | FlightService.SameDayWindow |
| src/main/java/com/cobanoglu/airlinemanagement/service/impl/FlightServiceImpl.java:59 | updateFlight validates the times before truncating them to whole seconds (lines 166-167) | departure 10:00:00.1, arrival 10:00:00.5: accepted, then stored with arrival equal to departure | arrival strictly after departure as stored | medium, not executed | FlightService.UpdateCanStoreEqualTimes | FlightService.StoredDatesKeepStrictTimes |

/**
 * PassengerServiceImpl: passenger registration and update over the passengers
 * table, and the clamped loyalty ledger the booking engine credits and debits.
 */
module PassengerService {
  import opened Common
  import opened Store

  /** The PassengerDTO fields the service reads (bean validation makes the strings non-null; the points are an `Integer`). */
  datatype PassengerDto = PassengerDto(name: string, surname: string, email: string, loyaltyPoints: Int32)

  /** normalizePoints, Math.max(points, 0). */
  function NormalizePoints(points: int): (r: int)
    ensures r >= 0 && r >= points
    ensures r == points || r == 0
  {
    if points >= 0 then points else 0
  }

  /** The passengers table after updateLoyaltyPoints(id, delta) succeeded. */
  function Credited(passengers: map<nat, Passenger>, id: nat, delta: int): (r: map<nat, Passenger>)
    requires id in passengers
    ensures r.Keys == passengers.Keys
    ensures r[id] == passengers[id].(loyaltyPoints := r[id].loyaltyPoints)
    ensures 0 <= r[id].loyaltyPoints <= MaxInt
    ensures forall other :: other in passengers && other != id ==> r[other] == passengers[other]
  {
    var p := passengers[id];
    passengers[id := p.(loyaltyPoints := NormalizePoints(AddInt(p.loyaltyPoints, delta)))]
  }

  /** A credit keeps e-mails unique and every balance non-negative. */
  lemma {:induction false} CreditedKeepsPassengers(passengers: map<nat, Passenger>, id: nat, delta: int)
    requires id in passengers && EmailsUnique(passengers)
    requires forall p :: p in passengers ==> passengers[p].loyaltyPoints >= 0
    ensures var r := Credited(passengers, id, delta);
            EmailsUnique(r) && forall p :: p in r ==> r[p].loyaltyPoints >= 0
  {
    var r := Credited(passengers, id, delta);
    forall a, b | a in r && b in r && a != b ensures r[a].email != r[b].email {
      assert r[a].email == passengers[a].email && r[b].email == passengers[b].email;
    }
  }

  /**
   * The ledger arithmetic: the new balance is old + delta, floored at zero,
   * where the sum is an `int` sum. Both operands being `int`s, the sum lies in
   * [-2^32, 2^32 - 2], and the four cases below cover it: a sum past MaxInt
   * wraps to a negative number and so becomes 0, a sum below MinInt wraps to
   * a non-negative one and is kept.
   */
  lemma CreditedBalance(passengers: map<nat, Passenger>, id: nat, delta: int)
    requires id in passengers
    ensures var old_ := passengers[id].loyaltyPoints;
            var new_ := Credited(passengers, id, delta)[id].loyaltyPoints;
            && (0 <= old_ + delta <= MaxInt ==> new_ == old_ + delta)
            && (MinInt <= old_ + delta < 0 ==> new_ == 0)
            && (MaxInt < old_ + delta < 0x1_0000_0000 ==> new_ == 0)
            && (-0x1_0000_0000 <= old_ + delta < MinInt ==> new_ == old_ + delta + 0x1_0000_0000)
  {
  }

  /** 100 + 50 gives 150; 20 - 50 gives 0; 2147483600 + 100 overflows and gives 0. */
  lemma CreditedExamples(passengers: map<nat, Passenger>, id: nat)
    requires id in passengers
    ensures passengers[id].loyaltyPoints == 100 ==> Credited(passengers, id, 50)[id].loyaltyPoints == 150
    ensures passengers[id].loyaltyPoints == 20 ==> Credited(passengers, id, -50)[id].loyaltyPoints == 0
    ensures passengers[id].loyaltyPoints == 2147483600 ==> Credited(passengers, id, 100)[id].loyaltyPoints == 0
  {
  }

  /**
   * Points earned and then clawed back leave the balance as it was, as long
   * as the earning does not overflow an `int`; the clamp only matters when a
   * debit exceeds the balance. When it does overflow, the earning already
   * wraps the balance to 0 and the clawback leaves it there.
   */
  lemma {:induction false} EarnThenClawBack(passengers: map<nat, Passenger>, id: nat, gain: int)
    requires id in passengers && passengers[id].loyaltyPoints >= 0 && gain >= 0
    ensures passengers[id].loyaltyPoints + gain <= MaxInt ==>
              Credited(Credited(passengers, id, gain), id, -gain) == passengers
    ensures (MaxInt < passengers[id].loyaltyPoints + gain && passengers[id].loyaltyPoints <= MaxInt && gain <= MaxInt) ==>
              Credited(Credited(passengers, id, gain), id, -gain) == passengers[id := passengers[id].(loyaltyPoints := 0)]
  {
    var once := Credited(passengers, id, gain);
    var twice := Credited(once, id, -gain);
    if passengers[id].loyaltyPoints + gain <= MaxInt {
      assert once[id].loyaltyPoints == passengers[id].loyaltyPoints + gain;
      assert twice[id] == passengers[id];
      assert twice.Keys == passengers.Keys;
    } else if passengers[id].loyaltyPoints <= MaxInt && gain <= MaxInt {
      assert once[id].loyaltyPoints == 0;
      assert twice[id].loyaltyPoints == 0;
      assert twice.Keys == passengers.Keys;
    }
  }

  /** A clawback larger than the balance is not undone by crediting it back: 20 - 50 + 50 is 50. */
  lemma ClawBackThenEarnLosesDebt(passengers: map<nat, Passenger>, id: nat)
    requires id in passengers && passengers[id].loyaltyPoints == 20
    ensures Credited(Credited(passengers, id, -50), id, 50)[id].loyaltyPoints == 50
  {
  }

  /** updateLoyaltyPoints: NotFound for an unknown id; otherwise only that passenger's balance changes. */
  method UpdateLoyaltyPoints(repo: PassengerRepository, id: nat, delta: int) returns (r: Outcome)
    requires repo.Valid()
    modifies repo
    ensures repo.Valid() && repo.nextId == old(repo.nextId)
    ensures id !in old(repo.passengers) ==> r == Fail(NotFound) && repo.passengers == old(repo.passengers)
    ensures id in old(repo.passengers) ==> r == Done && repo.passengers == Credited(old(repo.passengers), id, delta)
  {
    if id !in repo.passengers {
      return Fail(NotFound);
    }
    var p := repo.passengers[id];
    repo.Update(id, p.(loyaltyPoints := NormalizePoints(AddInt(p.loyaltyPoints, delta))));
    r := Done;
  }

  /** isEmailChanged: the new e-mail differs from the stored one ignoring case. */
  predicate IsEmailChanged(existing: Passenger, newEmail: string) {
    !EqualsIgnoreCase(existing.email, newEmail)
  }

  /** normalizePassengerData: strings trimmed, points clamped. */
  function NormalizePassengerData(dto: PassengerDto): (p: Passenger)
    ensures 0 <= p.loyaltyPoints <= MaxInt
    ensures p.loyaltyPoints == dto.loyaltyPoints || (dto.loyaltyPoints < 0 && p.loyaltyPoints == 0)
  {
    Passenger(Trim(dto.name), Trim(dto.surname), Trim(dto.email), NormalizePoints(dto.loyaltyPoints))
  }

  /** hasNoChanges: names equal exactly, e-mail equal ignoring case, points equal. */
  predicate HasNoChanges(existing: Passenger, updated: Passenger) {
    existing.name == updated.name && existing.surname == updated.surname &&
    EqualsIgnoreCase(existing.email, updated.email) && existing.loyaltyPoints == updated.loyaltyPoints
  }

  /** Another passenger than `id` already stores exactly this e-mail (the unique column would refuse it). */
  predicate EmailTakenByOther(passengers: map<nat, Passenger>, id: nat, email: string) {
    exists other :: other in passengers && other != id && passengers[other].email == email
  }

  /** findByEmailUnique: true iff no passenger stores that e-mail. */
  method FindByEmailUnique(repo: PassengerRepository, email: string) returns (unique: bool)
    ensures unique <==> forall id :: id in repo.passengers ==> repo.passengers[id].email != email
  {
    unique := !repo.ExistsByEmail(email);
  }

  /**
   * createPassenger: an e-mail already stored is refused; otherwise the DTO is
   * stored as given under a fresh id, with its points clamped at zero.
   */
  method CreatePassenger(repo: PassengerRepository, dto: PassengerDto) returns (r: Result<nat>)
    requires repo.Valid()
    modifies repo
    ensures repo.Valid()
    ensures old(repo.ExistsByEmail(dto.email)) ==> r == Err(BadRequest(EmailExists)) && unchanged(repo)
    ensures !old(repo.ExistsByEmail(dto.email)) ==>
      r.Ok? && r.value !in old(repo.passengers) &&
      repo.passengers == old(repo.passengers)[r.value := Passenger(dto.name, dto.surname, dto.email, NormalizePoints(dto.loyaltyPoints))]
    ensures EmailsUnique(old(repo.passengers)) ==> EmailsUnique(repo.passengers)
  {
    if repo.ExistsByEmail(dto.email) {
      return Err(BadRequest(EmailExists));
    }
    var id := repo.Save(Passenger(dto.name, dto.surname, dto.email, NormalizePoints(dto.loyaltyPoints)));
    r := Ok(id);
  }

  /**
   * updatePassenger, in the order the checks run: unknown id; a changed
   * (ignoring case) e-mail that is already stored; an update with no changes;
   * then the store's unique e-mail column, which refuses a trimmed or
   * case-changed e-mail that another passenger holds exactly. On success the
   * trimmed fields and clamped points replace the stored ones.
   */
  method UpdatePassenger(repo: PassengerRepository, id: nat, dto: PassengerDto) returns (r: Result<Passenger>)
    requires repo.Valid()
    modifies repo
    ensures repo.Valid() && repo.nextId == old(repo.nextId)
    ensures r.Err? ==> repo.passengers == old(repo.passengers)
    ensures id !in old(repo.passengers) ==> r == Err(NotFound)
    ensures id in old(repo.passengers) ==>
      var existing := old(repo.passengers)[id];
      var cleaned := NormalizePassengerData(dto);
      if IsEmailChanged(existing, dto.email) && old(repo.ExistsByEmail(dto.email)) then r == Err(BadRequest(EmailExists))
      else if HasNoChanges(existing, cleaned) then r == Err(BadRequest(NoChanges))
      else if EmailTakenByOther(old(repo.passengers), id, cleaned.email) then r == Err(ConstraintViolation)
      else r == Ok(cleaned) && repo.passengers == old(repo.passengers)[id := cleaned]
    ensures r.Ok? ==> 0 <= r.value.loyaltyPoints <= MaxInt
    ensures EmailsUnique(old(repo.passengers)) ==> EmailsUnique(repo.passengers)
  {
    if id !in repo.passengers {
      return Err(NotFound);
    }
    var existing := repo.passengers[id];
    if IsEmailChanged(existing, dto.email) && repo.ExistsByEmail(dto.email) {
      return Err(BadRequest(EmailExists));
    }
    var cleaned := NormalizePassengerData(dto);
    if HasNoChanges(existing, cleaned) {
      return Err(BadRequest(NoChanges));
    }
    if EmailTakenByOther(repo.passengers, id, cleaned.email) {
      return Err(ConstraintViolation);
    }
    repo.Update(id, cleaned);
    r := Ok(cleaned);
  }
}

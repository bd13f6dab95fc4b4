/**
 * AuthServiceImpl.register: a new account is a user and a passenger created
 * together. The role table is a set of role names; the password encoder is an
 * opaque function.
 */
module AuthService {
  import opened Common
  import opened Store

  /** The UserRegisterRequest fields register reads. */
  datatype RegisterRequest = RegisterRequest(firstName: string, lastName: string, email: string, password: string)

  /** The fixed confirmation register returns. */
  const RegisteredMessage := "User registered successfully (Passenger created)"

  /** The role every self-registered account gets. */
  const UserRole := "USER"

  /**
   * buildUserFromRequest: names trimmed (case kept), e-mail trimmed and
   * lower-cased, password encoded, role USER, active.
   */
  function BuildUserFromRequest(req: RegisterRequest, encode: string -> string): (u: User)
    ensures u.firstName == Trim(req.firstName) && u.lastName == Trim(req.lastName)
    ensures u.email == ToLower(Trim(req.email)) && Trim(u.email) == u.email && ToLower(u.email) == u.email
    ensures u.password == encode(req.password) && u.role == UserRole && u.active
  {
    LowerOfTrimmedIsTrimmed(req.email);
    ToLowerIdempotent(Trim(req.email));
    User(Trim(req.firstName), Trim(req.lastName), ToLower(Trim(req.email)), encode(req.password), UserRole, true)
  }

  /** buildPassengerFromUser: the user's names and e-mail, no loyalty points. */
  function BuildPassengerFromUser(u: User): (p: Passenger)
    ensures p.name == u.firstName && p.surname == u.lastName && p.email == u.email && p.loyaltyPoints == 0
  {
    Passenger(u.firstName, u.lastName, u.email, 0)
  }

  /** Registering again with the stored e-mail yields the same stored e-mail: the normal form is stable. */
  lemma {:induction false} NormalizedEmailIsStable(req: RegisterRequest, encode: string -> string)
    ensures var u := BuildUserFromRequest(req, encode);
      BuildUserFromRequest(req.(email := u.email), encode).email == u.email
  {
    var u := BuildUserFromRequest(req, encode);
    assert Trim(u.email) == u.email;
  }

  /**
   * register, in order: a user stored under the raw request e-mail is refused;
   * a missing USER role is NotFound; a passenger already holding the normalised
   * e-mail makes the unique passenger column refuse the insert and the whole
   * transaction roll back. Otherwise one user and one passenger are added.
   */
  method Register(ur: UserRepository, pr: PassengerRepository, roles: set<string>, encode: string -> string,
                  req: RegisterRequest) returns (r: Result<string>)
    requires pr.Valid()
    modifies ur, pr
    ensures pr.Valid()
    ensures r.Err? ==> unchanged(ur, pr)
    ensures var u := BuildUserFromRequest(req, encode);
      if old(ur.ExistsByEmail(req.email)) then r == Err(BadRequest(EmailExists))
      else if UserRole !in roles then r == Err(NotFound)
      else if old(pr.ExistsByEmail(u.email)) then r == Err(ConstraintViolation)
      else
        && r == Ok(RegisteredMessage)
        && ur.users == old(ur.users) + [u]
        && exists id: nat :: id !in old(pr.passengers) && pr.passengers == old(pr.passengers)[id := BuildPassengerFromUser(u)]
    ensures EmailsUnique(old(pr.passengers)) ==> EmailsUnique(pr.passengers)
  {
    if ur.ExistsByEmail(req.email) {
      return Err(BadRequest(EmailExists));
    }
    if UserRole !in roles {
      return Err(NotFound);
    }
    var user := BuildUserFromRequest(req, encode);
    if pr.ExistsByEmail(user.email) {
      return Err(ConstraintViolation);
    }
    ur.Save(user);
    var id := pr.Save(BuildPassengerFromUser(user));
    r := Ok(RegisteredMessage);
  }
}

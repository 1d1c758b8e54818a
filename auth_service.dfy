/**
 * The sign-up half of service/AuthService.java: the uniqueness and player
 * checks, the user it builds and stores, and the response it returns. The
 * password encoder and the token generator are foreign calls, so their
 * outputs arrive as parameters.
 */
module AuthService {
  import opened Wrappers
  import opened Enums
  import opened Errors
  import opened Users
  import opened Persistence

  /** The fields of a sign-up request that signup reads. */
  datatype SignupRequest = SignupRequest(
    username: string,
    email: string,
    phoneNumber: string,
    password: string,
    role: UserRole,
    bgmiGameId: Option<string>,
    bgmiInGameName: Option<string>)

  /** dto/AuthResponse.java; `tokenType` is the `type` field. */
  datatype AuthResponse = AuthResponse(
    token: string,
    tokenType: string,
    id: nat,
    username: string,
    email: string,
    role: UserRole,
    bgmiGameId: Option<string>,
    bgmiInGameName: Option<string>)

  /** Neither null nor empty. */
  predicate Present(s: Option<string>) {
    s.Some? && s.value != []
  }

  /**
   * The first check signup fails, in the code's order: the username, the
   * email and the phone number must be free, then a PLAYER must bring both
   * BGMI fields. Each failure is a plain RuntimeException.
   */
  function SignupFailure(users: seq<User>, req: SignupRequest): (r: Option<Error>)
    ensures r.None? <==>
      !ExistsByUsername(users, req.username) && !ExistsByEmail(users, req.email)
      && !ExistsByPhoneNumber(users, req.phoneNumber)
      && (req.role == Player ==> Present(req.bgmiGameId) && Present(req.bgmiInGameName))
    ensures ExistsByUsername(users, req.username) ==> r == Some(Error(Generic, "Username is already taken!"))
    ensures !ExistsByUsername(users, req.username) && ExistsByEmail(users, req.email) ==>
      r == Some(Error(Generic, "Email is already in use!"))
    ensures !ExistsByUsername(users, req.username) && !ExistsByEmail(users, req.email)
            && ExistsByPhoneNumber(users, req.phoneNumber) ==>
      r == Some(Error(Generic, "Phone number is already in use!"))
    ensures !ExistsByUsername(users, req.username) && !ExistsByEmail(users, req.email)
            && !ExistsByPhoneNumber(users, req.phoneNumber) && req.role == Player ==>
      (!Present(req.bgmiGameId) ==> r == Some(Error(Generic, "BGMI Game ID is required for Player role!")))
      && (Present(req.bgmiGameId) && !Present(req.bgmiInGameName)
          ==> r == Some(Error(Generic, "BGMI In-Game Name is required for Player role!")))
    ensures r.Some? ==> r.value.kind == Generic
  {
    if ExistsByUsername(users, req.username) then Some(Error(Generic, "Username is already taken!"))
    else if ExistsByEmail(users, req.email) then Some(Error(Generic, "Email is already in use!"))
    else if ExistsByPhoneNumber(users, req.phoneNumber) then Some(Error(Generic, "Phone number is already in use!"))
    else if req.role == Player && !Present(req.bgmiGameId)
    then Some(Error(Generic, "BGMI Game ID is required for Player role!"))
    else if req.role == Player && !Present(req.bgmiInGameName)
    then Some(Error(Generic, "BGMI In-Game Name is required for Player role!"))
    else None
  }

  /**
   * The user signup stores: enabled, with the requested role and the encoded
   * password; the BGMI fields are kept for a PLAYER and dropped otherwise.
   */
  function NewUser(id: nat, req: SignupRequest, encodedPassword: string): (u: User)
    ensures u.id == id && u.username == req.username && u.email == req.email
    ensures u.phoneNumber == req.phoneNumber && u.password == encodedPassword
    ensures u.role == req.role && u.enabled
    ensures u.role == Player ==> u.bgmiGameId == req.bgmiGameId && u.bgmiInGameName == req.bgmiInGameName
    ensures u.role != Player ==> u.bgmiGameId.None? && u.bgmiInGameName.None?
  {
    var u := User(id, req.username, req.email, req.phoneNumber, encodedPassword, req.role, None, None, true);
    if req.role == Player then u.(bgmiGameId := req.bgmiGameId, bgmiInGameName := req.bgmiInGameName) else u
  }

  /** The response built from the stored user. */
  function MapToAuthResponse(u: User, token: string): (r: AuthResponse)
    ensures r.tokenType == "Bearer" && r.token == token && r.id == u.id
    ensures r.username == u.username && r.email == u.email && r.role == u.role
    ensures r.bgmiGameId == u.bgmiGameId && r.bgmiInGameName == u.bgmiInGameName
  {
    AuthResponse(token, "Bearer", u.id, u.username, u.email, u.role, u.bgmiGameId, u.bgmiInGameName)
  }

  /**
   * signup: on success the new user is appended under the next generated id
   * and the tables keep their invariant, so the three unique columns stay
   * unique; on failure nothing changes.
   */
  method Signup(db: Database, req: SignupRequest, encodedPassword: string, token: string)
    returns (r: Result<AuthResponse>)
    requires db.Valid()
    modifies db
    ensures db.Valid()
    ensures var failure := old(SignupFailure(db.users, req));
      (failure.Some? ==> r == Err(failure.value)) && (failure.None? <==> r.Ok?)
    ensures r.Err? ==> unchanged(db)
    ensures db.events == old(db.events) && db.registrations == old(db.registrations)
    ensures db.nextEventKey == old(db.nextEventKey) && db.nextRegistrationId == old(db.nextRegistrationId)
    ensures r.Ok? ==>
      var u := NewUser(old(db.nextUserId), req, encodedPassword);
      db.users == old(db.users) + [u] && db.nextUserId == old(db.nextUserId) + 1
      && r.value == MapToAuthResponse(u, token)
  {
    if ExistsByUsername(db.users, req.username) {
      return Err(Error(Generic, "Username is already taken!"));
    }
    if ExistsByEmail(db.users, req.email) {
      return Err(Error(Generic, "Email is already in use!"));
    }
    if ExistsByPhoneNumber(db.users, req.phoneNumber) {
      return Err(Error(Generic, "Phone number is already in use!"));
    }
    if req.role == Player {
      if !Present(req.bgmiGameId) {
        return Err(Error(Generic, "BGMI Game ID is required for Player role!"));
      }
      if !Present(req.bgmiInGameName) {
        return Err(Error(Generic, "BGMI In-Game Name is required for Player role!"));
      }
    }
    var user := User(db.nextUserId, req.username, req.email, req.phoneNumber, encodedPassword, req.role,
                     None, None, true);
    if req.role == Player {
      user := user.(bgmiGameId := req.bgmiGameId, bgmiInGameName := req.bgmiInGameName);
    }
    db.InsertUser(user);
    r := Ok(MapToAuthResponse(user, token));
  }

  /** After a successful signup, the same request fails: its username is now taken. */
  lemma SignupIsNotRepeatable(users: seq<User>, req: SignupRequest, id: nat, encodedPassword: string)
    ensures SignupFailure(users + [NewUser(id, req, encodedPassword)], req)
         == Some(Error(Generic, "Username is already taken!"))
  {
    var after := users + [NewUser(id, req, encodedPassword)];
    assert after[|users|].username == req.username;
  }

  /** A sign-up that reuses only a stored user's email is refused for the email, whatever else it carries. */
  lemma SharedEmailIsRefused(users: seq<User>, req: SignupRequest, i: nat)
    requires i < |users| && users[i].email == req.email && !ExistsByUsername(users, req.username)
    ensures SignupFailure(users, req) == Some(Error(Generic, "Email is already in use!"))
  {
    assert ExistsByEmail(users, req.email);
  }
}

/**
 * The account service's request handlers: registration with its ordered field
 * checks and referral check, login, listing, lookup, sparse update and delete.
 *
 * Each handler is a method over the shared `UserStore`, written step by step
 * with the same early returns as the service. A handler that writes the store is
 * proved equal to an outcome function of the old table (`RegisterOutcome`,
 * `UpdateOutcome`, `DeleteOutcome`); a handler that only reads is proved equal to
 * a response function of the table (`LoginOutcome`, `LookupOutcome`). The lemmas
 * at the end state what those functions promise.
 */
module UserController {
  import opened Wrappers
  import opened Credentials
  import opened EmailFormat
  import opened Users

  // ---------------------------------------------------------------------
  // Requests and responses

  /** JavaScript's truthiness test on a body field: absent and `""` are missing. */
  predicate Truthy(field: Option<string>) {
    field.Some? && field.value != ""
  }

  datatype RegisterRequest = RegisterRequest(
    name: Option<string>,
    email: Option<string>,
    password: Option<string>,
    referralName: Option<string>,
    referralEmail: Option<string>
  )

  datatype LoginRequest = LoginRequest(email: Option<string>, password: Option<string>)

  datatype UpdateRequest = UpdateRequest(name: Option<string>, email: Option<string>, password: Option<string>)

  /** A signed bearer token; the service signs the whole user record as its claims. */
  datatype Token = Jwt(claims: User, secret: string)

  /** `generateToken`: signing with the process-wide secret. Expiry is not modelled. */
  function GenerateToken(user: User, secret: string): Token {
    Jwt(user, secret)
  }

  datatype Body =
    | Record(user: User)
    | Records(users: seq<User>)
    | Signed(token: Token)
    | Message(message: string)
    | Error(error: string)

  datatype Response = Response(status: int, body: Body)

  /** What a handler that writes the store leaves behind: its response and the new table. */
  datatype Outcome = Outcome(response: Response, users: map<Id, User>)

  function Fail(status: int, error: string): Response {
    Response(status, Error(error))
  }

  const NameRequired := "Name is required"
  const EmailRequired := "Email is required"
  const InvalidEmailFormat := "Invalid email format"
  const PasswordRequired := "Password is required"
  const ReferralNotFound := "Referred user does not exist"
  const CreateFailed := "Error creating user"
  const UserNotFound := "User not found"
  const InvalidCredentials := "Invalid credentials"
  const LoginFailed := "Error logging in user"
  const UpdateFailed := "Error updating user"
  const DeleteFailed := "Error deleting user"
  const Deleted := "User deleted successfully"

  // ---------------------------------------------------------------------
  // Registration

  /** The first field check of registration that fails, in the order the handler makes them. */
  function RegistrationError(req: RegisterRequest): Option<string> {
    if !Truthy(req.name) then Some(NameRequired)
    else if !Truthy(req.email) then Some(EmailRequired)
    else if !ValidEmail(req.email.value) then Some(InvalidEmailFormat)
    else if !Truthy(req.password) then Some(PasswordRequired)
    else None
  }

  /** Both referral fields are supplied, so the referral is checked and attached. */
  predicate WantsReferral(req: RegisterRequest) {
    Truthy(req.referralName) && Truthy(req.referralEmail)
  }

  /** The record registration builds once the field checks pass, before any referral. */
  function Candidate(req: RegisterRequest, freshId: Id): User
    requires RegistrationError(req).None?
  {
    User(freshId, req.name.value, req.email.value, Hash(req.password.value), None, None)
  }

  /** The user found under the referral email has exactly the referral name. */
  ghost predicate ReferrerMatches(users: map<Id, User>, req: RegisterRequest)
    requires WellFormed(users) && WantsReferral(req)
  {
    var referred := WithEmail(users, req.referralEmail.value);
    referred.Some? && referred.value.name == req.referralName.value
  }

  /** `prisma.user.create` followed by the 201 or the catch-all 500. */
  ghost function CreateOutcome(users: map<Id, User>, u: User): (out: Outcome)
    requires WellFormed(users)
    ensures WellFormed(out.users)
  {
    if CanCreate(users, u) then
      assert forall id :: id in users ==> users[id].email != u.email;
      Outcome(Response(201, Record(u)), users[u.id := u])
    else
      Outcome(Fail(500, CreateFailed), users)
  }

  ghost function RegisterOutcome(users: map<Id, User>, req: RegisterRequest, freshId: Id): (out: Outcome)
    requires WellFormed(users)
    ensures WellFormed(out.users)
  {
    match RegistrationError(req)
    case Some(error) => Outcome(Fail(400, error), users)
    case None =>
      var data := Candidate(req, freshId);
      if !WantsReferral(req) then
        CreateOutcome(users, data)
      else if !ReferrerMatches(users, req) then
        Outcome(Fail(400, ReferralNotFound), users)
      else
        CreateOutcome(users, data.(referralName := req.referralName, referralEmail := req.referralEmail))
  }

  /** `createUser`. `freshId` stands for the `uuid()` the service draws. */
  method CreateUser(store: UserStore, req: RegisterRequest, freshId: Id) returns (resp: Response)
    requires store.Valid()
    modifies store
    ensures store.Valid()
    ensures Outcome(resp, store.users) == RegisterOutcome(old(store.users), req, freshId)
  {
    if !Truthy(req.name) {
      return Fail(400, NameRequired);
    }
    if !Truthy(req.email) {
      return Fail(400, EmailRequired);
    }
    if !ValidEmail(req.email.value) {
      return Fail(400, InvalidEmailFormat);
    }
    if !Truthy(req.password) {
      return Fail(400, PasswordRequired);
    }
    var data := User(freshId, req.name.value, req.email.value, Hash(req.password.value), None, None);
    if Truthy(req.referralName) && Truthy(req.referralEmail) {
      var referredUser := store.FindByEmail(req.referralEmail.value);
      if referredUser.None? || referredUser.value.name != req.referralName.value {
        return Fail(400, ReferralNotFound);
      }
      data := data.(referralName := req.referralName, referralEmail := req.referralEmail);
    }
    var user := store.Create(data);
    if user.None? {
      return Fail(500, CreateFailed);
    }
    resp := Response(201, Record(user.value));
  }

  // ---------------------------------------------------------------------
  // Login

  /**
   * The response to a login. A missing email or password reaches the catch-all
   * 500, because the store refuses a unique lookup without a key and bcrypt
   * refuses to compare a missing password; so does an unset signing secret.
   */
  ghost function LoginOutcome(users: map<Id, User>, req: LoginRequest, secret: Option<string>): Response
    requires WellFormed(users)
  {
    if req.email.None? then Fail(500, LoginFailed)
    else match WithEmail(users, req.email.value)
      case None => Fail(404, UserNotFound)
      case Some(user) =>
        if req.password.None? then Fail(500, LoginFailed)
        else if !Matches(req.password.value, user.password) then Fail(401, InvalidCredentials)
        else if !Truthy(secret) then Fail(500, LoginFailed)
        else Response(200, Signed(GenerateToken(user, secret.value)))
  }

  /** `loginUser`. `secret` stands for `process.env.JWT_SECRET`. */
  method LoginUser(store: UserStore, req: LoginRequest, secret: Option<string>) returns (resp: Response)
    requires store.Valid()
    ensures resp == LoginOutcome(store.users, req, secret)
  {
    if req.email.None? {
      return Fail(500, LoginFailed);
    }
    var user := store.FindByEmail(req.email.value);
    if user.None? {
      return Fail(404, UserNotFound);
    }
    if req.password.None? {
      return Fail(500, LoginFailed);
    }
    var passwordMatch := Matches(req.password.value, user.value.password);
    if !passwordMatch {
      return Fail(401, InvalidCredentials);
    }
    if !Truthy(secret) {
      return Fail(500, LoginFailed);
    }
    var token := GenerateToken(user.value, secret.value);
    resp := Response(200, Signed(token));
  }

  // ---------------------------------------------------------------------
  // Listing and lookup

  /** `getAllUsers`: every stored record, each once, password digests included. */
  method GetAllUsers(store: UserStore) returns (resp: Response)
    requires store.Valid()
    ensures resp.status == 200 && resp.body.Records?
    ensures |resp.body.users| == |store.users|
    ensures forall id :: id in store.users ==> store.users[id] in resp.body.users
    ensures forall k :: 0 <= k < |resp.body.users| ==>
      var u := resp.body.users[k]; u.id in store.users && store.users[u.id] == u
    ensures forall k, m :: 0 <= k < m < |resp.body.users| ==> resp.body.users[k].id != resp.body.users[m].id
  {
    var users := store.FindMany();
    resp := Response(200, Records(users));
  }

  /** The response to a lookup by id. */
  function LookupOutcome(users: map<Id, User>, id: Id): Response {
    if id in users then Response(200, Record(users[id])) else Fail(404, UserNotFound)
  }

  /** `getUserById`: 200 with the record exactly when the id is stored, else 404. */
  method GetUserById(store: UserStore, id: Id) returns (resp: Response)
    requires store.Valid()
    ensures resp == LookupOutcome(store.users, id)
    ensures resp.status == 200 <==> id in store.users
    ensures resp.status == 200 ==> resp.body.Record? && resp.body.user == store.users[id]
    ensures resp.status != 200 ==> resp == Fail(404, UserNotFound)
  {
    var user := store.FindById(id);
    if user.Some? {
      resp := Response(200, Record(user.value));
    } else {
      resp := Fail(404, UserNotFound);
    }
  }

  // ---------------------------------------------------------------------
  // Update and delete

  /** The sparse patch the update handler builds: only truthy fields, the password hashed. */
  function UpdatePatch(req: UpdateRequest): Patch {
    Patch(
      if Truthy(req.name) then req.name else None,
      if Truthy(req.email) then req.email else None,
      if Truthy(req.password) then Some(Hash(req.password.value)) else None)
  }

  /** The update; a missing record or a clashing email reaches the catch-all 500. */
  ghost function UpdateOutcome(users: map<Id, User>, key: Id, req: UpdateRequest): (out: Outcome)
    requires WellFormed(users)
    ensures WellFormed(out.users)
  {
    var patch := UpdatePatch(req);
    if CanUpdate(users, key, patch) then
      var updated := Patched(users[key], patch);
      assert forall id :: id in users && id != key ==> users[id].email != updated.email;
      Outcome(Response(200, Record(updated)), users[key := updated])
    else
      Outcome(Fail(500, UpdateFailed), users)
  }

  /**
   * `updateUser`. `key` is what the store is asked for, `parseInt(id)` in the
   * service, although registration keys records by a uuid string.
   */
  method UpdateUser(store: UserStore, key: Id, req: UpdateRequest) returns (resp: Response)
    requires store.Valid()
    modifies store
    ensures store.Valid()
    ensures Outcome(resp, store.users) == UpdateOutcome(old(store.users), key, req)
  {
    var dataToUpdate := Patch(None, None, None);
    if Truthy(req.name) {
      dataToUpdate := dataToUpdate.(name := req.name);
    }
    if Truthy(req.email) {
      dataToUpdate := dataToUpdate.(email := req.email);
    }
    if Truthy(req.password) {
      var hashedPassword := Hash(req.password.value);
      dataToUpdate := dataToUpdate.(password := Some(hashedPassword));
    }
    var updatedUser := store.Update(key, dataToUpdate);
    if updatedUser.None? {
      return Fail(500, UpdateFailed);
    }
    resp := Response(200, Record(updatedUser.value));
  }

  /** The delete; a missing record reaches the catch-all 500. */
  ghost function DeleteOutcome(users: map<Id, User>, key: Id): (out: Outcome)
    requires WellFormed(users)
    ensures WellFormed(out.users)
  {
    if key in users then Outcome(Response(200, Message(Deleted)), users - {key})
    else Outcome(Fail(500, DeleteFailed), users)
  }

  /** `deleteUser`, with the same `parseInt(id)` key as `updateUser`. */
  method DeleteUser(store: UserStore, key: Id) returns (resp: Response)
    requires store.Valid()
    modifies store
    ensures store.Valid()
    ensures Outcome(resp, store.users) == DeleteOutcome(old(store.users), key)
  {
    var deleted := store.Delete(key);
    if deleted.None? {
      return Fail(500, DeleteFailed);
    }
    resp := Response(200, Message(Deleted));
  }
}

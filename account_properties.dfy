/**
 * What the account service's handlers promise, stated over the outcome
 * functions its handler methods are proved equal to.
 */
module AccountProperties {
  import opened Wrappers
  import opened Credentials
  import opened EmailFormat
  import opened Users
  import opened UserController

  // ---------------------------------------------------------------------
  // Registration

  /** Some stored user has exactly this email and this name. */
  ghost predicate HasReferrer(users: map<Id, User>, email: string, name: string) {
    exists id :: id in users && users[id].email == email && users[id].name == name
  }

  /**
   * The field checks run in a fixed order and the first failure decides the
   * response. The third clause does not mention the password: an invalid email
   * with no password reports the format error.
   */
  lemma RegisterChecksInOrder(users: map<Id, User>, req: RegisterRequest, freshId: Id)
    requires WellFormed(users)
    ensures var r := RegisterOutcome(users, req, freshId).response;
      && (!Truthy(req.name) ==> r == Fail(400, NameRequired))
      && (Truthy(req.name) && !Truthy(req.email) ==> r == Fail(400, EmailRequired))
      && (Truthy(req.name) && Truthy(req.email) && !ValidEmail(req.email.value)
          ==> r == Fail(400, InvalidEmailFormat))
      && (Truthy(req.name) && Truthy(req.email) && ValidEmail(req.email.value) && !Truthy(req.password)
          ==> r == Fail(400, PasswordRequired))
  {
  }

  /**
   * Every failed registration, whatever the reason, leaves the table as it was.
   * It answers 500 "Error creating user" exactly when every check passed but the
   * fresh id or the email is already taken, so the store refused the create.
   */
  lemma RegisterFailureKeepsStore(users: map<Id, User>, req: RegisterRequest, freshId: Id)
    requires WellFormed(users)
    ensures var out := RegisterOutcome(users, req, freshId);
      && out.response.status in {201, 400, 500}
      && (out.response.status != 201 ==> out.users == users && out.response.body.Error?)
      && (out.response.status == 500 <==>
            && RegistrationError(req).None?
            && (WantsReferral(req) ==> HasReferrer(users, req.referralEmail.value, req.referralName.value))
            && (freshId in users || EmailUsedBy(users, req.email.value, None)))
      && (out.response.status == 500 ==> out.response == Fail(500, CreateFailed))
  {
    if RegistrationError(req).None? && WantsReferral(req) {
      ReferrerMatchesStoredUser(users, req);
    }
  }

  /**
   * Registration succeeds exactly when the field checks pass, the referral (if
   * both fields are given) names a stored user, and neither the fresh id nor the
   * email is taken.
   */
  lemma RegisterSucceedsWhen(users: map<Id, User>, req: RegisterRequest, freshId: Id)
    requires WellFormed(users)
    ensures RegisterOutcome(users, req, freshId).response.status == 201 <==>
      && RegistrationError(req).None?
      && (WantsReferral(req) ==> HasReferrer(users, req.referralEmail.value, req.referralName.value))
      && freshId !in users
      && !EmailUsedBy(users, req.email.value, None)
  {

  }

  /**
   * A successful registration adds exactly one record, under the fresh id, with
   * the given name and email and the hash of the password, never the password
   * itself; no other record changes, and the response carries the new record.
   */
  lemma RegisterSuccessAddsRecord(users: map<Id, User>, req: RegisterRequest, freshId: Id)
    requires WellFormed(users)
    requires RegisterOutcome(users, req, freshId).response.status == 201
    ensures var out := RegisterOutcome(users, req, freshId);
      && freshId !in users
      && freshId in out.users
      && out.users == users[freshId := out.users[freshId]]
      && out.response == Response(201, Record(out.users[freshId]))
      && var u := out.users[freshId];
      && u.id == freshId
      && u.name == req.name.value
      && u.email == req.email.value
      && ValidEmail(u.email)
      && u.password == Hash(req.password.value)
      && Matches(req.password.value, u.password)
      && (|Utf8(req.password.value)| < KeyLength ==>
            forall pw :: Matches(pw, u.password) <==> pw == req.password.value)
  {
    var password := req.password.value;
    if |Utf8(password)| < KeyLength {
      forall pw
        ensures Matches(pw, Hash(password)) <==> pw == password
      {
        ShortPasswordMatchesOnlyItself(password, pw);
      }
    }
  }

  /** With both referral fields in the request, the check reads the user stored under the email. */
  lemma ReferrerMatchesStoredUser(users: map<Id, User>, req: RegisterRequest)
    requires WellFormed(users) && WantsReferral(req)
    ensures ReferrerMatches(users, req) <==> HasReferrer(users, req.referralEmail.value, req.referralName.value)
  {

  }

  /**
   * With both referral fields given, registration is refused with 400 unless a
   * stored user has that email and exactly that name; on success the record
   * carries both fields and the referrer was in the table beforehand.
   */
  lemma ReferralMustNameStoredUser(users: map<Id, User>, req: RegisterRequest, freshId: Id)
    requires WellFormed(users)
    requires RegistrationError(req).None? && WantsReferral(req)
    ensures var out := RegisterOutcome(users, req, freshId);
      && (out.response == Fail(400, ReferralNotFound) <==>
          !HasReferrer(users, req.referralEmail.value, req.referralName.value))
      && (out.response.status == 201 ==>
          && HasReferrer(users, req.referralEmail.value, req.referralName.value)
          && out.users[freshId].referralName == req.referralName
          && out.users[freshId].referralEmail == req.referralEmail)
  {

  }

  /**
   * When either referral field is missing, registration behaves as if neither
   * were given: no referral lookup affects the outcome, and a created record has
   * no referral fields.
   */
  lemma PartialReferralIgnored(users: map<Id, User>, req: RegisterRequest, freshId: Id)
    requires WellFormed(users)
    requires !WantsReferral(req)
    ensures var out := RegisterOutcome(users, req, freshId);
      && out == RegisterOutcome(users, req.(referralName := None, referralEmail := None), freshId)
      && (out.response.status == 201 ==>
          out.users[freshId].referralName.None? && out.users[freshId].referralEmail.None?)
  {
  }

  /**
   * Registering a second user with an email already registered fails and
   * changes nothing; once the second request passes the field and referral
   * checks, the store refuses the create and the answer is 500 "Error creating
   * user".
   */
  lemma DuplicateEmailRejected(users: map<Id, User>, first: RegisterRequest, firstId: Id,
                               second: RegisterRequest, secondId: Id)
    requires WellFormed(users)
    requires RegisterOutcome(users, first, firstId).response.status == 201
    requires second.email == first.email
    ensures var after := RegisterOutcome(users, first, firstId).users;
      var out := RegisterOutcome(after, second, secondId);
      && out.response.status != 201 && out.users == after
      && (RegistrationError(second).None?
          && (WantsReferral(second) ==>
                HasReferrer(after, second.referralEmail.value, second.referralName.value))
          ==> out.response == Fail(500, CreateFailed))
  {
    var after := RegisterOutcome(users, first, firstId).users;
    RegisterSuccessAddsRecord(users, first, firstId);
    assert after[firstId].email == first.email.value;
    RegisterSucceedsWhen(after, second, secondId);
    RegisterFailureKeepsStore(after, second, secondId);
  }

  // ---------------------------------------------------------------------
  // Login

  /** `id` holds a stored record whose email is `email`. */
  ghost predicate StoredWith(users: map<Id, User>, id: Id, email: string) {
    id in users && users[id].email == email
  }

  /**
   * Login answers 404 for an unknown email, 401 for a known email with a
   * password that does not match, and otherwise 200 with a token signed over
   * the stored record (and nothing else in the body).
   */
  lemma LoginDecision(users: map<Id, User>, req: LoginRequest, secret: Option<string>)
    requires WellFormed(users)
    ensures var r := LoginOutcome(users, req, secret);
      && r.status in {200, 401, 404, 500}
      && (r.status == 404 <==> req.email.Some? && !EmailUsedBy(users, req.email.value, None))
      && (r.status == 401 <==> req.email.Some? && req.password.Some? && exists id ::
            StoredWith(users, id, req.email.value) && !Matches(req.password.value, users[id].password))
      && (r.status == 200 <==> req.email.Some? && req.password.Some? && Truthy(secret) && exists id ::
            StoredWith(users, id, req.email.value) && Matches(req.password.value, users[id].password))
      && (r.status == 200 ==> exists id ::
            StoredWith(users, id, req.email.value) && r.body == Signed(GenerateToken(users[id], secret.value)))
  {

  }

  /** Registering and then logging in with the same email and password issues a token. */
  lemma RegisterThenLogin(users: map<Id, User>, req: RegisterRequest, freshId: Id, secret: Option<string>)
    requires WellFormed(users)
    requires RegisterOutcome(users, req, freshId).response.status == 201
    requires Truthy(secret)
    ensures var after := RegisterOutcome(users, req, freshId).users;
      LoginOutcome(after, LoginRequest(req.email, req.password), secret)
        == Response(200, Signed(GenerateToken(after[freshId], secret.value)))
  {
    var after := RegisterOutcome(users, req, freshId).users;
    RegisterSuccessAddsRecord(users, req, freshId);
    WithEmailFindsOwner(after, after[freshId]);
  }

  // ---------------------------------------------------------------------
  // Update

  /**
   * An update that is refused, in particular one naming a key with no record,
   * answers 500 and leaves the table as it was. There is no 404.
   */
  lemma UpdateMissingKeyFails(users: map<Id, User>, key: Id, req: UpdateRequest)
    requires WellFormed(users)
    ensures var out := UpdateOutcome(users, key, req);
      && (out.response.status == 200 <==> CanUpdate(users, key, UpdatePatch(req)))
      && (out.response.status != 200 ==> out.response == Fail(500, UpdateFailed) && out.users == users)
      && (key !in users ==> out.response == Fail(500, UpdateFailed) && out.users == users)
  {
  }

  /**
   * A successful update changes only the fields supplied non-empty, stores a
   * supplied password as its hash, keeps the id and referral fields, and leaves
   * every other record alone.
   */
  lemma UpdateChangesOnlySuppliedFields(users: map<Id, User>, key: Id, req: UpdateRequest)
    requires WellFormed(users)
    requires UpdateOutcome(users, key, req).response.status == 200
    ensures var out := UpdateOutcome(users, key, req);
      && key in users && out.users.Keys == users.Keys
      && (forall id :: id in users && id != key ==> out.users[id] == users[id])
      && out.response == Response(200, Record(out.users[key]))
      && var (was, now) := (users[key], out.users[key]);
      && now.id == was.id
      && now.name == (if Truthy(req.name) then req.name.value else was.name)
      && now.email == (if Truthy(req.email) then req.email.value else was.email)
      && now.password == (if Truthy(req.password) then Hash(req.password.value) else was.password)
      && now.referralName == was.referralName
      && now.referralEmail == was.referralEmail
  {
  }

  /** An update carrying only a password changes the stored hash and nothing a lookup shows besides it. */
  lemma UpdatePasswordOnly(users: map<Id, User>, key: Id, password: string)
    requires WellFormed(users)
    requires key in users && password != ""
    ensures var out := UpdateOutcome(users, key, UpdateRequest(None, None, Some(password)));
      && out.response.status == 200
      && LookupOutcome(out.users, key)
           == Response(200, Record(users[key].(password := Hash(password))))
  {
  }

  /** Update stores an email without the format check registration applies. */
  lemma UpdateSkipsEmailFormat(users: map<Id, User>, key: Id)
    requires WellFormed(users)
    requires key in users && !EmailUsedBy(users, "not-an-email", Some(key))
    ensures !ValidEmail("not-an-email")
    ensures var out := UpdateOutcome(users, key, UpdateRequest(None, Some("not-an-email"), None));
      out.response.status == 200 && out.users[key].email == "not-an-email"
  {
    NoAtSignInvalid("not-an-email");
  }

  // ---------------------------------------------------------------------
  // Delete

  /**
   * Delete removes exactly the keyed record, after which a lookup of it answers
   * 404; a key with no record answers 500 and changes nothing.
   */
  lemma DeleteRemovesExactlyKey(users: map<Id, User>, key: Id)
    requires WellFormed(users)
    ensures var out := DeleteOutcome(users, key);
      && (out.response.status == 200 <==> key in users)
      && (key in users ==>
            && out.response == Response(200, Message(Deleted))
            && out.users.Keys == users.Keys - {key}
            && (forall id :: id in out.users ==> out.users[id] == users[id])
            && LookupOutcome(out.users, key) == Fail(404, UserNotFound))
      && (key !in users ==> out.response == Fail(500, DeleteFailed) && out.users == users)
  {
  }

  // ---------------------------------------------------------------------
  // The referral fields stay paired

  /** Every record has both referral fields or neither. */
  ghost predicate ReferralsPaired(users: map<Id, User>) {
    forall id :: id in users ==> (users[id].referralName.Some? <==> users[id].referralEmail.Some?)
  }

  /** No handler that writes the table separates a record's referral fields. */
  lemma HandlersKeepReferralsPaired(users: map<Id, User>, req: RegisterRequest, freshId: Id,
                                    key: Id, patch: UpdateRequest)
    requires WellFormed(users) && ReferralsPaired(users)
    ensures ReferralsPaired(RegisterOutcome(users, req, freshId).users)
    ensures ReferralsPaired(UpdateOutcome(users, key, patch).users)
    ensures ReferralsPaired(DeleteOutcome(users, key).users)
  {
  }
}

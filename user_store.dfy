/**
 * The user table behind the account service, as the handlers reach it through
 * `prisma.user.create`, `findUnique`, `findMany`, `update` and `delete`.
 *
 * The table is a map from id to record. The store enforces two constraints:
 * `id` is the primary key and `email` is unique. A call that would break
 * either, or that names a record that does not exist, fails.
 */
module Users {
  import opened Wrappers
  import opened Credentials

  type Id = string

  /** A row of the user table. The referral fields are set only at creation. */
  datatype User = User(
    id: Id,
    name: string,
    email: string,
    password: Digest,
    referralName: Option<string>,
    referralEmail: Option<string>
  )

  /** The `data` of an update: a field that is `None` is left as it is. */
  datatype Patch = Patch(name: Option<string>, email: Option<string>, password: Option<Digest>)

  /** The record `u` with the supplied fields of `p` written over it. */
  function Patched(u: User, p: Patch): User {
    u.(name := p.name.GetOr(u.name),
       email := p.email.GetOr(u.email),
       password := p.password.GetOr(u.password))
  }

  /** Every record sits under its own id. */
  ghost predicate KeyedById(users: map<Id, User>) {
    forall id :: id in users ==> users[id].id == id
  }

  /** No two records share an email. */
  ghost predicate EmailsUnique(users: map<Id, User>) {
    forall a, b :: a in users && b in users && users[a].email == users[b].email ==> a == b
  }

  ghost predicate WellFormed(users: map<Id, User>) {
    KeyedById(users) && EmailsUnique(users)
  }

  /** Some record other than the one under `except` has `email`. */
  predicate EmailUsedBy(users: map<Id, User>, email: string, except: Option<Id>) {
    exists id :: id in users && Some(id) != except && users[id].email == email
  }

  /** `create` succeeds: neither the id nor the email is taken. */
  predicate CanCreate(users: map<Id, User>, u: User) {
    u.id !in users && !EmailUsedBy(users, u.email, None)
  }

  /** `update` succeeds: the record exists and a new email is not another record's. */
  predicate CanUpdate(users: map<Id, User>, key: Id, p: Patch) {
    key in users && (p.email.None? || !EmailUsedBy(users, p.email.value, Some(key)))
  }

  /** `findUnique({ where: { email } })` on a table of unique emails. */
  ghost function WithEmail(users: map<Id, User>, email: string): (r: Option<User>)
    requires WellFormed(users)
    ensures r.Some? <==> EmailUsedBy(users, email, None)
    ensures r.Some? ==> r.value.id in users && users[r.value.id] == r.value && r.value.email == email
  {
    if EmailUsedBy(users, email, None) then
      var id :| id in users && Some(id) != None && users[id].email == email;
      Some(users[id])
    else
      None
  }

  /** Under unique emails, the record found by email is the one that has it. */
  lemma WithEmailFindsOwner(users: map<Id, User>, u: User)
    requires WellFormed(users)
    requires u.id in users && users[u.id] == u
    ensures WithEmail(users, u.email) == Some(u)
  {

  }

  /**
   * `all` lists, each once, the records of `users` whose ids are not in `todo`:
   * what a listing of the table has gathered so far.
   */
  ghost predicate Listing(all: seq<User>, users: map<Id, User>, todo: set<Id>) {
    && todo <= users.Keys
    && |all| + |todo| == |users|
    && (forall k :: 0 <= k < |all| ==> all[k].id in users && users[all[k].id] == all[k] && all[k].id !in todo)
    && (forall k, m :: 0 <= k < m < |all| ==> all[k].id != all[m].id)
    && (forall id :: id in users && id !in todo ==> users[id] in all)
  }

  /** Moving one id from `todo` to the listing keeps it a listing. */
  lemma ListingStep(all: seq<User>, users: map<Id, User>, todo: set<Id>, id: Id)
    requires KeyedById(users)
    requires Listing(all, users, todo) && id in todo
    ensures Listing(all + [users[id]], users, todo - {id})
  {

  }

  class UserStore {
    var users: map<Id, User>

    ghost predicate Valid()
      reads this
    {
      WellFormed(users)
    }

    constructor ()
      ensures Valid() && users == map[]
    {
      users := map[];
    }

    /** `prisma.user.create({ data: u })`. */
    method Create(u: User) returns (created: Option<User>)
      requires Valid()
      modifies this
      ensures Valid()
      ensures created == (if CanCreate(old(users), u) then Some(u) else None)
      ensures users == (if created.Some? then old(users)[u.id := u] else old(users))
    {
      if CanCreate(users, u) {
        users := users[u.id := u];
        created := Some(u);
      } else {
        created := None;
      }
    }

    /** `prisma.user.findUnique({ where: { id } })`. */
    method FindById(id: Id) returns (r: Option<User>)
      requires Valid()
      ensures r.Some? <==> id in users
      ensures r.Some? ==> r.value == users[id] && r.value.id == id
    {
      if id in users {
        r := Some(users[id]);
      } else {
        r := None;
      }
    }

    /** `prisma.user.findUnique({ where: { email } })`. */
    method FindByEmail(email: string) returns (r: Option<User>)
      requires Valid()
      ensures r == WithEmail(users, email)
    {
      if EmailUsedBy(users, email, None) {
        var id :| id in users && Some(id) != None && users[id].email == email;
        r := Some(users[id]);
        var w := WithEmail(users, email);
        assert users[w.value.id].email == users[id].email;
      } else {
        r := None;
      }
    }

    /** `prisma.user.findMany()`: every record once, in no particular order. */
    method FindMany() returns (all: seq<User>)
      requires Valid()
      ensures |all| == |users|
      ensures forall k :: 0 <= k < |all| ==> all[k].id in users && users[all[k].id] == all[k]
      ensures forall k, m :: 0 <= k < m < |all| ==> all[k].id != all[m].id
      ensures forall id :: id in users ==> users[id] in all
    {
      all := [];
      var todo := users.Keys;
      while todo != {}
        invariant Listing(all, users, todo)
        decreases |todo|
      {
        var id :| id in todo;
        ListingStep(all, users, todo, id);
        all := all + [users[id]];
        todo := todo - {id};
      }
    }

    /** `prisma.user.update({ where: { id: key }, data: p })`. */
    method Update(key: Id, p: Patch) returns (updated: Option<User>)
      requires Valid()
      modifies this
      ensures Valid()
      ensures updated == (if CanUpdate(old(users), key, p) then Some(Patched(old(users)[key], p)) else None)
      ensures users == (if updated.Some? then old(users)[key := updated.value] else old(users))
    {
      if CanUpdate(users, key, p) {
        var u := Patched(users[key], p);
        users := users[key := u];
        updated := Some(u);
      } else {
        updated := None;
      }
    }

    /** `prisma.user.delete({ where: { id: key } })`: returns the removed record. */
    method Delete(key: Id) returns (deleted: Option<User>)
      requires Valid()
      modifies this
      ensures Valid()
      ensures deleted == (if key in old(users) then Some(old(users)[key]) else None)
      ensures users == (if deleted.Some? then old(users) - {key} else old(users))
    {
      if key in users {
        deleted := Some(users[key]);
        users := users - {key};
      } else {
        deleted := None;
      }
    }
  }
}

/**
 * The User document (models/User.model.js) and the store of users, modelled as a sequence
 * in the store's natural order, together with the queries the controllers run on it.
 */
module UserModel {
  import opened Wrappers

  type UserId = nat

  /** The schema's role enum; "user" is the default. */
  datatype Role = UserRole | AdminRole

  /** `password` holds the stored hash. Timestamps are not modelled. */
  datatype User = User(
    id: UserId,
    username: string,
    password: string,
    email: string,
    firstName: Option<string>,
    lastName: Option<string>,
    mobileNumber: Option<int>,
    profile: Option<string>,
    isDeleted: bool,
    role: Role)

  /** A new document: the fields a registration supplies, the schema defaults for the rest. */
  function NewUser(id: UserId, username: string, password: string, email: string, profile: string): User {
    User(id, username, password, email, None, None, None, Some(profile), false, UserRole)
  }

  /** The filters the controllers pass to `findOne` / `findById`. */
  datatype UserQuery =
    | ById(id: UserId)
    | ByUsername(username: string)
    | ByEmail(email: string)
    | ByIdentifier(ident: string)          // email OR username, deleted users included
    | ActiveByIdentifier(ident: string)    // email OR username, and isDeleted false

  predicate Matches(u: User, q: UserQuery) {
    match q
    case ById(id) => u.id == id
    case ByUsername(name) => u.username == name
    case ByEmail(email) => u.email == email
    case ByIdentifier(ident) => u.email == ident || u.username == ident
    case ActiveByIdentifier(ident) => (u.email == ident || u.username == ident) && !u.isDeleted
  }

  /** Index `i` holds the first user the query matches. */
  predicate IsFirstMatch(users: seq<User>, i: int, q: UserQuery) {
    && 0 <= i < |users|
    && Matches(users[i], q)
    && forall j :: 0 <= j < i ==> !Matches(users[j], q)
  }

  predicate NoMatch(users: seq<User>, q: UserQuery) {
    forall j :: 0 <= j < |users| ==> !Matches(users[j], q)
  }

  /** `findOne(filter)`: the position of the first matching document, if any. */
  function FindUser(users: seq<User>, q: UserQuery): (r: Option<nat>)
    ensures r.Some? ==> IsFirstMatch(users, r.value, q)
    ensures r.None? ==> NoMatch(users, q)
  {
    if users == [] then None
    else if Matches(users[0], q) then Some(0)
    else match FindUser(users[1..], q)
      case None => None
      case Some(i) => Some(i + 1)
  }

  /** `find({ isDeleted: deleted })`: the users with that flag, in store order. */
  function WithDeleted(users: seq<User>, deleted: bool): (r: seq<User>)
    ensures forall u :: u in r <==> u in users && u.isDeleted == deleted
    ensures |r| <= |users|
  {
    if users == [] then []
    else
      var rest := WithDeleted(users[..|users| - 1], deleted);
      var last := users[|users| - 1];
      assert users == users[..|users| - 1] + [last];
      if last.isDeleted == deleted then rest + [last] else rest
  }

  /** The listing of active users and that of deleted users split the store between them. */
  lemma {:induction false} WithDeletedPartitions(users: seq<User>)
    ensures multiset(WithDeleted(users, false)) + multiset(WithDeleted(users, true)) == multiset(users)
    ensures |WithDeleted(users, false)| + |WithDeleted(users, true)| == |users|
  {
    if users != [] {
      var init := users[..|users| - 1];
      WithDeletedPartitions(init);
      assert users == init + [users[|users| - 1]];
    }
  }

  // ----- what the store's unique indexes guarantee -----

  predicate UniqueIds(users: seq<User>) {
    forall i, j :: 0 <= i < j < |users| ==> users[i].id != users[j].id
  }

  predicate UniqueUsernames(users: seq<User>) {
    forall i, j :: 0 <= i < j < |users| ==> users[i].username != users[j].username
  }

  predicate UniqueEmails(users: seq<User>) {
    forall i, j :: 0 <= i < j < |users| ==> users[i].email != users[j].email
  }

  predicate WellFormed(users: seq<User>) {
    UniqueIds(users) && UniqueUsernames(users) && UniqueEmails(users)
  }

  /** `after` is `before` with record `i` replaced by `u` and every other record unchanged. */
  predicate ChangesOnly(before: seq<User>, after: seq<User>, i: int, u: User) {
    && 0 <= i < |before|
    && |after| == |before|
    && after[i] == u
    && forall j :: 0 <= j < |before| && j != i ==> after[j] == before[j]
  }

  /** Replacing a record by one with the same id does not move any id lookup. */
  lemma FindByIdStable(users: seq<User>, i: nat, u: User, id: UserId)
    requires i < |users| && u.id == users[i].id
    ensures FindUser(users[i := u], ById(id)) == FindUser(users, ById(id))
  {
    var users' := users[i := u];
    var r, r' := FindUser(users, ById(id)), FindUser(users', ById(id));
    assert forall j :: 0 <= j < |users| ==> (Matches(users[j], ById(id)) <==> Matches(users'[j], ById(id)));
    if r.Some? && r'.Some? {
      assert !(r.value < r'.value) && !(r'.value < r.value);
    }
  }
}

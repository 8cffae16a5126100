/**
 * The account handlers of controllers/appController.js: the `verifyUser` gate, registration,
 * login, lookups, listings and counts, soft delete / revert, and profile update. Each handler
 * is a pure function from the store (and the request) to the new store and the reply.
 */
module Accounts {
  import opened Wrappers
  import opened Query
  import opened Bcrypt
  import opened UserModel

  /** A user document as sent back with its `password` field removed. */
  datatype PublicUser = PublicUser(
    id: UserId,
    username: string,
    email: string,
    firstName: Option<string>,
    lastName: Option<string>,
    mobileNumber: Option<int>,
    profile: Option<string>,
    isDeleted: bool,
    role: Role)

  function Public(u: User): PublicUser {
    PublicUser(u.id, u.username, u.email, u.firstName, u.lastName, u.mobileNumber, u.profile, u.isDeleted, u.role)
  }

  /** The claims signed into the login token; signing and expiry are not modelled. */
  datatype Claims = Claims(userId: UserId, email: string, username: string, role: Role)

  /** The reply payloads of controllers/appController.js, shared by the account and the reset handlers. */
  datatype Body =
    | Error(message: string)      // { error: "<fixed text>" }
    | Fault                       // { error } carrying an error raised by a library
    | Saved(user: User)           // the whole stored document, password hash included
    | LoginResult(email: string, username: string, role: Role, token: Claims)
    | Profile(publicUser: PublicUser)
    | Users(users: seq<User>)
    | UserCount(count: nat)
    | Message(text: string)
    | OtpCode(code: string)
    | SessionFlag(flag: bool)

  datatype Reply = Reply(status: int, body: Body)

  /** The store after a handler, and its reply. */
  datatype Outcome = Outcome(users: seq<User>, reply: Reply)

  const UserNotFoundGateMsg := "Can't find User!"
  const UniqueUsernameMsg := "Please use a unique username"
  const UniqueEmailMsg := "Please use a unique Email"
  const PasswordRequiredMsg := "Password is required"
  const LoginNotFoundMsg := "Email Or Username not Found"
  const PasswordMismatchMsg := "Password does not Match"
  const InvalidUsernameMsg := "Invalid Username"
  const ProfileNotFoundMsg := "Couldn't Find the User"
  const InvalidUserIdMsg := "Invalid user ID"
  const UserNotFoundMsg := "User not found"
  const MissingUserIdMsg := "User ID not provided...!"
  const UpdatedNotFoundMsg := "Updated user not found...!"
  const InternalErrorMsg := "Internal Server Error"

  /** JavaScript truthiness of an optional string: present and not empty. */
  predicate Truthy(s: Option<string>) {
    s.Some? && s.value != ""
  }

  predicate ExistsActive(users: seq<User>, ident: string) {
    exists i :: 0 <= i < |users| && Matches(users[i], ActiveByIdentifier(ident))
  }

  /**
   * The `verifyUser` middleware: None lets the request through to the next handler;
   * otherwise the reply it sends instead.
   */
  function VerifyUser(users: seq<User>, ident: string): (r: Option<Reply>)
    ensures r.None? <==> ExistsActive(users, ident)
    ensures r.Some? ==> r.value == Reply(404, Error(UserNotFoundGateMsg))
  {
    if FindUser(users, ActiveByIdentifier(ident)).Some? then None
    else Some(Reply(404, Error(UserNotFoundGateMsg)))
  }

  // ----- registration -----

  predicate UsernameTaken(users: seq<User>, username: string) {
    exists i :: 0 <= i < |users| && users[i].username == username
  }

  predicate EmailTaken(users: seq<User>, email: string) {
    exists i :: 0 <= i < |users| && users[i].email == email
  }

  /**
   * `register`. The uniqueness lookups ignore `isDeleted`. The save runs the schema's
   * required validators, which reject an empty username, email or hash.
   * `upload` is the stored path of the uploaded profile image, if any; `freshId` is the id
   * the store assigns to the new document.
   */
  function Register(users: seq<User>, h: Hasher, username: string, email: string,
                    password: Option<string>, upload: Option<string>, freshId: UserId): (o: Outcome)
    ensures UsernameTaken(users, username) ==> o == Outcome(users, Reply(400, Error(UniqueUsernameMsg)))
    ensures !UsernameTaken(users, username) && EmailTaken(users, email) ==>
              o == Outcome(users, Reply(400, Error(UniqueEmailMsg)))
    ensures !UsernameTaken(users, username) && !EmailTaken(users, email) && !Truthy(password) ==>
              o == Outcome(users, Reply(400, Error(PasswordRequiredMsg)))
    ensures o.reply.status == 201 <==>
              && !UsernameTaken(users, username) && !EmailTaken(users, email) && Truthy(password)
              && username != "" && email != "" && h.hash(password.value) != ""
    ensures o.reply.status != 201 ==> o.users == users && o.reply.status in {400, 500}
    ensures o.reply.status == 201 ==>
              && |o.users| == |users| + 1
              && o.users[..|users|] == users
              && var u := o.users[|users|];
              && u.id == freshId && u.username == username && u.email == email
              && u.password == h.hash(password.value)
              && u.profile == Some(upload.GetOr(""))
              && !u.isDeleted && u.role == UserRole
              && u.firstName.None? && u.lastName.None? && u.mobileNumber.None?
              && o.reply.body == Saved(u)
  {
    if FindUser(users, ByUsername(username)).Some? then
      Outcome(users, Reply(400, Error(UniqueUsernameMsg)))
    else if FindUser(users, ByEmail(email)).Some? then
      Outcome(users, Reply(400, Error(UniqueEmailMsg)))
    else if !Truthy(password) then
      Outcome(users, Reply(400, Error(PasswordRequiredMsg)))
    else
      var hashed := h.hash(password.value);
      if username == "" || email == "" || hashed == "" then
        Outcome(users, Reply(500, Fault))
      else
        var u := NewUser(freshId, username, hashed, email, upload.GetOr(""));
        assert (users + [u])[..|users|] == users;
        Outcome(users + [u], Reply(201, Saved(u)))
  }

  /** Registration keeps ids, usernames and emails unique, given a fresh id. */
  lemma RegisterPreservesWellFormed(users: seq<User>, h: Hasher, username: string, email: string,
                                    password: Option<string>, upload: Option<string>, freshId: UserId)
    requires WellFormed(users)
    requires forall i :: 0 <= i < |users| ==> users[i].id != freshId
    ensures WellFormed(Register(users, h, username, email, password, upload, freshId).users)
  {
    // On success the old records are a prefix of the new store and the appended one is fresh.
  }

  // ----- login -----

  /**
   * `login`: the first non-deleted user whose email or username is `ident`. A missing
   * password makes `bcrypt.compare` throw, which the handler turns into a 500.
   */
  function Login(users: seq<User>, h: Hasher, ident: string, password: Option<string>): (r: Reply)
    ensures NoMatch(users, ActiveByIdentifier(ident)) ==> r == Reply(404, Error(LoginNotFoundMsg))
    ensures forall i :: IsFirstMatch(users, i, ActiveByIdentifier(ident)) ==>
              && (password.None? ==> r == Reply(500, Fault))
              && (password.Some? && !h.verifies(password.value, users[i].password) ==>
                    r == Reply(400, Error(PasswordMismatchMsg)))
              && (password.Some? && h.verifies(password.value, users[i].password) ==>
                    r == Reply(200, LoginResult(users[i].email, users[i].username, users[i].role,
                                                Claims(users[i].id, users[i].email, users[i].username, users[i].role))))
    ensures r.status == 200 <==>
              exists i :: IsFirstMatch(users, i, ActiveByIdentifier(ident)) && password.Some?
                          && h.verifies(password.value, users[i].password)
  {
    match FindUser(users, ActiveByIdentifier(ident))
    case None => Reply(404, Error(LoginNotFoundMsg))
    case Some(i) =>
      var u := users[i];
      if password.None? then Reply(500, Fault)
      else if !h.verifies(password.value, u.password) then Reply(400, Error(PasswordMismatchMsg))
      else Reply(200, LoginResult(u.email, u.username, u.role, Claims(u.id, u.email, u.username, u.role)))
  }

  /** Behind `verifyUser`, login's own not-found branch is never reached: the gate has the same filter. */
  lemma LoginGateAgrees(users: seq<User>, h: Hasher, ident: string, password: Option<string>)
    ensures VerifyUser(users, ident).Some? <==> Login(users, h, ident, password).status == 404
  {
    if VerifyUser(users, ident).None? {
      var i := FindUser(users, ActiveByIdentifier(ident)).value;
      assert IsFirstMatch(users, i, ActiveByIdentifier(ident));
    }
  }

  /**
   * A user who has just registered can log in by username with that password, provided no
   * earlier active user has that string as an email (login matches email OR username and
   * takes the first hit).
   */
  lemma RegisterThenLogin(users: seq<User>, h: Hasher, username: string, email: string,
                          password: string, upload: Option<string>, freshId: UserId)
    requires Sound(h)
    requires forall i :: 0 <= i < |users| ==> users[i].email != username
    requires Register(users, h, username, email, Some(password), upload, freshId).reply.status == 201
    ensures var after := Register(users, h, username, email, Some(password), upload, freshId).users;
            Login(after, h, username, Some(password)) ==
              Reply(200, LoginResult(email, username, UserRole, Claims(freshId, email, username, UserRole)))
  {
    var after := Register(users, h, username, email, Some(password), upload, freshId).users;
    var n := |users|;
    assert forall j :: 0 <= j < n ==> after[j] == users[j];
    assert !UsernameTaken(users, username);
    assert forall j :: 0 <= j < n ==> !Matches(after[j], ActiveByIdentifier(username));
    assert IsFirstMatch(after, n, ActiveByIdentifier(username));
    assert h.verifies(password, h.hash(password));
  }

  // ----- lookups, listings and counts -----

  /** `getUser`: by email or username among non-deleted users; the reply omits the password. */
  function GetUser(users: seq<User>, ident: string): (r: Reply)
    ensures ident == "" ==> r == Reply(501, Error(InvalidUsernameMsg))
    ensures ident != "" && NoMatch(users, ActiveByIdentifier(ident)) ==> r == Reply(404, Error(ProfileNotFoundMsg))
    ensures forall i :: ident != "" && IsFirstMatch(users, i, ActiveByIdentifier(ident)) ==>
              r == Reply(200, Profile(Public(users[i])))
  {
    if ident == "" then Reply(501, Error(InvalidUsernameMsg))
    else match FindUser(users, ActiveByIdentifier(ident))
      case None => Reply(404, Error(ProfileNotFoundMsg))
      case Some(i) => Reply(200, Profile(Public(users[i])))
  }

  /** `getUserById`: by id with no `isDeleted` filter; the reply omits the password. */
  function GetUserById(users: seq<User>, id: IdArg): (r: Reply)
    ensures id.NoId? ==> r == Reply(400, Error(InvalidUserIdMsg))
    ensures id.BadId? ==> r == Reply(500, Error(InternalErrorMsg))
    ensures id.Id? && NoMatch(users, ById(id.id)) ==> r == Reply(404, Error(UserNotFoundMsg))
    ensures forall i :: id.Id? && IsFirstMatch(users, i, ById(id.id)) ==> r == Reply(200, Profile(Public(users[i])))
  {
    match id
    case NoId => Reply(400, Error(InvalidUserIdMsg))
    case BadId => Reply(500, Error(InternalErrorMsg))
    case Id(x) =>
      match FindUser(users, ById(x))
      case None => Reply(404, Error(UserNotFoundMsg))
      case Some(i) => Reply(200, Profile(Public(users[i])))
  }

  /** `getAllUser`: every non-deleted user, in store order, sent whole (hashes included). */
  function GetAllUser(users: seq<User>): (r: Reply)
    ensures r.status == 201 && r.body.Users?
    ensures forall u :: u in r.body.users <==> u in users && !u.isDeleted
  {
    Reply(201, Users(WithDeleted(users, false)))
  }

  /** `getAllDeletedUser`: every soft-deleted user, in store order. */
  function GetAllDeletedUser(users: seq<User>): (r: Reply)
    ensures r.status == 201 && r.body.Users?
    ensures forall u :: u in r.body.users <==> u in users && u.isDeleted
  {
    Reply(201, Users(WithDeleted(users, true)))
  }

  /** `getUsersCount`: the number of users `getAllUser` lists. */
  function GetUsersCount(users: seq<User>): (r: Reply)
    ensures r.status == 201
    ensures r.body == UserCount(|GetAllUser(users).body.users|)
  {
    Reply(201, UserCount(|WithDeleted(users, false)|))
  }

  /** `getDeleteUserCount`: the number of users `getAllDeletedUser` lists. */
  function GetDeletedUserCount(users: seq<User>): (r: Reply)
    ensures r.status == 201
    ensures r.body == UserCount(|GetAllDeletedUser(users).body.users|)
  {
    Reply(201, UserCount(|WithDeleted(users, true)|))
  }

  /** The two listings split the store, and the two counts add up to its size. */
  lemma ListingsPartitionStore(users: seq<User>)
    ensures multiset(GetAllUser(users).body.users) + multiset(GetAllDeletedUser(users).body.users) == multiset(users)
    ensures GetUsersCount(users).body.count + GetDeletedUserCount(users).body.count == |users|
  {
    WithDeletedPartitions(users);
  }

  // ----- soft delete and revert -----

  /** The shared body of `deleteUser` (flag true) and `revertDeletedUser` (flag false). */
  function SetUserDeleted(users: seq<User>, id: IdArg, flag: bool): (o: Outcome)
    ensures id.NoId? ==> o == Outcome(users, Reply(400, Error(InvalidUserIdMsg)))
    ensures id.BadId? ==> o == Outcome(users, Reply(500, Error(InternalErrorMsg)))
    ensures id.Id? && NoMatch(users, ById(id.id)) ==> o == Outcome(users, Reply(404, Error(UserNotFoundMsg)))
    ensures forall i :: id.Id? && IsFirstMatch(users, i, ById(id.id)) ==>
              && ChangesOnly(users, o.users, i, users[i].(isDeleted := flag))
              && o.reply == Reply(200, Profile(Public(o.users[i])))
  {
    match id
    case NoId => Outcome(users, Reply(400, Error(InvalidUserIdMsg)))
    case BadId => Outcome(users, Reply(500, Error(InternalErrorMsg)))
    case Id(x) =>
      match FindUser(users, ById(x))
      case None => Outcome(users, Reply(404, Error(UserNotFoundMsg)))
      case Some(i) =>
        var u := users[i].(isDeleted := flag);
        Outcome(users[i := u], Reply(200, Profile(Public(u))))
  }

  /** `deleteUser` */
  function DeleteUser(users: seq<User>, id: IdArg): (o: Outcome)
    ensures o == SetUserDeleted(users, id, true)
    ensures forall i :: id.Id? && IsFirstMatch(users, i, ById(id.id)) ==>
              o.users[i].isDeleted && o.reply.status == 200
  {
    SetUserDeleted(users, id, true)
  }

  /** `revertDeletedUser` */
  function RevertDeletedUser(users: seq<User>, id: IdArg): (o: Outcome)
    ensures o == SetUserDeleted(users, id, false)
    ensures forall i :: id.Id? && IsFirstMatch(users, i, ById(id.id)) ==>
              !o.users[i].isDeleted && o.reply.status == 200
  {
    SetUserDeleted(users, id, false)
  }

  /** Setting the flag twice is the same as setting it once: delete and revert are idempotent. */
  lemma {:induction false} SetUserDeletedIdempotent(users: seq<User>, id: IdArg, flag: bool)
    ensures var once := SetUserDeleted(users, id, flag);
            SetUserDeleted(once.users, id, flag) == once
  {
    if id.Id? {
      match FindUser(users, ById(id.id))
      case None =>
      case Some(i) =>
        FindByIdStable(users, i, users[i].(isDeleted := flag), id.id);
    }
  }

  /** Reverting a user who was active before the delete gives back the original store. */
  lemma {:induction false} RevertUndoesDelete(users: seq<User>, x: UserId)
    requires forall i :: IsFirstMatch(users, i, ById(x)) ==> !users[i].isDeleted
    ensures RevertDeletedUser(DeleteUser(users, Id(x)).users, Id(x)).users == users
  {
    match FindUser(users, ById(x))
    case None =>
    case Some(i) =>
      FindByIdStable(users, i, users[i].(isDeleted := true), x);
      // Writing users[i] back over the flagged record restores the store.
  }

  /** After a soft delete the user no longer appears in the active listing. */
  lemma DeletedUserNotListed(users: seq<User>, x: UserId)
    requires UniqueIds(users)
    ensures forall u :: u in GetAllUser(DeleteUser(users, Id(x)).users).body.users ==> u.id != x
  {
    var after := DeleteUser(users, Id(x)).users;
    match FindUser(users, ById(x))
    case None =>
    case Some(i) =>
      forall u | u in GetAllUser(after).body.users ensures u.id != x {
        var j :| 0 <= j < |after| && after[j] == u;
        if j != i {
          assert after[j] == users[j];
        }
      }
  }

  // ----- profile update -----

  /**
   * The fields an update body may set; absent fields (None) are left alone. Fields outside
   * the schema are not modelled.
   */
  datatype UserPatch = UserPatch(
    username: Option<string>,
    password: Option<string>,
    email: Option<string>,
    firstName: Option<string>,
    lastName: Option<string>,
    mobileNumber: Option<int>,
    profile: Option<string>,
    isDeleted: Option<bool>,
    role: Option<Role>)

  function Override<T>(given: Option<T>, current: Option<T>): Option<T> {
    if given.Some? then given else current
  }

  /** `updateOne({_id}, body)` on one document. */
  function ApplyPatch(u: User, p: UserPatch): User {
    User(u.id,
         p.username.GetOr(u.username),
         p.password.GetOr(u.password),
         p.email.GetOr(u.email),
         Override(p.firstName, u.firstName),
         Override(p.lastName, u.lastName),
         Override(p.mobileNumber, u.mobileNumber),
         Override(p.profile, u.profile),
         p.isDeleted.GetOr(u.isDeleted),
         p.role.GetOr(u.role))
  }

  /** The store's unique indexes refuse `u` at position `i` if another user has its username or email. */
  predicate ClashesWithOthers(users: seq<User>, i: int, u: User) {
    exists j :: 0 <= j < |users| && j != i && (users[j].username == u.username || users[j].email == u.email)
  }

  /** The body `updateOne` receives: an uploaded image, when present, overrides the body's `profile`. */
  function UpdateBody(patch: UserPatch, upload: Option<string>): UserPatch {
    if upload.Some? then patch.(profile := upload) else patch
  }

  /**
   * `updateUser` (metadata part). The update runs no schema validators and does not hash a
   * supplied password; only the unique indexes can refuse it.
   */
  function UpdateUser(users: seq<User>, id: IdArg, patch: UserPatch, upload: Option<string>): (o: Outcome)
    ensures id.NoId? ==> o == Outcome(users, Reply(401, Error(MissingUserIdMsg)))
    ensures id.BadId? ==> o == Outcome(users, Reply(500, Error(InternalErrorMsg)))
    ensures id.Id? && NoMatch(users, ById(id.id)) ==> o == Outcome(users, Reply(404, Error(UpdatedNotFoundMsg)))
    ensures o.reply.status != 201 ==> o.users == users
    ensures forall i :: id.Id? && IsFirstMatch(users, i, ById(id.id)) ==>
              var u := users[i];
              var v := ApplyPatch(u, UpdateBody(patch, upload));
              && (ClashesWithOthers(users, i, v) ==> o == Outcome(users, Reply(500, Error(InternalErrorMsg))))
              && (!ClashesWithOthers(users, i, v) ==>
                    && ChangesOnly(users, o.users, i, v)
                    && o.reply == Reply(201, Saved(v))
                    && v.id == u.id
                    && v.profile == (if upload.Some? then upload else Override(patch.profile, u.profile))
                    && (patch.username.None? ==> v.username == u.username)
                    && (patch.email.None? ==> v.email == u.email)
                    && (patch.password.None? ==> v.password == u.password)
                    && (patch.password.Some? ==> v.password == patch.password.value)
                    && (patch.isDeleted.None? ==> v.isDeleted == u.isDeleted)
                    && (patch.role.None? ==> v.role == u.role))
  {
    match id
    case NoId => Outcome(users, Reply(401, Error(MissingUserIdMsg)))
    case BadId => Outcome(users, Reply(500, Error(InternalErrorMsg)))
    case Id(x) =>
      match FindUser(users, ById(x))
      case None => Outcome(users, Reply(404, Error(UpdatedNotFoundMsg)))
      case Some(i) =>
        var v := ApplyPatch(users[i], UpdateBody(patch, upload));
        if ClashesWithOthers(users, i, v) then Outcome(users, Reply(500, Error(InternalErrorMsg)))
        else Outcome(users[i := v], Reply(201, Saved(v)))
  }

  /** A profile update keeps ids, usernames and emails unique. */
  lemma UpdateUserPreservesWellFormed(users: seq<User>, id: IdArg, patch: UserPatch, upload: Option<string>)
    requires WellFormed(users)
    ensures WellFormed(UpdateUser(users, id, patch, upload).users)
  {
    var o := UpdateUser(users, id, patch, upload);
    if o.reply.status == 201 {
      var i := FindUser(users, ById(id.id)).value;
      assert IsFirstMatch(users, i, ById(id.id));
      assert !ClashesWithOthers(users, i, o.users[i]);
      assert forall j :: 0 <= j < |users| && j != i ==> o.users[j] == users[j];
    }
  }
}

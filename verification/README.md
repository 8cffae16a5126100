# codebox-server, modelled in Dafny

This project models the request handlers of the codebox-server backend. That backend is an Express
application over two MongoDB collections: user accounts and stored code snippets. The model
replaces the database with an in-memory sequence of records, in natural (insertion) order. Each
handler becomes a pure function from the store and the request to the new store and the reply.
The reply is an HTTP status plus a payload.

Modules, one per file:

- `Wrappers`: `Option`.
- `Query`: `IdArg`, the three shapes a request id takes.
  - `NoId` is a missing id. The account handlers test `!id`, so for them an empty id is `NoId`
    as well.
  - `BadId` is a string that is not a valid ObjectId. Mongoose raises a CastError for it, and
    the handler answers 500. The snippet handlers hand the id straight to Mongoose, so for them
    an empty id is `BadId`.
  - `Id(n)` is a well-formed id.
- `JsText`: JavaScript's `parseInt` and the default string order of `Array.prototype.sort`.
- `Bcrypt`: the password hasher, a record of two functions (`hash` and `verifies`). The ghost
  predicate `Sound` says that every hash verifies against its own password and that no hash is
  empty. Lemmas that need this take `Sound` as a precondition.
- `UserModel`: the User document and the `findOne` / `find` filters the controllers use.
- `Accounts`: the account handlers.
  - `verifyUser`, `register`, `login`, `getUser`, `getUserById`;
  - the listings and the counts;
  - soft delete and revert;
  - `updateUser`.
- `PasswordReset`: the reset state machine.
  - The pair (`OTP`, `resetSession`) that `app.locals` holds becomes a value that each handler
    takes and returns.
  - `Run` replays a history of requests.
  - `SessionIffVerifiedSinceReset` characterises the session flag over any history.
- `UserCodeModel`: the UserCode document (a snippet) and its lookups.
- `Snippets`: the snippet handlers:
  - `createCode`, `getAllCodes`, `getCodeById`;
  - `getCodesByUserId`, which sorts newest first;
  - `updateCode`, `deleteCode`, `revertDeletedCode`.
- `Grouping`: the grouped listings `getAllCodesByUsername` and
  `getOnlyDeletedCodesByUsername`.
  - The input is the fetched list with each snippet's owner joined in.
  - `Select` is the reference definition of one group. `GroupedBy` is the whole specification
    of the result, and `GroupedByUnique` shows that it determines the result.
  - `ListingMatchesStore` ties the listing back to the two stores.

A note on the order of the grouped listings. The query at
controllers/userCodeController.js:35 carries the comment "Sort by username ascending and
updatedAt descending". The key `"user.username"` is evaluated on the stored ObjectId, before
`populate` joins the owner in, so it orders nothing. Only `updatedAt: -1` orders the fetched
list. The grouping then keys the snippets by username and sorts the keys itself, so the
username order still holds in the result. `Grouping.GroupsKeepFetchOrder` states the
within-group order that the newest-first fetch gives.

## Model

| member | source | states |
|---|---|---|
| UserModel.FindUser | controllers/appController.js:85-88 | `findOne` yields the position of the first record the filter matches, or reports that no record matches |
| UserModel.WithDeleted | controllers/appController.js:152-168 | `find({isDeleted})` holds exactly the records with that flag, and never more records than the store |
| UserModel.WithDeletedPartitions | controllers/appController.js:152-186 | the active and deleted selections together are the store, as a multiset and by count |
| UserModel.FindByIdStable | controllers/appController.js:226-230 | rewriting one record without changing its id leaves every lookup by id where it was |
| Accounts.VerifyUser | controllers/appController.js:18-34 | the gate lets the request through iff some non-deleted user has that email or username, and otherwise answers 404 "Can't find User!" |
| Accounts.Register | controllers/appController.js:36-79 | fixed rejection order with the store unchanged: taken username (400), then taken email (400), then missing or empty password (400); both lookups include deleted users; 201 iff none of these apply and the required fields are non-empty; success appends exactly one user with the hashed password, profile = upload path or "", not deleted, role "user"; any failure leaves the store unchanged |
| Accounts.RegisterPreservesWellFormed | models/User.model.js:5-19 | registration with a fresh id keeps ids, usernames and emails unique across the store |
| Accounts.Login | controllers/appController.js:81-124 | no non-deleted user matches by email or username: 404; for the first match, a failed password check gives 400 and a passing one gives 200 with that user's email, username and role and the claims {userId, email, username, role}; a missing password gives 500; 200 iff the first match's password verifies |
| Accounts.LoginGateAgrees | controllers/appController.js:85-92 | login answers 404 exactly when the `verifyUser` gate in front of it refuses, so behind the gate that branch is unreachable |
| Accounts.RegisterThenLogin | controllers/appController.js:57-70 | with a sound hasher, a user who has just registered, under a username that is no existing user's email, logs in by username with the same password and gets the claims of the new record (without that condition `findOne` by email or username would find the other user first) |
| Accounts.GetUser | controllers/appController.js:126-150 | empty identifier gives 501; no non-deleted match gives 404; otherwise 200 with the first match's public fields (no password) |
| Accounts.GetUserById | controllers/appController.js:188-213 | missing id gives 400, malformed id 500, unknown id 404; otherwise 200 with the user's public fields, deleted users included |
| Accounts.GetAllUser | controllers/appController.js:152-159 | 201 with exactly the non-deleted users |
| Accounts.GetAllDeletedUser | controllers/appController.js:161-168 | 201 with exactly the deleted users |
| Accounts.GetUsersCount | controllers/appController.js:170-177 | 201 with the length of the active listing |
| Accounts.GetDeletedUserCount | controllers/appController.js:179-186 | 201 with the length of the deleted listing |
| Accounts.ListingsPartitionStore | controllers/appController.js:152-186 | the two listings partition the store by `isDeleted`, and the two counts sum to the number of users |
| Accounts.SetUserDeleted | controllers/appController.js:215-279 | missing id gives 400, malformed id 500, unknown id 404, each with the store unchanged; otherwise only that user's `isDeleted` changes and the reply is 200 with the updated user minus the password |
| Accounts.DeleteUser | controllers/appController.js:215-246 | a found user ends deleted and the reply is 200 |
| Accounts.RevertDeletedUser | controllers/appController.js:248-279 | a found user ends active and the reply is 200 |
| Accounts.SetUserDeletedIdempotent | controllers/appController.js:226-230 | a second delete (or a second revert) with the same id changes nothing and gives the same reply |
| Accounts.RevertUndoesDelete | controllers/appController.js:259-263 | reverting an active user that was just deleted restores the original store |
| Accounts.DeletedUserNotListed | controllers/appController.js:226-230 | after a delete, no user with that id appears in the active listing |
| Accounts.UpdateUser | controllers/appController.js:281-322 | missing id gives 401, malformed id 500, unknown id 404, each with the store unchanged; otherwise the supplied fields overwrite the stored ones, an upload overrides the body's profile, the password is stored as supplied (not hashed), omitted fields stay, only that user changes, and the reply is 201 with the new record; a username or email clash with another user gives 500 with the store unchanged |
| Accounts.UpdateUserPreservesWellFormed | controllers/appController.js:304-312 | a profile update keeps ids, usernames and emails unique |
| JsText.ParseInt | controllers/appController.js:335 | `parseInt` of a non-empty string of decimal digits is the number the digits spell, leading zeros included |
| JsText.ParseSkipsWhiteSpace | controllers/appController.js:335 | leading white space does not change what `parseInt` yields |
| JsText.ParseStopsAtNonDigit | controllers/appController.js:335 | `parseInt` ignores whatever follows the digits (unless a lone "0" is followed by `x`, which selects hexadecimal) |
| JsText.ValueOfLeadingZero | controllers/appController.js:335 | a leading zero does not change the value of a digit string |
| PasswordReset.GenerateOtp | controllers/appController.js:324-331 | the new six-digit code replaces any earlier OTP, the session flag is untouched, and the reply is 201 with the code |
| PasswordReset.SixDigitParse | controllers/appController.js:335 | two six-digit codes are numerically equal under `parseInt` iff they are the same string |
| PasswordReset.SixDigitsCompare | controllers/appController.js:335 | for a stored six-digit OTP and a supplied six-digit code, the numeric comparison succeeds iff the strings are equal |
| PasswordReset.VerifyOtp | controllers/appController.js:333-341 | success (201) clears the OTP and opens the session; failure (400) leaves the state unchanged; no stored OTP or no supplied code always fails (NaN equals nothing); for a stored six-digit OTP and any supplied code, success iff `parseInt` of the code is the OTP's number; when both are six digits, success iff the codes are equal |
| PasswordReset.CreateResetSession | controllers/appController.js:343-348 | 201 with the flag iff the session is open, 440 otherwise; the state never changes |
| PasswordReset.ResetPassword | controllers/appController.js:350-382 | closed session: 440 with nothing changed; no user by email or username (deleted ones included): 404 with the session still open; missing password: 500 with nothing changed; otherwise 201, the session closes, and exactly one record (the first with the found user's username; the found user itself when usernames are unique) gets the new hash; 201 iff the session is open, a user matches and a password is given |
| PasswordReset.ResetThenPasswordVerifies | controllers/appController.js:367-372 | with a sound hasher and unique usernames, the new password verifies against the found user's stored hash |
| PasswordReset.GenerateThenVerifyOnce | controllers/appController.js:324-341 | generate(c) returns c; verify(c) then succeeds once, and a second verify(c) fails because the OTP was cleared |
| PasswordReset.LeadingZerosIgnored | controllers/appController.js:335 | the comparison is numeric: any stored code accepts itself with one or two extra leading zeros |
| PasswordReset.LooseCodesAccepted | controllers/appController.js:335 | any stored code accepts itself with a leading space, and with any non-digit tail ("123456x" for "123456") |
| PasswordReset.SessionIffVerifiedSinceReset | controllers/appController.js:333-375 | from the initial state, over any history of requests, the session is open iff some OTP verification succeeded and no password reset has succeeded since |
| PasswordReset.ResetNeedsVerifiedOtp | controllers/appController.js:350-375 | a reset that succeeds is preceded by a successful OTP verification that no earlier successful reset used up |
| UserCodeModel.FindSnippet | controllers/userCodeController.js:100-104 | `findById` yields the position of the first snippet with that id, or reports that there is none |
| UserCodeModel.SnippetsWithDeleted | controllers/userCodeController.js:21-24 | `find({isDeleted})` holds exactly the snippets with that flag, each as many times as it is stored |
| UserCodeModel.SnippetListingsPartition | controllers/userCodeController.js:21-24 | the live and the deleted selections together are the snippet store, as a multiset and by count |
| UserCodeModel.ActiveOwnedBy | controllers/userCodeController.js:110-114 | `find({user, isDeleted: false})` holds exactly the owner's non-deleted snippets, each as many times as it is stored |
| Snippets.CreateCode | controllers/userCodeController.js:3-19 | a malformed owner id gives 500 with nothing stored; otherwise exactly one snippet is appended, with the supplied fields, the owner from the query (unset when absent, never checked to exist), not deleted, and stamped now, and the reply is 201 with that snippet |
| Snippets.CreateThenGetById | controllers/userCodeController.js:7-15 | looking up a freshly created snippet by its id returns that snippet |
| Snippets.GetAllCodes | controllers/userCodeController.js:21-28 | 200 with exactly the non-deleted snippets, each as many times as it is stored |
| Snippets.GetCodeById | controllers/userCodeController.js:100-108 | malformed id gives 500; a missing or unknown id gives 200 with null; otherwise 200 with the snippet, deleted or not |
| Snippets.SortNewestFirst | controllers/userCodeController.js:113-114 | `.sort({updatedAt: -1})` is a permutation of its input, ordered by `updatedAt` descending |
| Snippets.GetCodesByUserId | controllers/userCodeController.js:110-119 | malformed id gives 500; otherwise 200 with exactly the owner's non-deleted snippets (a permutation of them), newest first |
| Snippets.UpdateCode | controllers/userCodeController.js:121-139 | malformed id gives 500; a missing or unknown id gives 404 "Code not found" with the store unchanged; otherwise only the supplied code, title and description change (and `updatedAt`), while language, owner, stored username and `isDeleted` stay, only that snippet changes, and the reply is 200 with it |
| Snippets.SetCodeDeleted | controllers/userCodeController.js:141-167 | malformed id gives 500; a missing or unknown id gives 200 with null and the store unchanged; otherwise only that snippet's flag (and `updatedAt`) changes and the reply is 200 with it |
| Snippets.DeleteCode | controllers/userCodeController.js:141-153 | delete never answers 404: it is 200 or, for a malformed id, 500 |
| Snippets.RevertDeletedCode | controllers/userCodeController.js:155-167 | revert never answers 404: it is 200 or, for a malformed id, 500 |
| Snippets.SetCodeDeletedIdempotent | controllers/userCodeController.js:144-148 | repeating a delete (or a revert) at the same time changes nothing more |
| Snippets.RevertUndoesDeleteCode | controllers/userCodeController.js:158-162 | reverting a live snippet that was just deleted restores the store, apart from `updatedAt` |
| Grouping.Collect | controllers/userCodeController.js:42-51 | as intended (see Findings): the `forEach` fails iff some fetched snippet's owner is null; otherwise every key holds exactly the live-owner snippets of that username in fetch order, keys appear once, and no key is empty |
| Grouping.SortKeys | controllers/userCodeController.js:54 | `Object.keys(...).sort()` is a permutation of the keys into strictly ascending order |
| Grouping.GroupedListing | controllers/userCodeController.js:30-63 | as intended (see Findings): 500 iff a fetched snippet's owner does not resolve; otherwise 200 with groups whose keys ascend strictly, each holding exactly its owner's live snippets in fetch order, never empty, with a group for every username that has one |
| Grouping.GroupKeysDistinct | controllers/userCodeController.js:54-57 | no username heads two groups |
| Grouping.EachVisibleInExactlyOneGroup | controllers/userCodeController.js:42-51 | a fetched snippet with a live owner lies in the group of the owner's username and in no other group |
| Grouping.OnlyVisibleGrouped | controllers/userCodeController.js:43-50 | every grouped snippet was fetched with a live owner of the group's username |
| Grouping.GroupsAreSubsequences | controllers/userCodeController.js:42-51 | each group is an order-preserving subsequence of the fetched list |
| Grouping.GroupsKeepFetchOrder | controllers/userCodeController.js:33-51 | when the fetch is newest first, so is every group |
| Grouping.GroupedByUnique | controllers/userCodeController.js:53-57 | two results that both meet the grouping specification are equal |
| Grouping.Fetch | controllers/userCodeController.js:33-34 | the query joined with owners: exactly the snippets with that flag, each paired with its owner looked up by id, each pair as many times as the snippet is stored |
| Grouping.FaultIffDangling | controllers/userCodeController.js:43 | the fetched list has an unresolved owner iff some matching stored snippet's owner reference does not resolve |
| Grouping.GroupedFromStore | models/UserCode.model.js:17-24 | every listed snippet is a stored snippet with the requested flag whose owner resolves, is live, and has the group's username as its current name, whatever the snippet's own `username` field says |
| Grouping.ListingMatchesStore | controllers/userCodeController.js:30-63 | in whatever order the store returns the query: 500 iff a matching snippet's owner does not resolve; otherwise exactly the matching snippets with a live owner are listed, each under that owner's current username |
| Grouping.DeletedListingKeepsLiveOwners | controllers/userCodeController.js:65-98 | when every deleted snippet's owner reference resolves, the deleted-snippets listing answers 200 and shows a deleted snippet iff its owner is not deleted |
| Grouping.CollectAsWritten | controllers/userCodeController.js:42-51 | the loop as written also fails on the first live owner whose username is an Object.prototype property name; otherwise it agrees with `Collect` |
| Grouping.GroupedListingAsWritten | controllers/userCodeController.js:30-63 | the handler as written answers 500 whenever a live owner has such a name, and otherwise agrees with `GroupedListing` |
| Grouping.PrototypeNameBreaksListing | controllers/userCodeController.js:45-48 | for one live user named "toString", the handler as written answers 500; the intended listing has the single group "toString" |

## Left out

- The mailer, the server bootstrap, the database connection, the process-manager configuration
  and the route table are wiring or I/O with no logic of their own.
- The `auth` and `localVariables` middlewares are not part of this model. The reset state
  starts with no OTP and no open session.
- Uploads and file deletion are file-system side effects: the multer storage, the
  `Date.now()` file names and the `fs.unlinkSync` of the old profile image. An upload enters
  the model only as the stored path.
- bcrypt, JWT signing and expiry, and the OTP generator are foreign libraries.
  - The hasher is a parameter.
  - The token is its claims record.
  - The generated code is a parameter constrained to six digits.
- Query internals are left out, namely `populate` and the ineffective sort on
  `"user.username"`. The fetched list is an input to the grouping, and `ListingMatchesStore`
  relates it to the store up to order.
- Grouping.GroupedListing: the result is a sequence of (username, snippets) pairs in sorted
  order. The JSON object the handler sends is not modelled. When that object is serialised,
  integer-like keys such as "9" and "10" come first, in numeric order.
- JsText.StrLess compares strings by code point. JavaScript's default sort compares UTF-16
  code units, so the two orders differ only for characters outside the Basic Multilingual
  Plane.
- JsText.ParseInt works on unbounded integers. It does not model the loss of precision above
  2^53 or the `Infinity` that very long digit strings produce.
- Concurrency is left out: the race on the shared OTP and session state, and unique-index
  enforcement under concurrent writes. Every request is handled atomically and in sequence.
- The timestamps are simplified.
  - Users carry no timestamps.
  - Snippets keep only `updatedAt`, with the clock as a parameter (`now`).
- Accounts.UpdateUser: some Mongoose behaviour on `updateOne` is not modelled.
  - Fields outside the schema are not represented; Mongoose's strict mode drops them.
  - The role enum is not validated on `updateOne`, but `Role` can only hold "user" or "admin".
  - A body value that fails to cast, such as a non-numeric `mobileNumber`, gives a 500 that is
    not modelled.
- Identifiers that are not plain strings are not modelled. Examples are query operators sent
  as JSON objects, and an undefined `username` or `email` in a register body.
- The success message texts (such as "Login Successful...!") and the error payloads that carry
  library exceptions (`Fault`, `CodeFault`) are not compared.
- The model's store cannot fail for reasons outside the request (a lost connection, say);
  CastErrors and unique-index clashes are modelled. So these catch branches are left out:
  - `verifyUser`'s "Authentication Error" (404) at controllers/appController.js:31-33, reached
    when its `findOne` throws.
  - `resetPassword`'s inner 500 at controllers/appController.js:376-378 for a failing `findOne`
    or `updateOne` (its 500 for a missing password, thrown by `bcrypt.hash`, is modelled).
  - `resetPassword`'s outer "Unauthorized" (401) at controllers/appController.js:379-381. Every
    store and bcrypt failure is caught by the inner handler, so only a throw while reading
    `req.app.locals` or destructuring `req.body` reaches it; `express.json()` always supplies a
    body, so the model has no input that does.

## Findings

| source | as written | input that shows it | evidently intended | confidence | as-written member | corrected member |
|---|---|---|---|---|---|---|
| controllers/userCodeController.js:45-48 | `if (!codesByUser[username])` tests a plain object literal, which inherits properties such as `toString`, `constructor` and `__proto__`; for such a username the test is false before anything was stored, and `codesByUser[username].push(code)` throws a TypeError, so the whole listing answers 500 (the same code is at lines 80-83) | one live user named "toString" owning one non-deleted snippet | the listing answers 200 with one group "toString" holding that snippet | not executed | Grouping.GroupedListingAsWritten (counterexample: Grouping.PrototypeNameBreaksListing) | Grouping.GroupedListing |

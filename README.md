# Friend requests, sign-up and the access guard of a language-exchange backend

This Dafny project models the core of the backend of a language-exchange
social application. It covers three parts.

- **The friend-request state machine** of the user controller. A store holds
  the user documents (each with its `friends` array and `isOnboarded` flag)
  and the friend-request documents (`sender`, `recipient`, `status` pending or
  accepted). `sendFriendRequest` runs its four guards in order and then
  appends one pending request. `acceptFriendRequest` checks that the request
  exists and that the caller is its recipient. It then marks the request
  accepted and adds each user to the other's `friends`, with add-to-set
  semantics. The four list endpoints are filters over the store.
- **The auth controller.** Signup validates in a fixed order (required
  fields, password length, the e-mail pattern, duplicate e-mail) and then
  creates the user. Login has three failure outcomes. Onboarding reports its
  `missingFields` list and then updates the caller's profile. The session
  cookie's `maxAge` is computed from the token lifetime.
- **The access guard `protectRoute`.** It is a total function from the
  cookie, the outcome of token verification and the user collection to either
  a 401 rejection or the principal, which is the user without the password.

Layout:

- `store.dfy` (module `Store`) holds the documents and the storage queries.
  `FirstWhere` stands for `findOne`/`findById` and `Filter` for `find`, both
  in natural order. It also holds `$addToSet` and the class `Database`, whose
  fields the controllers update in place. The same file defines the
  consistency invariant `Consistent`, which every operation keeps:
  - user ids and e-mails are unique and every `friends` array is free of
    duplicates;
  - every request joins two different existing users;
  - request ids are unique and each unordered pair has at most one request;
  - each `friends` entry is backed by an accepted request, and each accepted
    request is reflected in both users' `friends`.
- `user_controller.dfy` (module `UserController`) holds the user controller.
- `auth_controller.dfy` (module `AuthController`) holds the auth controller.
- `auth_middleware.dfy` (module `AuthMiddleware`) holds the access guard.
- `http.dfy` (module `Http`) holds the reply type: a status with a body, or a
  status with a message.

Some behaviour of the code is worth stating outright, because a reader
might expect otherwise:

- Login tells the two credential failures apart. Both are 401, but an unknown
  e-mail gives "Invalid email" and a wrong password gives "Invalid password".
  A caller can therefore tell whether an e-mail is registered.
- The already-friends guard of `sendFriendRequest` looks for the sender in the
  *recipient's* `friends`. Under the invariant, friendship is symmetric, so
  this is the same as looking in the sender's list (`SecondSendIsRefused` uses
  that).
- `acceptFriendRequest` does not check the status. Accepting an accepted
  request succeeds again and changes nothing (`AcceptIsIdempotent`).
- `getFriendRequests` returns the caller's incoming requests split into
  pending and accepted. It does not return only the pending ones.
- E-mails are compared exactly, with no case folding.
- Recommendations do not exclude current friends (see "Left out").

The principal `me` of the user-controller operations is the user the guard
attached to the request. `SendFriendRequest` therefore requires that `me` is a
stored user.

## Model

| member | source | states |
|---|---|---|
| `Store.FirstWhere` | backend/src/controllers/user.controller.js:58-64 | `findOne`/`findById` answer with the first matching document in natural order, or with nothing exactly when no document matches |
| `Store.Filter` | backend/src/controllers/user.controller.js:124-133 | `find` returns exactly the matching documents, as a subsequence of the collection (order kept), each matching element as many times as it occurs and no other element |
| `Store.FindUser` | backend/src/controllers/user.controller.js:49 | `User.findById` finds a document exactly when a user with that id exists, and the one found has that id |
| `Store.FindByEmail` | backend/src/controllers/auth.controller.js:24 | `User.findOne({ email })` finds a document exactly when some user has that e-mail, and the one found has it |
| `Store.AddFriend` | backend/src/controllers/user.controller.js:103-110 | `User.findByIdAndUpdate(who, { $addToSet: { friends: f } })` changes only the `friends` of the user with id `who`: it then holds exactly its old entries (kept as a prefix) and `f`, and stays duplicate-free; every other user is unchanged |
| `Store.AddToSet` | backend/src/controllers/user.controller.js:102-106 | `$addToSet` leaves `x` in the array, adds nothing else, keeps the existing entries as a prefix, keeps the array duplicate-free, and changes nothing when `x` is already present |
| `Store.ProfileEditPreservesConsistency` | backend/src/controllers/auth.controller.js:154-165 | a profile update that keeps ids, e-mails and `friends` keeps the store consistent |
| `UserController.RecommendedUsers` | backend/src/controllers/user.controller.js:8-14 | recommendations are exactly the onboarded users other than the caller, in natural order; the caller is never included |
| `UserController.Populate` | backend/src/controllers/user.controller.js:26 | every profile populated from `friends` is the selected fields of the user document of one of the ids; when every id resolves there is one profile per id, in order |
| `UserController.PopulateFollowsResolvedIds` | backend/src/controllers/user.controller.js:26 | in general, populating yields one profile for each id that has a user document, in the order of the ids, and drops the ids that have none |
| `UserController.MyFriends` | backend/src/controllers/user.controller.js:24-35 | a caller without a user document gets 500; otherwise 200 with profiles that are all friends of the caller |
| `UserController.MyFriendsListsEveryFriend` | backend/src/controllers/user.controller.js:26-28 | in a consistent store every friend resolves, so the list holds exactly the caller's friends, in order |
| `UserController.SendCheck` | backend/src/controllers/user.controller.js:45-67 | the guards run in order self-request (400), recipient not found (404), recipient already lists the sender (400), a request exists for the unordered pair in any status (400); each refusal happens exactly when all earlier guards passed and its own failed, and success exactly when all pass |
| `UserController.SendPreservesConsistency` | backend/src/controllers/user.controller.js:58-72 | appending the pending request after the guards pass keeps the store consistent, including at most one request per unordered pair |
| `UserController.SendFriendRequest` | backend/src/controllers/user.controller.js:38-74 | a refusal returns its status and message and changes nothing; success returns 201 with the new pending request `{sender: me, recipient}` and appends exactly that request; users never change; the invariant is kept |
| `UserController.MarkAccepted` | backend/src/controllers/user.controller.js:98-99 | `friendRequest.status = 'accepted'` followed by `save` sets only that request's status to accepted, keeping its id, sender and recipient, and leaves every other request unchanged |
| `UserController.AcceptCheck` | backend/src/controllers/user.controller.js:86-96 | 404 exactly when no request has the id; 403 exactly when the request found is not addressed to the caller; acceptance exactly when it is |
| `UserController.Befriend` | backend/src/controllers/user.controller.js:101-110 | after the two `$addToSet` updates the sender lists the recipient and the recipient lists the sender; no other entry is added; no other user changes; only `friends` changes; arrays stay duplicate-free |
| `UserController.AddFriendPresent` | backend/src/controllers/user.controller.js:102-110 | an `$addToSet` whose value is already present leaves the collection unchanged |
| `UserController.AcceptPreservesConsistency` | backend/src/controllers/user.controller.js:98-110 | marking the request accepted and befriending its two users keeps the store consistent |
| `UserController.BefriendKeepsUsersWellFormed` | backend/src/controllers/user.controller.js:103-110 | the `friends` updates keep user ids and e-mails unique and `friends` duplicate-free |
| `UserController.AcceptKeepsRequestsWellFormed` | backend/src/controllers/user.controller.js:98-99 | changing the status keeps request ids unique, endpoints distinct and existing, and one request per pair |
| `UserController.AcceptKeepsFriendsFromAccepted` | backend/src/controllers/user.controller.js:98-110 | after an accept every `friends` entry is still backed by an accepted request |
| `UserController.AcceptRecordsFriendship` | backend/src/controllers/user.controller.js:98-110 | after an accept every accepted request, the new one included, appears in both endpoints' `friends` |
| `UserController.AcceptFriendRequest` | backend/src/controllers/user.controller.js:83-111 | 404 and 403 leave the store unchanged; on success it replies 200, that request alone becomes accepted, and the users become `Befriend` of the old users; the invariant is kept |
| `UserController.ApplyAcceptance` | backend/src/controllers/user.controller.js:98-110 | the status write and the two `$addToSet` writes together give exactly `MarkAccepted` of the requests and `Befriend` of the users, and keep the invariant |
| `UserController.FriendRequestsOf` | backend/src/controllers/user.controller.js:124-135 | the first list is exactly the caller's incoming pending requests and the second exactly the caller's incoming accepted requests, both in natural order |
| `UserController.OutgoingRequests` | backend/src/controllers/user.controller.js:147-152 | exactly the pending requests the caller sent, in natural order |
| `UserController.FriendshipIsSymmetric` | backend/src/controllers/user.controller.js:103-110 | in a consistent store, if `a` lists `b` as a friend then `b` lists `a` |
| `UserController.SecondSendIsRefused` | backend/src/controllers/user.controller.js:58-72 | after a successful send from `a` to `b`, a second send from `a` to `b` or from `b` to `a` is refused because a request already exists |
| `UserController.AcceptIsIdempotent` | backend/src/controllers/user.controller.js:98-110 | after an accept, accepting the same request again passes the same checks, and it changes neither the requests nor any `friends` array |
| `UserController.SendAcceptThenResend` | backend/src/controllers/user.controller.js:45-110 | `a` sends to `b` and `b` accepts the new request, found by its fresh id; then each lists the other, and a send in either direction is refused as already friends |
| `AuthController.EmailRegexTest` | backend/src/controllers/auth.controller.js:19-20 | `emailRegex.test(email)` holds when some `@` position and some later `.` position split the string into three non-empty runs of characters that are neither `@` nor JS whitespace; a matching string has at least five characters, contains `@` and `.`, and starts and ends with such a character |
| `AuthController.EmailRegexMeaning` | backend/src/controllers/auth.controller.js:19-22 | the pattern `^[^\s@]+@[^\s@]+\.[^\s@]+$` matches exactly the strings that have no whitespace, exactly one `@`, a non-empty local part, and a domain with a `.` that is neither its first nor its last character |
| `AuthController.SignupCheck` | backend/src/controllers/auth.controller.js:11-27 | the checks run in order: a missing or empty field, then a password shorter than 6 (length 6 passes), then a malformed e-mail (in the words of `EmailRegexMeaning`), then an e-mail already in use; each refusal happens exactly when the earlier checks passed |
| `AuthController.NewUser` | backend/src/controllers/auth.controller.js:32-37 | `User.create` stores the given id, e-mail, password, full name and avatar, empty profile strings, `isOnboarded` false and no friends |
| `AuthController.SignupPreservesConsistency` | backend/src/controllers/auth.controller.js:24-37 | adding a user with a fresh id, a new e-mail and no friends keeps the store consistent |
| `AuthController.Signup` | backend/src/controllers/auth.controller.js:5-37 | every refusal replies 400 with its message and creates no user; success replies 201 and appends exactly one new, not onboarded user with no friends |
| `AuthController.Login` | backend/src/controllers/auth.controller.js:87-97 | a missing field gives 400; an unknown e-mail gives 401 "Invalid email"; only 400 and 401 are refusals; success is 200 for a user holding that e-mail whose stored password matches |
| `AuthController.LoginOutcomeOfAccount` | backend/src/controllers/auth.controller.js:91-97 | with unique e-mails, logging in to an account with a non-empty e-mail and password gives 200 with its id when the password matches and 401 "Invalid password" otherwise (the same status as "Invalid email", with a different message); an empty stored e-mail gives 400 |
| `AuthController.FalsyNames` | backend/src/controllers/auth.controller.js:139-145 | for distinct names, the filter keeps exactly the names whose value is falsy, each once, in their original order, and is empty exactly when no value is falsy |
| `AuthController.MissingFields` | backend/src/controllers/auth.controller.js:139-145 | `missingFields` holds a field name exactly when its input is falsy, in the order fullName, bio, nativeLanguage, learningLanguage, location |
| `AuthController.ApplyOnboarding` | backend/src/controllers/auth.controller.js:154-165 | only the caller's document changes: its five profile fields take the inputs and `isOnboarded` becomes true; its id, e-mail, password, picture and friends are kept |
| `AuthController.Onboard` | backend/src/controllers/auth.controller.js:134-169 | missing fields give 400 with the list and no update; an unknown caller gives 404 and no update; otherwise 200 and exactly `ApplyOnboarding`; the invariant is kept |
| `AuthController.CookieMaxAge` | backend/src/controllers/auth.controller.js:54-59 | the cookie's `maxAge` is 604800000 ms, the token's `'7d'` lifetime in milliseconds |
| `AuthMiddleware.WithoutPassword` | backend/src/middleware/auth.middleware.js:17 | `select('-password')` keeps every field of the user document except the password |
| `AuthMiddleware.WithoutPasswordForgetsOnlyPassword` | backend/src/middleware/auth.middleware.js:17 | two user documents give the same principal exactly when they differ at most in the password |
| `AuthMiddleware.ProtectRoute` | backend/src/middleware/auth.middleware.js:4-28 | `next` is reached exactly when the cookie is present, verification yields a `userId`, and that user exists; the principal is that user without the password; a missing cookie, a verification failure, a payload without `userId` and an unknown user each give 401 with their own message; no path gives any other status |
| `AuthMiddleware.PrincipalIsTheTokenUser` | backend/src/middleware/auth.middleware.js:17-23 | with unique ids, a valid token for a stored user lets the request proceed with exactly that user minus the password |

## Left out

- Token signing and verification are not modelled: the signature and the expiry check of section 4.1.4 of RFC 7519. `jwt.verify` is the parameter `verify` of `ProtectRoute`, which returns a payload or a failure. Signup and login reply with the user id and issue no token.
- The `JWT_SECRET_KEY` check of signup (backend/src/controllers/auth.controller.js:50-52) is not modelled. It is environment configuration. In the code it runs after the user has been created.
- Password hashing is not modelled. `matchPassword` is the parameter `matches` of `Login`, and the stored `password` field is whatever the user model stores. The user model is not part of this model.
- The chat-provider synchronisation (`upsertStreamUser`) is not modelled. It is a foreign network call whose errors are swallowed.
- The random avatar is not modelled, because it uses floating-point randomness. `Signup` takes the avatar URL as a parameter.
- HTTP and cookie plumbing is not modelled: `res.cookie`, `clearCookie`, `logout`, the routes file, the success flags, and the shape of the JSON bodies. Replies are a status with a body or a message.
- The catch-all 500 replies for storage failures are not modelled, because storage never fails here. The one 500 kept is `getMyFriends` for a caller with no user document.
- Storage details are not modelled: malformed-id cast errors (ids are natural numbers here), ObjectId string comparisons, and the field projections of `populate` on the request lists (requests are returned as stored).
- The default values of a new user (empty profile strings, `isOnboarded` false, no friends) are taken as the user schema's defaults. The schema is not part of this model.
- Concurrency is not modelled. This covers the check-then-create race of `sendFriendRequest` and the non-atomic three writes of an accept. The model is sequential.
- `RecommendedUsers`: does not model the friend-exclusion clause of the query. Its key `$id` does not name the id field, so what the storage layer does with it is undetermined, and no "excludes friends" property is claimed.
- The user controller never imports the friend-request model. As written, every handler that touches friend requests would fail with a 500. The model treats the request collection as available.
- `getOutgoingFriendRequests` sends its reply twice (backend/src/controllers/user.controller.js:152-154). It is modelled as one reply.
- `SignupCheck`: the password length is counted in Unicode characters, not in UTF-16 code units as JavaScript counts it. The two differ only for characters outside the Basic Multilingual Plane.
- Request-body fields are absent or strings. Non-string JSON values, and their truthiness, are not modelled.
- `FalsyNames`: is stated only for distinct names. The source filters one fixed list of five different field names, so a repeated name never occurs.

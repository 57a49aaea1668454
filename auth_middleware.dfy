/** `protectRoute`: resolves the session cookie to an authenticated principal
    or rejects the request with 401. Signature and expiry checking belong to
    the token library; here they are the parameter `verify`. */
module AuthMiddleware {
  import opened Store

  /** Why the token library refuses a token. */
  datatype VerifyFailure = BadSignature | TokenExpired | Malformed

  /** The outcome of `jwt.verify`: the decoded payload's `userId` (if it carries one), or a failure. */
  datatype Verification = Decoded(userId: Option<UserId>) | Failed(reason: VerifyFailure)

  /** A user document as `select('-password')` loads it. */
  datatype Principal = Principal(
    id: UserId, email: string, fullName: string, profilePic: string, bio: string,
    nativeLanguage: string, learningLanguage: string, location: string,
    isOnboarded: bool, friends: seq<UserId>)

  /** `select('-password')`: every field of the document but the password. */
  function WithoutPassword(u: User): (p: Principal)
    ensures p.id == u.id && p.email == u.email && p.fullName == u.fullName && p.profilePic == u.profilePic
    ensures p.bio == u.bio && p.nativeLanguage == u.nativeLanguage && p.learningLanguage == u.learningLanguage
    ensures p.location == u.location && p.isOnboarded == u.isOnboarded && p.friends == u.friends
  {
    Principal(u.id, u.email, u.fullName, u.profilePic, u.bio, u.nativeLanguage, u.learningLanguage,
              u.location, u.isOnboarded, u.friends)
  }

  /** Two documents give the same principal exactly when they differ at most in the password. */
  lemma WithoutPasswordForgetsOnlyPassword(u: User, v: User)
    ensures WithoutPassword(u) == WithoutPassword(v) <==> u == v.(password := u.password)
  {
  }

  datatype GuardResult = Reject(status: nat, message: string) | Proceed(principal: Principal)

  /** `req.cookies?.jwt` is present and truthy. */
  predicate TokenPresent(cookie: Option<string>)
  {
    cookie.Some? && cookie.value != ""
  }

  /** `next()` is reached exactly when the cookie is present, verification yields a `userId`, and that
      user exists; the principal is that user without the password. Every other path is a 401. */
  function ProtectRoute(cookie: Option<string>, verify: string -> Verification, users: seq<User>)
    : (r: GuardResult)
    ensures r.Proceed? <==>
      && TokenPresent(cookie)
      && verify(cookie.value).Decoded? && verify(cookie.value).userId.Some?
      && IsUser(users, verify(cookie.value).userId.value)
    ensures r.Proceed? ==>
      exists i | 0 <= i < |users| ::
        users[i].id == verify(cookie.value).userId.value && r.principal == WithoutPassword(users[i])
    ensures r.Reject? ==> r.status == 401
    ensures !TokenPresent(cookie) ==> r == Reject(401, "Unauthorized - No Token Provided")
    ensures TokenPresent(cookie) && verify(cookie.value).Failed? ==>
      r == Reject(401, "Unauthorized - Invalid or Expired Token")
    ensures TokenPresent(cookie) && verify(cookie.value) == Decoded(None) ==>
      r == Reject(401, "Unauthorized - Invalid Token")
    ensures TokenPresent(cookie) && verify(cookie.value).Decoded? && verify(cookie.value).userId.Some?
            && !IsUser(users, verify(cookie.value).userId.value) ==>
      r == Reject(401, "Unauthorized - User Not Found")
  {
    if !TokenPresent(cookie) then Reject(401, "Unauthorized - No Token Provided")
    else match verify(cookie.value)
      case Failed(_) => Reject(401, "Unauthorized - Invalid or Expired Token")
      case Decoded(None) => Reject(401, "Unauthorized - Invalid Token")
      case Decoded(Some(id)) =>
        match FindUser(users, id)
        case None => Reject(401, "Unauthorized - User Not Found")
        case Some(i) => Proceed(WithoutPassword(users[i]))
  }

  /** With unique ids the principal is the stored user itself, minus the password. */
  lemma PrincipalIsTheTokenUser(cookie: Option<string>, verify: string -> Verification,
                                users: seq<User>, nextUserId: UserId, i: nat)
    requires UsersWellFormed(users, nextUserId)
    requires i < |users| && TokenPresent(cookie) && verify(cookie.value) == Decoded(Some(users[i].id))
    ensures ProtectRoute(cookie, verify, users) == Proceed(WithoutPassword(users[i]))
  {
    FindUserUnique(users, nextUserId, i, users[i].id);
  }
}

/** The storage behind the controllers: user documents and friend-request
    documents, each collection kept in natural (insertion) order, with the
    queries the controllers issue and the consistency the operations keep. */
module Store {

  datatype Option<+T> = None | Some(value: T)

  /** Document ids. Fresh ids come from counters in `Database`, standing for
      the storage layer's id allocation. */
  type UserId = nat
  type RequestId = nat

  /** A user document. `password` is the stored credential; hashing it is the
      user model's business and is not part of this model. */
  datatype User = User(
    id: UserId,
    email: string,
    password: string,
    fullName: string,
    profilePic: string,
    bio: string,
    nativeLanguage: string,
    learningLanguage: string,
    location: string,
    isOnboarded: bool,
    friends: seq<UserId>)

  datatype RequestStatus = Pending | Accepted

  datatype FriendRequest = FriendRequest(id: RequestId, sender: UserId, recipient: UserId, status: RequestStatus)

  // ---------------------------------------------------------------------
  // Queries, as the storage layer answers them
  // ---------------------------------------------------------------------

  /** `findOne` / `findById`: the position of the first document that matches. */
  function FirstWhere<T>(s: seq<T>, p: T -> bool): (r: Option<nat>)
    ensures r.Some? ==> r.value < |s| && p(s[r.value])
    ensures r.Some? ==> forall j | 0 <= j < r.value :: !p(s[j])
    ensures r.None? <==> forall j | 0 <= j < |s| :: !p(s[j])
    decreases |s|
  {
    if s == [] then None
    else if p(s[0]) then Some(0)
    else match FirstWhere(s[1..], p)
      case None => None
      case Some(k) =>
        assert forall j | 1 <= j < k + 1 :: s[j] == s[1..][j - 1];
        Some(k + 1)
  }

  /** `r` keeps some of the elements of `s`, in their order. */
  predicate IsSubsequence<T(==)>(r: seq<T>, s: seq<T>)
    decreases |s|
  {
    if r == [] then true
    else if s == [] then false
    else (r[0] == s[0] && IsSubsequence(r[1..], s[1..])) || IsSubsequence(r, s[1..])
  }

  /** `find`: every matching document, in natural order. */
  function Filter<T(==,!new)>(s: seq<T>, p: T -> bool): (r: seq<T>)
    ensures |r| <= |s|
    ensures forall x :: x in r <==> x in s && p(x)
    ensures IsSubsequence(r, s)
    ensures forall x :: multiset(r)[x] == if p(x) then multiset(s)[x] else 0
    decreases |s|
  {
    if s == [] then []
    else
      var rest := Filter(s[1..], p);
      assert s == [s[0]] + s[1..];
      if p(s[0]) then
        assert ([s[0]] + rest)[1..] == rest;
        [s[0]] + rest
      else
        rest
  }

  predicate IsUser(users: seq<User>, id: UserId)
  {
    exists i | 0 <= i < |users| :: users[i].id == id
  }

  /** `User.findById`. */
  function FindUser(users: seq<User>, id: UserId): (r: Option<nat>)
    ensures r.Some? <==> IsUser(users, id)
    ensures r.Some? ==> r.value < |users| && users[r.value].id == id
  {
    FirstWhere(users, (u: User) => u.id == id)
  }

  /** Whether the stored user `id` lists `f` among its friends (false when there is no such user). */
  predicate HasFriend(users: seq<User>, id: UserId, f: UserId)
  {
    match FindUser(users, id)
    case None => false
    case Some(i) => f in users[i].friends
  }

  /** `User.findOne({ email })`. */
  function FindByEmail(users: seq<User>, email: string): (r: Option<nat>)
    ensures r.Some? <==> exists i | 0 <= i < |users| :: users[i].email == email
    ensures r.Some? ==> r.value < |users| && users[r.value].email == email
  {
    FirstWhere(users, (u: User) => u.email == email)
  }

  /** The request concerns the unordered pair {a, b}. */
  predicate Between(q: FriendRequest, a: UserId, b: UserId)
  {
    (q.sender == a && q.recipient == b) || (q.sender == b && q.recipient == a)
  }

  predicate AcceptedBetween(requests: seq<FriendRequest>, a: UserId, b: UserId)
  {
    exists k | 0 <= k < |requests| :: requests[k].status == Accepted && Between(requests[k], a, b)
  }

  // ---------------------------------------------------------------------
  // Add-to-set on a `friends` array
  // ---------------------------------------------------------------------

  predicate NoDuplicates<T(==)>(s: seq<T>)
  {
    forall i, j | 0 <= i < j < |s| :: s[i] != s[j]
  }

  /** `$addToSet`: append `x` unless it is already present. */
  function AddToSet(s: seq<UserId>, x: UserId): (r: seq<UserId>)
    ensures forall y :: y in r <==> y in s || y == x
    ensures NoDuplicates(s) ==> NoDuplicates(r)
    ensures |s| <= |r| && r[..|s|] == s
    ensures x in s ==> r == s
  {
    if x in s then s else s + [x]
  }

  /** `User.findByIdAndUpdate(who, { $addToSet: { friends: f } })`; a missing user is left alone. */
  function AddFriend(users: seq<User>, who: UserId, f: UserId): (r: seq<User>)
    ensures |r| == |users|
    ensures forall i | 0 <= i < |r| :: r[i] == users[i].(friends := r[i].friends)
    ensures forall i | 0 <= i < |r| && users[i].id != who :: r[i] == users[i]
    ensures forall i, g | 0 <= i < |r| && users[i].id == who :: g in r[i].friends <==> g in users[i].friends || g == f
    ensures forall i | 0 <= i < |r| && users[i].id == who :: users[i].friends <= r[i].friends
    ensures forall i | 0 <= i < |r| :: NoDuplicates(users[i].friends) ==> NoDuplicates(r[i].friends)
  {
    seq(|users|, i requires 0 <= i < |users| =>
      if users[i].id == who then users[i].(friends := AddToSet(users[i].friends, f)) else users[i])
  }

  // ---------------------------------------------------------------------
  // Consistency kept by every operation
  // ---------------------------------------------------------------------

  ghost predicate UsersWellFormed(users: seq<User>, nextUserId: UserId)
  {
    && (forall i | 0 <= i < |users| :: users[i].id < nextUserId && NoDuplicates(users[i].friends))
    && (forall i, j | 0 <= i < j < |users| :: users[i].id != users[j].id && users[i].email != users[j].email)
  }

  ghost predicate RequestsWellFormed(users: seq<User>, requests: seq<FriendRequest>, nextRequestId: RequestId)
  {
    && (forall k | 0 <= k < |requests| ::
          && requests[k].id < nextRequestId
          && requests[k].sender != requests[k].recipient
          && IsUser(users, requests[k].sender)
          && IsUser(users, requests[k].recipient))
    // ids are unique and no unordered pair has two requests
    && (forall k, l | 0 <= k < l < |requests| ::
          requests[k].id != requests[l].id && !Between(requests[l], requests[k].sender, requests[k].recipient))
  }

  /** `friends` is exactly what accepted requests put there. */
  ghost predicate FriendsMirrorRequests(users: seq<User>, requests: seq<FriendRequest>)
  {
    && (forall i, f | 0 <= i < |users| && f in users[i].friends :: AcceptedBetween(requests, users[i].id, f))
    && (forall k, i | 0 <= k < |requests| && 0 <= i < |users| && requests[k].status == Accepted ::
          && (users[i].id == requests[k].sender ==> requests[k].recipient in users[i].friends)
          && (users[i].id == requests[k].recipient ==> requests[k].sender in users[i].friends))
  }

  ghost predicate Consistent(users: seq<User>, requests: seq<FriendRequest>, nextUserId: UserId, nextRequestId: RequestId)
  {
    && UsersWellFormed(users, nextUserId)
    && RequestsWellFormed(users, requests, nextRequestId)
    && FriendsMirrorRequests(users, requests)
  }

  /** Two user collections with the same ids, position by position, know the same users. */
  lemma SameIdsSameUsers(users: seq<User>, users2: seq<User>)
    requires |users| == |users2|
    requires forall i | 0 <= i < |users| :: users2[i].id == users[i].id
    ensures forall x :: IsUser(users, x) <==> IsUser(users2, x)
  {
    forall x ensures IsUser(users, x) <==> IsUser(users2, x) {
      if IsUser(users, x) {
        var i :| 0 <= i < |users| && users[i].id == x;
        assert users2[i].id == x;
      }
      if IsUser(users2, x) {
        var i :| 0 <= i < |users2| && users2[i].id == x;
        assert users[i].id == x;
      }
    }
  }

  /** Under unique ids, the user found for `id` is the one at any position holding `id`. */
  lemma FindUserUnique(users: seq<User>, nextUserId: UserId, i: nat, id: UserId)
    requires UsersWellFormed(users, nextUserId)
    requires i < |users| && users[i].id == id
    ensures FindUser(users, id) == Some(i)
  {
    var j := FindUser(users, id).value;
    assert users[j].id == id;
  }

  /** A rewrite that keeps every user's id, e-mail and friends keeps the store consistent. */
  lemma ProfileEditPreservesConsistency(users: seq<User>, users2: seq<User>, requests: seq<FriendRequest>,
                                        nextUserId: UserId, nextRequestId: RequestId)
    requires Consistent(users, requests, nextUserId, nextRequestId)
    requires |users2| == |users|
    requires forall i | 0 <= i < |users| ::
      users2[i].id == users[i].id && users2[i].email == users[i].email && users2[i].friends == users[i].friends
    ensures Consistent(users2, requests, nextUserId, nextRequestId)
  {
    SameIdsSameUsers(users, users2);
  }

  /** The collections of the application, updated in place by the controllers. */
  class Database {
    var users: seq<User>
    var requests: seq<FriendRequest>
    var nextUserId: UserId
    var nextRequestId: RequestId

    ghost predicate Valid()
      reads this
    {
      Consistent(users, requests, nextUserId, nextRequestId)
    }

    constructor ()
      ensures Valid() && users == [] && requests == []
    {
      users, requests := [], [];
      nextUserId, nextRequestId := 0, 0;
    }
  }
}

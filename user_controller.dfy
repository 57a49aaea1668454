/** The user controller: recommendations, the friends list and the
    friend-request workflow (send, accept, list incoming and outgoing). The
    principal `me` is the user that the access guard attached to the request. */
module UserController {
  import opened Store
  import opened Http

  // ---------------------------------------------------------------------
  // getRecommendedUsers
  // ---------------------------------------------------------------------

  /** Every onboarded user other than the caller, in natural order. */
  function RecommendedUsers(users: seq<User>, me: UserId): (r: seq<User>)
    ensures forall u :: u in r <==> u in users && u.id != me && u.isOnboarded
    ensures IsSubsequence(r, users)
  {
    Filter(users, (u: User) => u.id != me && u.isOnboarded)
  }

  // ---------------------------------------------------------------------
  // getMyFriends
  // ---------------------------------------------------------------------

  /** The fields selected when a friend is populated. */
  datatype FriendProfile = FriendProfile(
    id: UserId, fullName: string, profilePic: string, nativeLanguage: string, learningLanguage: string)

  function ProfileOf(u: User): FriendProfile
  {
    FriendProfile(u.id, u.fullName, u.profilePic, u.nativeLanguage, u.learningLanguage)
  }

  /** The ids `populate` can resolve to a user document. */
  function Resolves(users: seq<User>): UserId -> bool
  {
    (id: UserId) => IsUser(users, id)
  }

  /** Resolves each id to its user's profile, in order; ids with no user are dropped. */
  function Populate(users: seq<User>, ids: seq<UserId>): (r: seq<FriendProfile>)
    ensures |r| <= |ids|
    ensures forall p | p in r ::
      p.id in ids && IsUser(users, p.id) && p == ProfileOf(users[FindUser(users, p.id).value])
    ensures (forall id | id in ids :: IsUser(users, id)) ==>
      |r| == |ids| && forall k | 0 <= k < |ids| :: r[k] == ProfileOf(users[FindUser(users, ids[k]).value])
    decreases |ids|
  {
    if ids == [] then []
    else
      var rest := Populate(users, ids[1..]);
      assert forall id | id in ids[1..] :: id in ids;
      match FindUser(users, ids[0])
      case None => rest
      case Some(i) => [ProfileOf(users[i])] + rest
  }

  /** Populating keeps exactly the ids that resolve, in their order, one profile each. */
  lemma {:induction false} PopulateFollowsResolvedIds(users: seq<User>, ids: seq<UserId>)
    ensures var r, found := Populate(users, ids), Filter(ids, Resolves(users));
      |r| == |found| && forall k | 0 <= k < |r| ::
        FindUser(users, found[k]).Some? && r[k] == ProfileOf(users[FindUser(users, found[k]).value])
    decreases |ids|
  {
    if ids != [] {
      PopulateFollowsResolvedIds(users, ids[1..]);
      var rest, frest := Populate(users, ids[1..]), Filter(ids[1..], Resolves(users));
      match FindUser(users, ids[0])
      case None =>
        assert Populate(users, ids) == rest;
        assert Filter(ids, Resolves(users)) == frest;
      case Some(i) =>
        var r, found := Populate(users, ids), Filter(ids, Resolves(users));
        assert r == [ProfileOf(users[i])] + rest;
        assert Resolves(users)(ids[0]);
        assert found == [ids[0]] + frest;
        assert |r| == |found|;
        forall k | 0 <= k < |r|
          ensures FindUser(users, found[k]).Some? && r[k] == ProfileOf(users[FindUser(users, found[k]).value])
        {
          if k == 0 {
            assert found[0] == ids[0] && r[0] == ProfileOf(users[i]);
          } else {
            assert r[k] == rest[k - 1] && found[k] == frest[k - 1];
          }
        }
    }
  }

  /** The caller's friends as profiles; a caller with no user document fails with 500. */
  function MyFriends(users: seq<User>, me: UserId): (r: Reply<seq<FriendProfile>>)
    ensures r.Refused? <==> !IsUser(users, me)
    ensures r.Refused? ==> r.status == 500
    ensures r.Ok? ==> r.status == 200 && forall p | p in r.body :: HasFriend(users, me, p.id)
  {
    match FindUser(users, me)
    case None => Refused(500, InternalError, [])
    case Some(i) => Ok(200, Populate(users, users[i].friends))
  }

  /** In a consistent store every friend resolves, so the list has one profile per friend, in order. */
  lemma MyFriendsListsEveryFriend(users: seq<User>, requests: seq<FriendRequest>,
                                  nextUserId: UserId, nextRequestId: RequestId, i: nat)
    requires Consistent(users, requests, nextUserId, nextRequestId)
    requires i < |users|
    ensures var r := MyFriends(users, users[i].id);
      && r.Ok?
      && |r.body| == |users[i].friends|
      && forall k | 0 <= k < |r.body| :: r.body[k].id == users[i].friends[k]
  {
    FindUserUnique(users, nextUserId, i, users[i].id);
    forall f | f in users[i].friends ensures IsUser(users, f) {
      var k :| 0 <= k < |requests| && requests[k].status == Accepted && Between(requests[k], users[i].id, f);
    }
  }

  // ---------------------------------------------------------------------
  // sendFriendRequest
  // ---------------------------------------------------------------------

  datatype SendRefusal = SelfRequest | RecipientNotFound | AlreadyFriends | RequestExists
  {
    function Status(): nat
    {
      if RecipientNotFound? then 404 else 400
    }

    function Message(): string
    {
      match this
      case SelfRequest => "You cannot send a friend request to yourself."
      case RecipientNotFound => "Recepient not found."
      case AlreadyFriends => "You are already friends with this user."
      case RequestExists => "Friend request already exists between you and the user."
    }
  }

  /** Some request, in either direction and of any status, joins `a` and `b`. */
  predicate PairHasRequest(requests: seq<FriendRequest>, a: UserId, b: UserId)
  {
    exists k | 0 <= k < |requests| :: Between(requests[k], a, b)
  }

  /** The guards of `sendFriendRequest`, in order; `None` means the request may be created.
      Each refusal is reported exactly when every earlier guard passed and its own failed. */
  function SendCheck(users: seq<User>, requests: seq<FriendRequest>, me: UserId, recipientId: UserId)
    : (r: Option<SendRefusal>)
    ensures r == Some(SelfRequest) <==> me == recipientId
    ensures r == Some(RecipientNotFound) <==> me != recipientId && !IsUser(users, recipientId)
    ensures r == Some(AlreadyFriends) <==>
      me != recipientId && IsUser(users, recipientId) && HasFriend(users, recipientId, me)
    ensures r == Some(RequestExists) <==>
      && me != recipientId && IsUser(users, recipientId) && !HasFriend(users, recipientId, me)
      && PairHasRequest(requests, me, recipientId)
    ensures r == None <==>
      && me != recipientId && IsUser(users, recipientId) && !HasFriend(users, recipientId, me)
      && !PairHasRequest(requests, me, recipientId)
  {
    if me == recipientId then Some(SelfRequest)
    else match FindUser(users, recipientId)
      case None => Some(RecipientNotFound)
      case Some(i) =>
        if me in users[i].friends then Some(AlreadyFriends)
        else if FirstWhere(requests, (q: FriendRequest) => Between(q, me, recipientId)).Some? then Some(RequestExists)
        else None
  }

  /** A successful send keeps the store consistent. */
  lemma SendPreservesConsistency(users: seq<User>, requests: seq<FriendRequest>,
                                 nextUserId: UserId, nextRequestId: RequestId, me: UserId, recipientId: UserId)
    requires Consistent(users, requests, nextUserId, nextRequestId)
    requires IsUser(users, me)
    requires SendCheck(users, requests, me, recipientId) == None
    ensures Consistent(users, requests + [FriendRequest(nextRequestId, me, recipientId, Pending)],
                       nextUserId, nextRequestId + 1)
  {
    var requests1 := requests + [FriendRequest(nextRequestId, me, recipientId, Pending)];
    forall i, f | 0 <= i < |users| && f in users[i].friends
      ensures AcceptedBetween(requests1, users[i].id, f)
    {
      var k :| 0 <= k < |requests| && requests[k].status == Accepted && Between(requests[k], users[i].id, f);
      assert requests1[k] == requests[k];
    }
  }

  method SendFriendRequest(db: Database, me: UserId, recipientId: UserId) returns (reply: Reply<FriendRequest>)
    requires db.Valid() && IsUser(db.users, me)
    modifies db
    ensures db.Valid()
    ensures db.users == old(db.users) && db.nextUserId == old(db.nextUserId)
    ensures match SendCheck(old(db.users), old(db.requests), me, recipientId)
      case Some(refusal) =>
        && reply == Refused(refusal.Status(), refusal.Message(), [])
        && db.requests == old(db.requests) && db.nextRequestId == old(db.nextRequestId)
      case None =>
        var q := FriendRequest(old(db.nextRequestId), me, recipientId, Pending);
        && reply == Ok(201, q)
        && db.requests == old(db.requests) + [q]
        && db.nextRequestId == old(db.nextRequestId) + 1
  {
    var check := SendCheck(db.users, db.requests, me, recipientId);
    if check.Some? {
      reply := Refused(check.value.Status(), check.value.Message(), []);
      return;
    }
    var q := FriendRequest(db.nextRequestId, me, recipientId, Pending);
    SendPreservesConsistency(db.users, db.requests, db.nextUserId, db.nextRequestId, me, recipientId);
    db.requests := db.requests + [q];
    db.nextRequestId := db.nextRequestId + 1;
    reply := Ok(201, q);
  }

  // ---------------------------------------------------------------------
  // acceptFriendRequest
  // ---------------------------------------------------------------------

  datatype AcceptDecision = NoSuchRequest | NotRecipient | AcceptAt(index: nat)

  /** `k` is the position `findById(id)` answers with. */
  predicate FirstWithId(requests: seq<FriendRequest>, k: int, id: RequestId)
  {
    0 <= k < |requests| && requests[k].id == id && forall j | 0 <= j < k :: requests[j].id != id
  }

  /** The guards of `acceptFriendRequest`: the request must exist (404) and the caller must be its recipient (403). */
  function AcceptCheck(requests: seq<FriendRequest>, me: UserId, requestId: RequestId): (r: AcceptDecision)
    ensures r == NoSuchRequest <==> forall k | 0 <= k < |requests| :: requests[k].id != requestId
    ensures r == NotRecipient <==>
      exists k :: FirstWithId(requests, k, requestId) && requests[k].recipient != me
    ensures r.AcceptAt? <==>
      exists k :: FirstWithId(requests, k, requestId) && requests[k].recipient == me
    ensures r.AcceptAt? ==> FirstWithId(requests, r.index, requestId)
  {
    match FirstWhere(requests, (q: FriendRequest) => q.id == requestId)
    case None => NoSuchRequest
    case Some(k) =>
      assert FirstWithId(requests, k, requestId);
      if requests[k].recipient != me then NotRecipient else AcceptAt(k)
  }

  /** `friendRequest.status = 'accepted'`. */
  function MarkAccepted(requests: seq<FriendRequest>, k: nat): (r: seq<FriendRequest>)
    requires k < |requests|
    ensures |r| == |requests|
    ensures r[k].status == Accepted
    ensures r[k].id == requests[k].id && r[k].sender == requests[k].sender && r[k].recipient == requests[k].recipient
    ensures forall j | 0 <= j < |r| && j != k :: r[j] == requests[j]
  {
    requests[k := requests[k].(status := Accepted)]
  }

  /** The two add-to-set updates of an accept: `a` and `b` gain each other, nothing else changes. */
  function Befriend(users: seq<User>, a: UserId, b: UserId): (r: seq<User>)
    ensures |r| == |users|
    ensures forall i | 0 <= i < |r| :: r[i] == users[i].(friends := r[i].friends)
    ensures forall i | 0 <= i < |r| && users[i].id != a && users[i].id != b :: r[i] == users[i]
    ensures forall i | 0 <= i < |r| && users[i].id == a :: b in r[i].friends
    ensures forall i | 0 <= i < |r| && users[i].id == b :: a in r[i].friends
    ensures forall i, f | 0 <= i < |r| ::
      f in r[i].friends <==> f in users[i].friends || (users[i].id == a && f == b) || (users[i].id == b && f == a)
    ensures forall i | 0 <= i < |r| :: NoDuplicates(users[i].friends) ==> NoDuplicates(r[i].friends)
  {
    AddFriend(AddFriend(users, a, b), b, a)
  }

  /** An add-to-set that finds the friend already present changes nothing. */
  lemma AddFriendPresent(users: seq<User>, who: UserId, f: UserId)
    requires forall i | 0 <= i < |users| && users[i].id == who :: f in users[i].friends
    ensures AddFriend(users, who, f) == users
  {
    var r := AddFriend(users, who, f);
    assert forall i | 0 <= i < |users| :: r[i] == users[i];
  }

  /** A successful accept keeps the store consistent. */
  lemma AcceptPreservesConsistency(users: seq<User>, requests: seq<FriendRequest>,
                                   nextUserId: UserId, nextRequestId: RequestId, k: nat)
    requires Consistent(users, requests, nextUserId, nextRequestId)
    requires k < |requests|
    ensures Consistent(Befriend(users, requests[k].sender, requests[k].recipient), MarkAccepted(requests, k),
                       nextUserId, nextRequestId)
  {
    BefriendKeepsUsersWellFormed(users, nextUserId, requests[k].sender, requests[k].recipient);
    var users1 := Befriend(users, requests[k].sender, requests[k].recipient);
    SameIdsSameUsers(users, users1);
    AcceptKeepsRequestsWellFormed(users, users1, requests, nextRequestId, k);
    AcceptKeepsFriendsFromAccepted(users, requests, k);
    AcceptRecordsFriendship(users, requests, k);
  }

  lemma BefriendKeepsUsersWellFormed(users: seq<User>, nextUserId: UserId, a: UserId, b: UserId)
    requires UsersWellFormed(users, nextUserId)
    ensures UsersWellFormed(Befriend(users, a, b), nextUserId)
  {
    var users1 := Befriend(users, a, b);
    assert forall i | 0 <= i < |users1| :: users1[i].id == users[i].id && users1[i].email == users[i].email;
  }

  /** An accept changes neither ids nor endpoints, so the request-side invariants survive it
      whenever every user is still there. */
  lemma AcceptKeepsRequestsWellFormed(users: seq<User>, users1: seq<User>, requests: seq<FriendRequest>,
                                      nextRequestId: RequestId, k: nat)
    requires k < |requests|
    requires RequestsWellFormed(users, requests, nextRequestId)
    requires forall x :: IsUser(users, x) ==> IsUser(users1, x)
    ensures RequestsWellFormed(users1, MarkAccepted(requests, k), nextRequestId)
  {
    var requests1 := MarkAccepted(requests, k);
    assert forall j | 0 <= j < |requests| ::
      requests1[j].id == requests[j].id && requests1[j].sender == requests[j].sender
      && requests1[j].recipient == requests[j].recipient;
  }

  /** After an accept, every listed friend is still backed by an accepted request. */
  lemma AcceptKeepsFriendsFromAccepted(users: seq<User>, requests: seq<FriendRequest>, k: nat)
    requires k < |requests|
    requires forall i, f | 0 <= i < |users| && f in users[i].friends :: AcceptedBetween(requests, users[i].id, f)
    ensures var users1 := Befriend(users, requests[k].sender, requests[k].recipient);
      var requests1 := MarkAccepted(requests, k);
      forall i, f | 0 <= i < |users1| && f in users1[i].friends :: AcceptedBetween(requests1, users1[i].id, f)
  {
    var q := requests[k];
    var users1 := Befriend(users, q.sender, q.recipient);
    var requests1 := MarkAccepted(requests, k);
    forall i, f | 0 <= i < |users1| && f in users1[i].friends
      ensures AcceptedBetween(requests1, users1[i].id, f)
    {
      if f in users[i].friends {
        var k' :| 0 <= k' < |requests| && requests[k'].status == Accepted && Between(requests[k'], users[i].id, f);
        assert requests1[k'].status == Accepted && Between(requests1[k'], users1[i].id, f);
      } else {
        assert requests1[k].status == Accepted && Between(requests1[k], users1[i].id, f);
      }
    }
  }

  /** After an accept, every accepted request is reflected in both endpoints' friends. */
  lemma AcceptRecordsFriendship(users: seq<User>, requests: seq<FriendRequest>, k: nat)
    requires k < |requests|
    requires forall k', i | 0 <= k' < |requests| && 0 <= i < |users| && requests[k'].status == Accepted ::
      && (users[i].id == requests[k'].sender ==> requests[k'].recipient in users[i].friends)
      && (users[i].id == requests[k'].recipient ==> requests[k'].sender in users[i].friends)
    ensures var users1 := Befriend(users, requests[k].sender, requests[k].recipient);
      var requests1 := MarkAccepted(requests, k);
      forall k', i | 0 <= k' < |requests1| && 0 <= i < |users1| && requests1[k'].status == Accepted ::
        && (users1[i].id == requests1[k'].sender ==> requests1[k'].recipient in users1[i].friends)
        && (users1[i].id == requests1[k'].recipient ==> requests1[k'].sender in users1[i].friends)
  {
    var q := requests[k];
    var users1 := Befriend(users, q.sender, q.recipient);
    var requests1 := MarkAccepted(requests, k);
    forall k', i | 0 <= k' < |requests1| && 0 <= i < |users1| && requests1[k'].status == Accepted
      ensures users1[i].id == requests1[k'].sender ==> requests1[k'].recipient in users1[i].friends
      ensures users1[i].id == requests1[k'].recipient ==> requests1[k'].sender in users1[i].friends
    {
      if k' != k {
        assert requests1[k'] == requests[k'];
      }
    }
  }

  method AcceptFriendRequest(db: Database, me: UserId, requestId: RequestId) returns (reply: Reply<string>)
    requires db.Valid()
    modifies db
    ensures db.Valid()
    ensures db.nextUserId == old(db.nextUserId) && db.nextRequestId == old(db.nextRequestId)
    ensures match AcceptCheck(old(db.requests), me, requestId)
      case NoSuchRequest =>
        && reply == Refused(404, "Friend request not found.", [])
        && db.users == old(db.users) && db.requests == old(db.requests)
      case NotRecipient =>
        && reply == Refused(403, "You are not authorized to accept this friend request.", [])
        && db.users == old(db.users) && db.requests == old(db.requests)
      case AcceptAt(k) =>
        var q := old(db.requests)[k];
        && reply == Ok(200, "Friend request accepted successfully.")
        && db.requests == MarkAccepted(old(db.requests), k)
        && db.users == Befriend(old(db.users), q.sender, q.recipient)
  {
    var decision := AcceptCheck(db.requests, me, requestId);
    match decision {
      case NoSuchRequest =>
        reply := Refused(404, "Friend request not found.", []);
      case NotRecipient =>
        reply := Refused(403, "You are not authorized to accept this friend request.", []);
      case AcceptAt(k) =>
        ApplyAcceptance(db, k);
        reply := Ok(200, "Friend request accepted successfully.");
    }
  }

  /** The three writes of an accept: the status, then the sender's and the recipient's `friends`. */
  method ApplyAcceptance(db: Database, k: nat)
    requires db.Valid() && k < |db.requests|
    modifies db
    ensures db.Valid()
    ensures db.nextUserId == old(db.nextUserId) && db.nextRequestId == old(db.nextRequestId)
    ensures db.requests == MarkAccepted(old(db.requests), k)
    ensures db.users == Befriend(old(db.users), old(db.requests)[k].sender, old(db.requests)[k].recipient)
  {
    var q := db.requests[k];
    AcceptPreservesConsistency(db.users, db.requests, db.nextUserId, db.nextRequestId, k);
    db.requests := MarkAccepted(db.requests, k);
    db.users := AddFriend(db.users, q.sender, q.recipient);
    db.users := AddFriend(db.users, q.recipient, q.sender);
  }

  // ---------------------------------------------------------------------
  // getFriendRequests and getOutgoingFriendRequests
  // ---------------------------------------------------------------------

  /** The caller's incoming requests, split into pending and accepted. */
  function FriendRequestsOf(requests: seq<FriendRequest>, me: UserId)
    : (r: (seq<FriendRequest>, seq<FriendRequest>))
    ensures forall q :: q in r.0 <==> q in requests && q.recipient == me && q.status == Pending
    ensures forall q :: q in r.1 <==> q in requests && q.recipient == me && q.status == Accepted
    ensures IsSubsequence(r.0, requests) && IsSubsequence(r.1, requests)
  {
    (Filter(requests, (q: FriendRequest) => q.recipient == me && q.status == Pending),
     Filter(requests, (q: FriendRequest) => q.recipient == me && q.status == Accepted))
  }

  /** The caller's outgoing requests that are still pending. */
  function OutgoingRequests(requests: seq<FriendRequest>, me: UserId): (r: seq<FriendRequest>)
    ensures forall q :: q in r <==> q in requests && q.sender == me && q.status == Pending
    ensures IsSubsequence(r, requests)
  {
    Filter(requests, (q: FriendRequest) => q.sender == me && q.status == Pending)
  }

  // ---------------------------------------------------------------------
  // Properties of the workflow
  // ---------------------------------------------------------------------

  /** Friendship is symmetric in a consistent store. */
  lemma FriendshipIsSymmetric(users: seq<User>, requests: seq<FriendRequest>,
                              nextUserId: UserId, nextRequestId: RequestId, i: nat, j: nat)
    requires Consistent(users, requests, nextUserId, nextRequestId)
    requires i < |users| && j < |users| && users[j].id in users[i].friends
    ensures users[i].id in users[j].friends
  {
    var k :| 0 <= k < |requests| && requests[k].status == Accepted && Between(requests[k], users[i].id, users[j].id);
  }

  /** After a successful send, sending again in either direction is refused as a duplicate. */
  lemma SecondSendIsRefused(users: seq<User>, requests: seq<FriendRequest>,
                            nextUserId: UserId, nextRequestId: RequestId, a: UserId, b: UserId)
    requires Consistent(users, requests, nextUserId, nextRequestId)
    requires IsUser(users, a)
    requires SendCheck(users, requests, a, b) == None
    ensures var requests1 := requests + [FriendRequest(nextRequestId, a, b, Pending)];
      && SendCheck(users, requests1, a, b) == Some(RequestExists)
      && SendCheck(users, requests1, b, a) == Some(RequestExists)
  {
    var requests1 := requests + [FriendRequest(nextRequestId, a, b, Pending)];
    assert Between(requests1[|requests|], a, b) && Between(requests1[|requests|], b, a);
    var ia := FindUser(users, a).value;
    var ib := FindUser(users, b).value;
    if b in users[ia].friends {
      FriendshipIsSymmetric(users, requests, nextUserId, nextRequestId, ia, ib);
    }
  }

  /** Accepting a request that was already applied succeeds again and changes nothing. */
  lemma AcceptIsIdempotent(users: seq<User>, requests: seq<FriendRequest>, me: UserId, requestId: RequestId)
    requires AcceptCheck(requests, me, requestId).AcceptAt?
    ensures var k := AcceptCheck(requests, me, requestId).index;
      var q := requests[k];
      var users1 := Befriend(users, q.sender, q.recipient);
      var requests1 := MarkAccepted(requests, k);
      && AcceptCheck(requests1, me, requestId) == AcceptAt(k)
      && MarkAccepted(requests1, k) == requests1
      && Befriend(users1, q.sender, q.recipient) == users1
  {
    var k := AcceptCheck(requests, me, requestId).index;
    var q := requests[k];
    var users1 := Befriend(users, q.sender, q.recipient);
    var requests1 := MarkAccepted(requests, k);
    assert FirstWithId(requests1, k, requestId);
    AddFriendPresent(users1, q.sender, q.recipient);
    AddFriendPresent(users1, q.recipient, q.sender);
  }

  /** The worked example: `a` sends to `b`, `b` accepts, and both now list each other,
      so a new send in either direction is refused because they are already friends. */
  lemma SendAcceptThenResend(users: seq<User>, requests: seq<FriendRequest>,
                             nextUserId: UserId, nextRequestId: RequestId, a: UserId, b: UserId)
    requires Consistent(users, requests, nextUserId, nextRequestId)
    requires IsUser(users, a)
    requires SendCheck(users, requests, a, b) == None
    ensures var requests1 := requests + [FriendRequest(nextRequestId, a, b, Pending)];
      && AcceptCheck(requests1, b, nextRequestId) == AcceptAt(|requests|)
      && var users2 := Befriend(users, a, b);
      && var requests2 := MarkAccepted(requests1, |requests|);
      && HasFriend(users2, a, b) && HasFriend(users2, b, a)
      && SendCheck(users2, requests2, a, b) == Some(AlreadyFriends)
      && SendCheck(users2, requests2, b, a) == Some(AlreadyFriends)
  {
    var requests1 := requests + [FriendRequest(nextRequestId, a, b, Pending)];
    assert FirstWithId(requests1, |requests|, nextRequestId);
    var users2 := Befriend(users, a, b);
    var requests2 := MarkAccepted(requests1, |requests|);
    SameIdsSameUsers(users, users2);
    var ia := FindUser(users2, a).value;
    var ib := FindUser(users2, b).value;
    assert users2[ia].id == a && users2[ib].id == b;
    assert b in users2[ia].friends && a in users2[ib].friends;
    assert HasFriend(users2, a, b) && HasFriend(users2, b, a);
  }
}

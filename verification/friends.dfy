/** The friend graph as the signed-in user sees it (`useFriends`): the
    friend list joined from the friendship rows, the pending requests
    received and sent, and the actions send / accept / decline / remove,
    each of which writes to the backend and then re-reads the lists it
    touched. Every backend write's outcome is a `Reply` parameter; the
    re-reads that follow a successful write are taken to succeed. */
module Friends {
  import opened Prelude
  import opened Entities
  import opened Lists

  /** The lists the hook exposes. */
  datatype FriendsView = FriendsView(
    friends: seq<Profile>,
    pendingRequests: seq<FriendRequest>,
    sentRequests: seq<FriendRequest>)

  /** What an action leaves behind: the backend, the hook's lists, and the
      `{ error }` it returns. */
  datatype ActionResult = ActionResult(store: Store, view: FriendsView, error: ActionError)

  /** A stand-in for the error the backend gives when a friendship row
      names a user with no profile (the row's foreign keys reference
      `profiles`); the backend's own message also names the constraint. */
  const ForeignKeyViolation: string := "insert or update on table \"friendships\" violates foreign key constraint"

  // ---------------------------------------------------------------------
  // reads

  /** The friendship rows owned by `user`, in table order. */
  function OwnRows(fs: seq<Friendship>, user: string): seq<Friendship> {
    Filter(fs, (f: Friendship) => f.userId == user)
  }

  /** `fetchFriends`: the joined friend profile of each friendship row whose
      `user_id` is the user, in row order; unchanged without a user or when
      the read fails. The backend's foreign key guarantees the join finds a
      profile. */
  function FetchFriends(view: FriendsView, store: Store, user: Option<string>, reply: Reply)
    : (r: FriendsView)
    requires FriendsHaveProfiles(store)
    ensures r.pendingRequests == view.pendingRequests && r.sentRequests == view.sentRequests
    ensures !Present(user) || reply.Failed? ==> r == view
    ensures Present(user) && reply.Ok? ==>
              var rows := OwnRows(store.friendships, user.value);
              && |r.friends| == |rows|
              && forall i :: 0 <= i < |rows| ==>
                   r.friends[i].id == rows[i].friendId && r.friends[i] in store.profiles
  {
    if !Present(user) || reply.Failed? then view
    else
      var rows := OwnRows(store.friendships, user.value);
      assert forall i :: 0 <= i < |rows| ==> HasProfile(store.profiles, rows[i].friendId) by {
        forall i | 0 <= i < |rows| ensures HasProfile(store.profiles, rows[i].friendId) {
          var j :| 0 <= j < |store.friendships| && store.friendships[j] == rows[i];
        }
      }
      var joined := seq(|rows|, i requires 0 <= i < |rows| => ProfileById(store.profiles, rows[i].friendId));
      view.(friends := joined)
  }

  /** The requests `fetchFriendRequests` reads as received: pending and
      addressed to the user. */
  predicate PendingTo(r: FriendRequest, user: string) {
    r.toUserId == user && r.status == Pending
  }

  /** The requests it reads as sent: pending and sent by the user. */
  predicate PendingFrom(r: FriendRequest, user: string) {
    r.fromUserId == user && r.status == Pending
  }

  /** `fetchFriendRequests`: two independent reads, each replacing its list
      on success and leaving it on failure; nothing without a user. */
  function FetchFriendRequests(view: FriendsView, store: Store, user: Option<string>,
                               receivedReply: Reply, sentReply: Reply): (r: FriendsView)
    ensures r.friends == view.friends
    ensures !Present(user) ==> r == view
    ensures Present(user) && receivedReply.Failed? ==> r.pendingRequests == view.pendingRequests
    ensures Present(user) && sentReply.Failed? ==> r.sentRequests == view.sentRequests
    ensures Present(user) && receivedReply.Ok? ==>
              && (forall i :: 0 <= i < |r.pendingRequests| ==>
                    r.pendingRequests[i] in store.requests && PendingTo(r.pendingRequests[i], user.value))
              && (forall i :: 0 <= i < |store.requests| && PendingTo(store.requests[i], user.value) ==>
                    store.requests[i] in r.pendingRequests)
    ensures Present(user) && sentReply.Ok? ==>
              && (forall i :: 0 <= i < |r.sentRequests| ==>
                    r.sentRequests[i] in store.requests && PendingFrom(r.sentRequests[i], user.value))
              && (forall i :: 0 <= i < |store.requests| && PendingFrom(store.requests[i], user.value) ==>
                    store.requests[i] in r.sentRequests)
    ensures Present(user) && receivedReply.Ok? ==>
              forall q :: multiset(r.pendingRequests)[q]
                          == if PendingTo(q, user.value) then multiset(store.requests)[q] else 0
    ensures Present(user) && sentReply.Ok? ==>
              forall q :: multiset(r.sentRequests)[q]
                          == if PendingFrom(q, user.value) then multiset(store.requests)[q] else 0
  {
    if !Present(user) then view
    else
      var u := user.value;
      var received := if receivedReply.Ok? then Filter(store.requests, (q: FriendRequest) => PendingTo(q, u))
                      else view.pendingRequests;
      var sent := if sentReply.Ok? then Filter(store.requests, (q: FriendRequest) => PendingFrom(q, u))
                  else view.sentRequests;
      PendingMultiplicity(store.requests, u);
      FriendsView(view.friends, received, sent)
  }

  /** Each pending list holds every pending row of its direction exactly as
      often as the table does. */
  lemma PendingMultiplicity(requests: seq<FriendRequest>, u: string)
    ensures forall q :: multiset(Filter(requests, (x: FriendRequest) => PendingTo(x, u)))[q]
                        == if PendingTo(q, u) then multiset(requests)[q] else 0
    ensures forall q :: multiset(Filter(requests, (x: FriendRequest) => PendingFrom(x, u)))[q]
                        == if PendingFrom(q, u) then multiset(requests)[q] else 0
  {
    forall q ensures multiset(Filter(requests, (x: FriendRequest) => PendingTo(x, u)))[q]
                     == if PendingTo(q, u) then multiset(requests)[q] else 0 {
      FilterMultiplicity(requests, (x: FriendRequest) => PendingTo(x, u), q);
    }
    forall q ensures multiset(Filter(requests, (x: FriendRequest) => PendingFrom(x, u)))[q]
                     == if PendingFrom(q, u) then multiset(requests)[q] else 0 {
      FilterMultiplicity(requests, (x: FriendRequest) => PendingFrom(x, u), q);
    }
  }

  /** Both re-reads succeeding, as after a successful action. */
  function RefreshRequests(view: FriendsView, store: Store, user: Option<string>): FriendsView {
    FetchFriendRequests(view, store, user, Ok, Ok)
  }

  /** Accepted and declined requests never appear in either pending list. */
  lemma SettledRequestsNotListed(view: FriendsView, store: Store, user: Option<string>, q: FriendRequest)
    requires Present(user) && q.status != Pending
    ensures q !in RefreshRequests(view, store, user).pendingRequests
    ensures q !in RefreshRequests(view, store, user).sentRequests
  {
  }

  // ---------------------------------------------------------------------
  // the friendship graph

  /** Some row makes `b` a friend of `a`. */
  predicate Linked(fs: seq<Friendship>, a: string, b: string) {
    exists i :: 0 <= i < |fs| && fs[i].userId == a && fs[i].friendId == b
  }

  /** Every friendship row has its mirror image. */
  predicate Symmetric(fs: seq<Friendship>) {
    forall i :: 0 <= i < |fs| ==> Linked(fs, fs[i].friendId, fs[i].userId)
  }

  /** Rewrites the status of every request with the given id, as `update
      ({ status }).eq('id', requestId)` does. */
  function SetStatus(requests: seq<FriendRequest>, requestId: string, status: RequestStatus)
    : (r: seq<FriendRequest>)
    ensures |r| == |requests|
    ensures forall i :: 0 <= i < |requests| ==>
              r[i] == if requests[i].id == requestId then requests[i].(status := status) else requests[i]
  {
    MapWhere(requests, (q: FriendRequest) => q.id == requestId,
             (q: FriendRequest) => q.(status := status))
  }

  // ---------------------------------------------------------------------
  // actions

  /** `sendFriendRequest(toUserId)`: inserts a pending request from the user
      (the table defaults the status), then re-reads the request lists. */
  function SendFriendRequest(store: Store, view: FriendsView, user: Option<string>, toUserId: string,
                             reply: Reply, newId: string, now: Timestamp): (r: ActionResult)
    ensures !Present(user) ==> r == ActionResult(store, view, Error(NotLoggedIn))
    ensures Present(user) && reply.Failed? ==> r == ActionResult(store, view, Error(reply.message))
    ensures Present(user) && reply.Ok? ==>
              && r.error == NoError
              && r.store == store.(requests := store.requests + [FriendRequest(newId, user.value, toUserId, Pending, now, now)])
              && r.view == RefreshRequests(view, r.store, user)
  {
    if !Present(user) then ActionResult(store, view, Error(NotLoggedIn))
    else if reply.Failed? then ActionResult(store, view, Error(reply.message))
    else
      var row := FriendRequest(newId, user.value, toUserId, Pending, now, now);
      var store' := store.(requests := store.requests + [row]);
      ActionResult(store', RefreshRequests(view, store', user), NoError)
  }

  /** `acceptFriendRequest(requestId, fromUserId)`: first marks the request
      accepted; only if that succeeds, inserts the two rows (user, from) and
      (from, user) in one statement (both or neither), and only if that
      succeeds re-reads the friends and the requests. A failed insert leaves
      the request accepted with no friendship, since nothing is rolled
      back. Neither the request's current status nor its sender is checked
      against `fromUserId`. */
  function AcceptFriendRequest(store: Store, view: FriendsView, user: Option<string>,
                               requestId: string, fromUserId: string,
                               updateReply: Reply, insertReply: Reply,
                               id1: string, id2: string, now: Timestamp): (r: ActionResult)
    requires FriendsHaveProfiles(store)
    ensures FriendsHaveProfiles(r.store)
    ensures !Present(user) ==> r == ActionResult(store, view, Error(NotLoggedIn))
    ensures Present(user) && updateReply.Failed? ==> r == ActionResult(store, view, Error(updateReply.message))
    ensures Present(user) && updateReply.Ok? ==>
              && r.store.requests == SetStatus(store.requests, requestId, Accepted)
              && r.store.profiles == store.profiles && r.store.messages == store.messages
    ensures Present(user) && updateReply.Ok? && r.error != NoError ==>
              r.store.friendships == store.friendships && r.view == view
    ensures Present(user) && updateReply.Ok? && insertReply.Failed? ==>
              r == ActionResult(store.(requests := SetStatus(store.requests, requestId, Accepted)),
                                view, Error(insertReply.message))
    ensures Present(user) && updateReply.Ok? && insertReply.Ok? ==>
              (r.error == NoError <==>
                 HasProfile(store.profiles, user.value) && HasProfile(store.profiles, fromUserId))
    ensures Present(user) && updateReply.Ok? && insertReply.Ok?
            && !(HasProfile(store.profiles, user.value) && HasProfile(store.profiles, fromUserId)) ==>
              r == ActionResult(store.(requests := SetStatus(store.requests, requestId, Accepted)),
                                view, Error(ForeignKeyViolation))
    ensures Present(user) && updateReply.Ok? && r.error == NoError ==>
              && r.store.friendships == store.friendships
                   + [Friendship(id1, user.value, fromUserId, now), Friendship(id2, fromUserId, user.value, now)]
              && r.view == RefreshRequests(FetchFriends(view, r.store, user, Ok), r.store, user)
  {
    if !Present(user) then ActionResult(store, view, Error(NotLoggedIn))
    else if updateReply.Failed? then ActionResult(store, view, Error(updateReply.message))
    else
      var u := user.value;
      var updated := store.(requests := SetStatus(store.requests, requestId, Accepted));
      if insertReply.Failed? then ActionResult(updated, view, Error(insertReply.message))
      else if !HasProfile(store.profiles, u) || !HasProfile(store.profiles, fromUserId) then
        ActionResult(updated, view, Error(ForeignKeyViolation))
      else
        var pair := [Friendship(id1, u, fromUserId, now), Friendship(id2, fromUserId, u, now)];
        var store' := updated.(friendships := store.friendships + pair);
        ActionResult(store', RefreshRequests(FetchFriends(view, store', user, Ok), store', user), NoError)
  }

  /** `declineFriendRequest(requestId)`: marks the request declined and, on
      success, re-reads the requests. There is no signed-in check here; the
      re-read does nothing without a user. */
  function DeclineFriendRequest(store: Store, view: FriendsView, user: Option<string>,
                                requestId: string, reply: Reply): (r: ActionResult)
    ensures reply.Failed? ==> r == ActionResult(store, view, Error(reply.message))
    ensures reply.Ok? ==>
              && r.error == NoError
              && r.store == store.(requests := SetStatus(store.requests, requestId, Declined))
              && r.view == RefreshRequests(view, r.store, user)
  {
    if reply.Failed? then ActionResult(store, view, Error(reply.message))
    else
      var store' := store.(requests := SetStatus(store.requests, requestId, Declined));
      ActionResult(store', RefreshRequests(view, store', user), NoError)
  }

  /** The rows `removeFriend` deletes: the pair in either direction. */
  predicate BetweenPair(f: Friendship, a: string, b: string) {
    (f.userId == a && f.friendId == b) || (f.userId == b && f.friendId == a)
  }

  /** `removeFriend(friendId)`: deletes both directional rows of the pair in
      one statement and, on success, re-reads the friends. */
  function RemoveFriend(store: Store, view: FriendsView, user: Option<string>, friendId: string,
                        reply: Reply): (r: ActionResult)
    requires FriendsHaveProfiles(store)
    ensures FriendsHaveProfiles(r.store)
    ensures !Present(user) ==> r == ActionResult(store, view, Error(NotLoggedIn))
    ensures Present(user) && reply.Failed? ==> r == ActionResult(store, view, Error(reply.message))
    ensures Present(user) && reply.Ok? ==>
              && r.error == NoError
              && r.store.requests == store.requests && r.store.profiles == store.profiles
              && r.store.messages == store.messages
              && r.store.friendships == Filter(store.friendships, (f: Friendship) => !BetweenPair(f, user.value, friendId))
              && r.view == FetchFriends(view, r.store, user, Ok)
  {
    if !Present(user) then ActionResult(store, view, Error(NotLoggedIn))
    else if reply.Failed? then ActionResult(store, view, Error(reply.message))
    else
      var kept := Filter(store.friendships, (f: Friendship) => !BetweenPair(f, user.value, friendId));
      var store' := store.(friendships := kept);
      assert FriendsHaveProfiles(store') by {
        forall i | 0 <= i < |kept| ensures HasProfile(store'.profiles, kept[i].friendId) {
          var j :| 0 <= j < |store.friendships| && store.friendships[j] == kept[i];
        }
      }
      ActionResult(store', FetchFriends(view, store', user, Ok), NoError)
  }

  // ---------------------------------------------------------------------
  // realtime events

  /** A profile UPDATE event: the friend with the profile's id is replaced
      in place. Ignored without a user, since nothing is subscribed. */
  function OnProfileUpdate(view: FriendsView, user: Option<string>, p: Profile): (r: FriendsView)
    ensures r.pendingRequests == view.pendingRequests && r.sentRequests == view.sentRequests
    ensures |r.friends| == |view.friends|
    ensures forall i :: 0 <= i < |view.friends| ==>
              r.friends[i] == if Present(user) && view.friends[i].id == p.id then p else view.friends[i]
  {
    if Present(user) then view.(friends := MapWhere(view.friends, (f: Profile) => f.id == p.id, (_: Profile) => p))
    else view
  }

  /** The `friend_requests` change handler: any insert, update or delete of
      a request re-reads the two request lists, and nothing else. The
      friend list is left as it was, and a list whose read fails keeps its
      old contents. */
  function OnRequestsChange(view: FriendsView, store: Store, user: Option<string>,
                            receivedReply: Reply, sentReply: Reply): (r: FriendsView)
    ensures r.friends == view.friends
    ensures !Present(user) ==> r == view
    ensures receivedReply.Failed? ==> r.pendingRequests == view.pendingRequests
    ensures sentReply.Failed? ==> r.sentRequests == view.sentRequests
    ensures receivedReply.Ok? ==> r.pendingRequests == RefreshRequests(view, store, user).pendingRequests
    ensures sentReply.Ok? ==> r.sentRequests == RefreshRequests(view, store, user).sentRequests
  {
    FetchFriendRequests(view, store, user, receivedReply, sentReply)
  }

  /** The hook's load effect: friends and requests fetched together. The
      three reads are independent; each list whose read succeeds is
      replaced, and the friend list then names exactly the users the table
      links the user to. */
  function Load(view: FriendsView, store: Store, user: Option<string>,
                friendsReply: Reply, receivedReply: Reply, sentReply: Reply): (r: FriendsView)
    requires FriendsHaveProfiles(store)
    ensures !Present(user) ==> r == view
    ensures friendsReply.Failed? ==> r.friends == view.friends
    ensures Present(user) && friendsReply.Ok? ==> r.friends == FetchFriends(view, store, user, Ok).friends
    ensures Present(user) && friendsReply.Ok? ==>
              forall id :: HasFriend(r.friends, id) <==> Linked(store.friendships, user.value, id)
    ensures receivedReply.Failed? ==> r.pendingRequests == view.pendingRequests
    ensures sentReply.Failed? ==> r.sentRequests == view.sentRequests
    ensures receivedReply.Ok? ==> r.pendingRequests == RefreshRequests(view, store, user).pendingRequests
    ensures sentReply.Ok? ==> r.sentRequests == RefreshRequests(view, store, user).sentRequests
  {
    var fetched := FetchFriends(view, store, user, friendsReply);
    if Present(user) && friendsReply.Ok? then
      FetchedFriendsMatchLinks(view, store, user);
      FetchFriendRequests(fetched, store, user, receivedReply, sentReply)
    else
      FetchFriendRequests(fetched, store, user, receivedReply, sentReply)
  }

  /** The request change handler with the friend list re-read as well, so
      that an accept made by the other side is listed at once. It leaves
      the same lists as loading the hook again. */
  function OnRequestsChangeWithFriends(view: FriendsView, store: Store, user: Option<string>,
                                       friendsReply: Reply, receivedReply: Reply, sentReply: Reply)
    : (r: FriendsView)
    requires FriendsHaveProfiles(store)
    ensures friendsReply.Failed? ==> r.friends == view.friends
    ensures Present(user) && friendsReply.Ok? ==>
              forall id :: HasFriend(r.friends, id) <==> Linked(store.friendships, user.value, id)
    ensures r.pendingRequests == OnRequestsChange(view, store, user, receivedReply, sentReply).pendingRequests
    ensures r.sentRequests == OnRequestsChange(view, store, user, receivedReply, sentReply).sentRequests
  {
    Load(view, store, user, friendsReply, receivedReply, sentReply)
  }

  // ---------------------------------------------------------------------
  // properties

  lemma LinkedExtend(fs: seq<Friendship>, more: seq<Friendship>, a: string, b: string)
    requires Linked(fs, a, b)
    ensures Linked(fs + more, a, b)
  {
    var i :| 0 <= i < |fs| && fs[i].userId == a && fs[i].friendId == b;
    assert (fs + more)[i] == fs[i];
  }

  /** A successful accept makes the two users friends of each other, and a
      symmetric friendship table stays symmetric. */
  lemma AcceptLinksBothWays(store: Store, view: FriendsView, user: Option<string>,
                            requestId: string, fromUserId: string,
                            id1: string, id2: string, now: Timestamp)
    requires FriendsHaveProfiles(store)
    requires HasProfile(store.profiles, user.GetOr("")) && HasProfile(store.profiles, fromUserId)
    requires Present(user)
    ensures var r := AcceptFriendRequest(store, view, user, requestId, fromUserId, Ok, Ok, id1, id2, now);
            && r.error == NoError
            && Linked(r.store.friendships, user.value, fromUserId)
            && Linked(r.store.friendships, fromUserId, user.value)
            && (Symmetric(store.friendships) ==> Symmetric(r.store.friendships))
  {
    var r := AcceptFriendRequest(store, view, user, requestId, fromUserId, Ok, Ok, id1, id2, now);
    var pair := [Friendship(id1, user.value, fromUserId, now), Friendship(id2, fromUserId, user.value, now)];
    assert r.store.friendships == store.friendships + pair;
    AppendPairLinks(store.friendships, pair);
  }

  /** Appending a row and its mirror image links the two users both ways
      and keeps a symmetric table symmetric. */
  lemma AppendPairLinks(fs: seq<Friendship>, pair: seq<Friendship>)
    requires |pair| == 2
    requires pair[1].userId == pair[0].friendId && pair[1].friendId == pair[0].userId
    ensures Linked(fs + pair, pair[0].userId, pair[0].friendId)
    ensures Linked(fs + pair, pair[0].friendId, pair[0].userId)
    ensures Symmetric(fs) ==> Symmetric(fs + pair)
  {
    var fs' := fs + pair;
    assert fs'[|fs|] == pair[0] && fs'[|fs| + 1] == pair[1];
    if Symmetric(fs) {
      forall i | 0 <= i < |fs'| ensures Linked(fs', fs'[i].friendId, fs'[i].userId) {
        if i < |fs| {
          assert fs'[i] == fs[i];
          LinkedExtend(fs, pair, fs[i].friendId, fs[i].userId);
        }
      }
    }
  }

  /** When the status update succeeds and the friendship insert fails, the
      request is left accepted with no friendship behind it: it has left
      both pending lists for good, nothing links the two users that did not
      before, and the user still sees the lists as they were. */
  lemma AcceptedWithoutFriendship(store: Store, view: FriendsView, user: Option<string>,
                                  requestId: string, fromUserId: string, message: string,
                                  id1: string, id2: string, now: Timestamp)
    requires FriendsHaveProfiles(store)
    requires Present(user) && !Linked(store.friendships, user.value, fromUserId)
    ensures var r := AcceptFriendRequest(store, view, user, requestId, fromUserId, Ok, Failed(message),
                                         id1, id2, now);
            var later := RefreshRequests(r.view, r.store, user);
            && r.error == Error(message)
            && r.view == view
            && !Linked(r.store.friendships, user.value, fromUserId)
            && (forall i :: 0 <= i < |r.store.requests| && r.store.requests[i].id == requestId ==>
                  r.store.requests[i].status == Accepted)
            && (forall i :: 0 <= i < |later.pendingRequests| ==> later.pendingRequests[i].id != requestId)
            && (forall i :: 0 <= i < |later.sentRequests| ==> later.sentRequests[i].id != requestId)
  {
    var r := AcceptFriendRequest(store, view, user, requestId, fromUserId, Ok, Failed(message),
                                 id1, id2, now);
    SettledIdNotListed(r.store, r.view, user, requestId);
  }

  /** Accepting settles the request: nothing with its id is left in either
      pending list of the accepting user, and the request rows with that id
      now read accepted. */
  lemma AcceptSettlesRequest(store: Store, view: FriendsView, user: Option<string>,
                             requestId: string, fromUserId: string,
                             id1: string, id2: string, now: Timestamp)
    requires FriendsHaveProfiles(store)
    requires Present(user)
    ensures var r := AcceptFriendRequest(store, view, user, requestId, fromUserId, Ok, Ok, id1, id2, now);
            && (forall i :: 0 <= i < |r.store.requests| && r.store.requests[i].id == requestId ==>
                  r.store.requests[i].status == Accepted)
            && (r.error == NoError ==>
                  && (forall i :: 0 <= i < |r.view.pendingRequests| ==> r.view.pendingRequests[i].id != requestId)
                  && (forall i :: 0 <= i < |r.view.sentRequests| ==> r.view.sentRequests[i].id != requestId))
  {
    var r := AcceptFriendRequest(store, view, user, requestId, fromUserId, Ok, Ok, id1, id2, now);
    if r.error == NoError {
      SettledIdNotListed(r.store, FetchFriends(view, r.store, user, Ok), user, requestId);
    }
  }

  /** Declining settles the request the same way, and touches no other
      request. */
  lemma DeclineSettlesRequest(store: Store, view: FriendsView, user: Option<string>, requestId: string)
    requires Present(user)
    ensures var r := DeclineFriendRequest(store, view, user, requestId, Ok);
            && (forall i :: 0 <= i < |r.store.requests| ==>
                  if store.requests[i].id == requestId then r.store.requests[i].status == Declined
                  else r.store.requests[i] == store.requests[i])
            && (forall i :: 0 <= i < |r.view.pendingRequests| ==> r.view.pendingRequests[i].id != requestId)
            && (forall i :: 0 <= i < |r.view.sentRequests| ==> r.view.sentRequests[i].id != requestId)
  {
    var r := DeclineFriendRequest(store, view, user, requestId, Ok);
    assert forall i :: 0 <= i < |r.store.requests| && r.store.requests[i].id == requestId ==>
             r.store.requests[i].status != Pending;
    SettledIdNotListed(r.store, view, user, requestId);
  }

  /** The rows left after deleting a pair. */
  function WithoutPair(fs: seq<Friendship>, a: string, b: string): seq<Friendship> {
    Filter(fs, (f: Friendship) => !BetweenPair(f, a, b))
  }

  lemma {:induction false} WithoutPairKeepsSymmetry(fs: seq<Friendship>, a: string, b: string)
    requires Symmetric(fs)
    ensures Symmetric(WithoutPair(fs, a, b))
  {
    var kept := WithoutPair(fs, a, b);
    forall i | 0 <= i < |kept| ensures Linked(kept, kept[i].friendId, kept[i].userId) {
      var j :| 0 <= j < |fs| && fs[j] == kept[i];
      assert Linked(fs, fs[j].friendId, fs[j].userId);
      var k :| 0 <= k < |fs| && fs[k].userId == fs[j].friendId && fs[k].friendId == fs[j].userId;
      assert !BetweenPair(fs[k], a, b);
      assert fs[k] in kept;
      var m :| 0 <= m < |kept| && kept[m] == fs[k];
    }
  }

  lemma WithoutPairUnlinks(fs: seq<Friendship>, a: string, b: string)
    ensures !Linked(WithoutPair(fs, a, b), a, b) && !Linked(WithoutPair(fs, a, b), b, a)
  {
  }

  /** Removing a friend deletes exactly the pair's rows: neither direction
      is left, every other row is kept, a symmetric table stays symmetric,
      and the removed friend drops out of the re-read friend list. */
  lemma RemoveUnlinksPair(store: Store, view: FriendsView, user: Option<string>, friendId: string)
    requires FriendsHaveProfiles(store)
    requires Present(user)
    ensures var r := RemoveFriend(store, view, user, friendId, Ok);
            && !Linked(r.store.friendships, user.value, friendId)
            && !Linked(r.store.friendships, friendId, user.value)
            && (forall i :: 0 <= i < |store.friendships| && !BetweenPair(store.friendships[i], user.value, friendId) ==>
                  store.friendships[i] in r.store.friendships)
            && (Symmetric(store.friendships) ==> Symmetric(r.store.friendships))
            && (forall i :: 0 <= i < |r.view.friends| ==> r.view.friends[i].id != friendId)
  {
    var u := user.value;
    var r := RemoveFriend(store, view, user, friendId, Ok);
    var kept := WithoutPair(store.friendships, u, friendId);
    assert r.store.friendships == kept;
    WithoutPairUnlinks(store.friendships, u, friendId);
    if Symmetric(store.friendships) {
      WithoutPairKeepsSymmetry(store.friendships, u, friendId);
    }
    var rows := OwnRows(kept, u);
    forall i | 0 <= i < |rows| ensures rows[i].friendId != friendId {
      assert rows[i] in kept;
    }
  }

  /** A profile event for someone not in the list changes nothing. */
  lemma ProfileUpdateForStranger(view: FriendsView, user: Option<string>, p: Profile)
    requires forall i :: 0 <= i < |view.friends| ==> view.friends[i].id != p.id
    ensures OnProfileUpdate(view, user, p) == view
  {
  }

  /** Delivering the same profile event twice is delivering it once. */
  lemma ProfileUpdateIdempotent(view: FriendsView, user: Option<string>, p: Profile)
    ensures OnProfileUpdate(OnProfileUpdate(view, user, p), user, p) == OnProfileUpdate(view, user, p)
  {
  }

  /** Some profile in the list has the id. */
  predicate HasFriend(friends: seq<Profile>, id: string) {
    exists i :: 0 <= i < |friends| && friends[i].id == id
  }

  /** The friends list read for `user` names everyone the table links the
      user to. */
  lemma FetchedFriendsCoverLinks(view: FriendsView, store: Store, user: Option<string>, friendId: string)
    requires FriendsHaveProfiles(store) && Present(user)
    requires Linked(store.friendships, user.value, friendId)
    ensures HasFriend(FetchFriends(view, store, user, Ok).friends, friendId)
  {
    var fs := store.friendships;
    var rows := OwnRows(fs, user.value);
    var r := FetchFriends(view, store, user, Ok);
    var j :| 0 <= j < |fs| && fs[j].userId == user.value && fs[j].friendId == friendId;
    assert fs[j] in rows;
    var k :| 0 <= k < |rows| && rows[k] == fs[j];
    assert r.friends[k].id == friendId;
  }

  /** A fetched friend list names exactly the users the table links the
      user to. */
  lemma FetchedFriendsMatchLinks(view: FriendsView, store: Store, user: Option<string>)
    requires FriendsHaveProfiles(store) && Present(user)
    ensures forall id :: HasFriend(FetchFriends(view, store, user, Ok).friends, id)
                         <==> Linked(store.friendships, user.value, id)
  {
    forall id ensures HasFriend(FetchFriends(view, store, user, Ok).friends, id)
                      <==> Linked(store.friendships, user.value, id) {
      if Linked(store.friendships, user.value, id) {
        FetchedFriendsCoverLinks(view, store, user, id);
      }
      if HasFriend(FetchFriends(view, store, user, Ok).friends, id) {
        FetchedFriendsAreLinked(view, store, user, id);
      }
    }
  }

  /** Every friend in a fetched list is linked to the user by some row. */
  lemma FetchedFriendsAreLinked(view: FriendsView, store: Store, user: Option<string>, id: string)
    requires FriendsHaveProfiles(store) && Present(user)
    requires HasFriend(FetchFriends(view, store, user, Ok).friends, id)
    ensures Linked(store.friendships, user.value, id)
  {
    var friends := FetchFriends(view, store, user, Ok).friends;
    var rows := OwnRows(store.friendships, user.value);
    var i :| 0 <= i < |friends| && friends[i].id == id;
    assert rows[i] in store.friendships;
    var j :| 0 <= j < |store.friendships| && store.friendships[j] == rows[i];
  }

  /** A request just sent by U shows up in V's received list. */
  lemma SentRequestReachesRecipient(store: Store, viewU: FriendsView, viewV: FriendsView,
                                    u: string, v: string, requestId: string, t: Timestamp)
    requires u != "" && v != ""
    ensures var sent := SendFriendRequest(store, viewU, Some(u), v, Ok, requestId, t);
            var seenByV := RefreshRequests(viewV, sent.store, Some(v));
            exists i :: 0 <= i < |seenByV.pendingRequests| && seenByV.pendingRequests[i].id == requestId
              && seenByV.pendingRequests[i].fromUserId == u && seenByV.pendingRequests[i].status == Pending
  {
    var sent := SendFriendRequest(store, viewU, Some(u), v, Ok, requestId, t);
    var row := FriendRequest(requestId, u, v, Pending, t, t);
    assert sent.store.requests[|store.requests|] == row;
    var seenByV := RefreshRequests(viewV, sent.store, Some(v));
    assert row in seenByV.pendingRequests;
  }

  /** The requester is not told about an accept: V's accept fires U's
      request change handler, which re-reads only U's request lists. So
      although the table now links U to V, U's friend list still lacks V
      until U's hook loads again. */
  lemma AcceptUnseenByRequester(store: Store, viewU: FriendsView, viewV: FriendsView,
                                u: string, v: string, requestId: string,
                                id1: string, id2: string, t: Timestamp)
    requires FriendsHaveProfiles(store)
    requires u != "" && v != ""
    requires HasProfile(store.profiles, u) && HasProfile(store.profiles, v)
    requires !HasFriend(viewU.friends, v)
    ensures var accepted := AcceptFriendRequest(store, viewV, Some(v), requestId, u, Ok, Ok, id1, id2, t);
            var liveU := OnRequestsChange(viewU, accepted.store, Some(u), Ok, Ok);
            && accepted.error == NoError
            && Linked(accepted.store.friendships, u, v)
            && !HasFriend(liveU.friends, v)
  {
    AcceptLinksBothWays(store, viewV, Some(v), requestId, u, id1, id2, t);
  }

  /** What V and U see after V accepts U's request, U's side read by the
      corrected request change handler, or equally by U's next load. */
  lemma AcceptedPairSeesEachOther(store: Store, viewU: FriendsView, viewV: FriendsView,
                                  u: string, v: string, requestId: string,
                                  id1: string, id2: string, t: Timestamp)
    requires FriendsHaveProfiles(store)
    requires u != "" && v != ""
    requires HasProfile(store.profiles, u) && HasProfile(store.profiles, v)
    ensures var accepted := AcceptFriendRequest(store, viewV, Some(v), requestId, u, Ok, Ok, id1, id2, t);
            var seenByU := OnRequestsChangeWithFriends(viewU, accepted.store, Some(u), Ok, Ok, Ok);
            && accepted.error == NoError
            && HasFriend(accepted.view.friends, u)
            && HasFriend(seenByU.friends, v)
            && (forall i :: 0 <= i < |seenByU.pendingRequests| ==> seenByU.pendingRequests[i].id != requestId)
            && (forall i :: 0 <= i < |seenByU.sentRequests| ==> seenByU.sentRequests[i].id != requestId)
            && (forall i :: 0 <= i < |accepted.view.pendingRequests| ==> accepted.view.pendingRequests[i].id != requestId)
            && (forall i :: 0 <= i < |accepted.view.sentRequests| ==> accepted.view.sentRequests[i].id != requestId)
  {
    var accepted := AcceptFriendRequest(store, viewV, Some(v), requestId, u, Ok, Ok, id1, id2, t);
    AcceptLinksBothWays(store, viewV, Some(v), requestId, u, id1, id2, t);
    AcceptSettlesRequest(store, viewV, Some(v), requestId, u, id1, id2, t);
    FetchedFriendsCoverLinks(viewV, accepted.store, Some(v), u);
    FetchedFriendsCoverLinks(viewU, accepted.store, Some(u), v);
    SettledIdNotListed(accepted.store, FetchFriends(viewU, accepted.store, Some(u), Ok), Some(u), requestId);
  }

  /** The request workflow end to end: U sends V a request, which V then
      sees as a pending request from U; V accepts it; afterwards each of U
      and V has the other in their friends list, U's side once read by the
      corrected request change handler or by U's next load, and neither
      sees the request in a pending list. */
  lemma RequestAcceptScenario(store: Store, viewU: FriendsView, viewV: FriendsView,
                              u: string, v: string, requestId: string,
                              id1: string, id2: string, t1: Timestamp, t2: Timestamp)
    requires FriendsHaveProfiles(store)
    requires u != "" && v != ""
    requires HasProfile(store.profiles, u) && HasProfile(store.profiles, v)
    ensures var sent := SendFriendRequest(store, viewU, Some(u), v, Ok, requestId, t1);
            var seenByV := RefreshRequests(viewV, sent.store, Some(v));
            var accepted := AcceptFriendRequest(sent.store, seenByV, Some(v), requestId, u, Ok, Ok, id1, id2, t2);
            var seenByU := OnRequestsChangeWithFriends(sent.view, accepted.store, Some(u), Ok, Ok, Ok);
            && sent.error == NoError
            && (exists i :: 0 <= i < |seenByV.pendingRequests| && seenByV.pendingRequests[i].id == requestId
                  && seenByV.pendingRequests[i].fromUserId == u && seenByV.pendingRequests[i].status == Pending)
            && accepted.error == NoError
            && HasFriend(accepted.view.friends, u)
            && HasFriend(seenByU.friends, v)
            && (forall i :: 0 <= i < |seenByU.pendingRequests| ==> seenByU.pendingRequests[i].id != requestId)
            && (forall i :: 0 <= i < |seenByU.sentRequests| ==> seenByU.sentRequests[i].id != requestId)
            && (forall i :: 0 <= i < |accepted.view.pendingRequests| ==> accepted.view.pendingRequests[i].id != requestId)
            && (forall i :: 0 <= i < |accepted.view.sentRequests| ==> accepted.view.sentRequests[i].id != requestId)
  {
    var sent := SendFriendRequest(store, viewU, Some(u), v, Ok, requestId, t1);
    var s1 := sent.store;
    assert s1.profiles == store.profiles && s1.friendships == store.friendships;
    SentRequestReachesRecipient(store, viewU, viewV, u, v, requestId, t1);
    var seenByV := RefreshRequests(viewV, s1, Some(v));
    AcceptedPairSeesEachOther(s1, sent.view, seenByV, u, v, requestId, id1, id2, t2);
  }

  /** Once every request with an id is settled, a re-read lists nothing
      with that id. */
  lemma SettledIdNotListed(store: Store, view: FriendsView, user: Option<string>, requestId: string)
    requires Present(user)
    requires forall i :: 0 <= i < |store.requests| && store.requests[i].id == requestId ==>
               store.requests[i].status != Pending
    ensures var r := RefreshRequests(view, store, user);
            && (forall i :: 0 <= i < |r.pendingRequests| ==> r.pendingRequests[i].id != requestId)
            && (forall i :: 0 <= i < |r.sentRequests| ==> r.sentRequests[i].id != requestId)
  {
  }
}

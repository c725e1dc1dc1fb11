/** The search panel (`UserSearch`): which lookup a settled query triggers,
    and how each result is labelled against the user's current friend and
    request lists. */
module UserSearch {
  import opened Prelude
  import opened Entities
  import opened Text
  import Search
  import Lists
  import Friends

  /** How a search result relates to the user. */
  datatype Status = Friend | SentRequest | ReceivedRequest | Unrelated

  predicate RequestSentTo(sent: seq<FriendRequest>, id: string) {
    exists i :: 0 <= i < |sent| && sent[i].toUserId == id
  }

  predicate RequestReceivedFrom(pending: seq<FriendRequest>, id: string) {
    exists i :: 0 <= i < |pending| && pending[i].fromUserId == id
  }

  predicate IsPendingBetween(q: FriendRequest, from: string, to: string) {
    q.fromUserId == from && q.toUserId == to && q.status == Pending
  }

  /** The table holds a pending request from `from` to `to`. */
  predicate PendingBetween(requests: seq<FriendRequest>, from: string, to: string) {
    exists i :: 0 <= i < |requests| && IsPendingBetween(requests[i], from, to)
  }

  /** `getStatus(userId)`: the first of friend, sent, received that applies,
      else none. */
  function GetStatus(friends: seq<Profile>, sent: seq<FriendRequest>, pending: seq<FriendRequest>,
                     id: string): (r: Status)
    ensures r == Friend <==> Friends.HasFriend(friends, id)
    ensures r == SentRequest <==> !Friends.HasFriend(friends, id) && RequestSentTo(sent, id)
    ensures r == ReceivedRequest <==>
              !Friends.HasFriend(friends, id) && !RequestSentTo(sent, id) && RequestReceivedFrom(pending, id)
    ensures r == Unrelated <==>
              !Friends.HasFriend(friends, id) && !RequestSentTo(sent, id) && !RequestReceivedFrom(pending, id)
  {
    if exists i :: 0 <= i < |friends| && friends[i].id == id then Friend
    else if exists i :: 0 <= i < |sent| && sent[i].toUserId == id then SentRequest
    else if exists i :: 0 <= i < |pending| && pending[i].fromUserId == id then ReceivedRequest
    else Unrelated
  }

  /** Read against freshly fetched lists, the label says what the backend
      holds: friend exactly when a friendship row links the user to the
      other; sent exactly when, short of that, the user has a pending
      request to them; received exactly when, short of both, they have a
      pending request to the user. */
  lemma StatusReflectsStore(view: Friends.FriendsView, store: Store, user: Option<string>, id: string)
    requires FriendsHaveProfiles(store) && Present(user)
    ensures var v := Friends.RefreshRequests(Friends.FetchFriends(view, store, user, Ok), store, user);
            var linked := Friends.Linked(store.friendships, user.value, id);
            var sentTo := PendingBetween(store.requests, user.value, id);
            var receivedFrom := PendingBetween(store.requests, id, user.value);
            var s := GetStatus(v.friends, v.sentRequests, v.pendingRequests, id);
            && (s == Friend <==> linked)
            && (s == SentRequest <==> !linked && sentTo)
            && (s == ReceivedRequest <==> !linked && !sentTo && receivedFrom)
  {
    var fetched := Friends.FetchFriends(view, store, user, Ok);
    Friends.FetchedFriendsMatchLinks(view, store, user);
    FreshRequestListsReflectStore(fetched, store, user.value, id);
  }

  /** Freshly read request lists mention `id` exactly when the table holds
      a pending request between the user and `id` in that direction. */
  lemma FreshRequestListsReflectStore(view: Friends.FriendsView, store: Store, u: string, id: string)
    requires u != ""
    ensures var v := Friends.RefreshRequests(view, store, Some(u));
            && (RequestSentTo(v.sentRequests, id) <==> PendingBetween(store.requests, u, id))
            && (RequestReceivedFrom(v.pendingRequests, id) <==> PendingBetween(store.requests, id, u))
  {
    SentListReflectsStore(store.requests, u, id);
    ReceivedListReflectsStore(store.requests, u, id);
  }

  lemma SentListReflectsStore(requests: seq<FriendRequest>, u: string, id: string)
    ensures RequestSentTo(Lists.Filter(requests, (q: FriendRequest) => Friends.PendingFrom(q, u)), id)
            <==> PendingBetween(requests, u, id)
  {
    var sent := Lists.Filter(requests, (q: FriendRequest) => Friends.PendingFrom(q, u));
    if RequestSentTo(sent, id) {
      var i :| 0 <= i < |sent| && sent[i].toUserId == id;
      var j :| 0 <= j < |requests| && requests[j] == sent[i];
      assert IsPendingBetween(requests[j], u, id);
    }
    if PendingBetween(requests, u, id) {
      var i :| 0 <= i < |requests| && IsPendingBetween(requests[i], u, id);
      assert requests[i] in sent;
    }
  }

  lemma ReceivedListReflectsStore(requests: seq<FriendRequest>, u: string, id: string)
    ensures RequestReceivedFrom(Lists.Filter(requests, (q: FriendRequest) => Friends.PendingTo(q, u)), id)
            <==> PendingBetween(requests, id, u)
  {
    var received := Lists.Filter(requests, (q: FriendRequest) => Friends.PendingTo(q, u));
    if RequestReceivedFrom(received, id) {
      var i :| 0 <= i < |received| && received[i].fromUserId == id;
      var j :| 0 <= j < |requests| && requests[j] == received[i];
      assert IsPendingBetween(requests[j], id, u);
    }
    if PendingBetween(requests, id, u) {
      var i :| 0 <= i < |requests| && IsPendingBetween(requests[i], id, u);
      assert requests[i] in received;
    }
  }

  /** The effect run when the debounced query settles: a non-empty query is
      searched, an empty one clears the results. The contract is this
      dispatch rule; what a search returns is `Search.SearchUsers`' own
      contract, and `BlankQueryListsNoOne` follows a blank query through. */
  function OnQuerySettled(debouncedQuery: string, profiles: seq<Profile>, user: Option<string>,
                          reply: Reply): (r: seq<Profile>)
    ensures debouncedQuery == "" ==> r == []
    ensures debouncedQuery != "" ==> r == Search.SearchUsers(profiles, user, debouncedQuery, reply)
  {
    if debouncedQuery != "" then Search.SearchUsers(profiles, user, debouncedQuery, reply)
    else Search.ClearResults()
  }

  /** A query of only whitespace reaches the search, whose own guard then
      clears the results: a blank query never lists anyone. */
  lemma BlankQueryListsNoOne(debouncedQuery: string, profiles: seq<Profile>, user: Option<string>,
                             reply: Reply)
    requires Blank(debouncedQuery)
    ensures OnQuerySettled(debouncedQuery, profiles, user, reply) == []
  {
  }
}

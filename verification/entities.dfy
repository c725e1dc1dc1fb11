/** The rows of the backend tables the client reads and writes, and the
    in-memory stand-in for the backend itself. Identifiers are opaque
    strings; the ISO-8601 timestamps of the tables are modelled as the
    instants they denote. */
module Entities {
  import opened Prelude

  type Timestamp = int

  /** A user's public identity record. */
  datatype Profile = Profile(
    id: string,
    username: string,
    displayName: string,
    avatarUrl: Option<string>,
    isOnline: bool,
    lastSeen: Timestamp,
    createdAt: Timestamp,
    updatedAt: Timestamp)

  datatype RequestStatus = Pending | Accepted | Declined

  /** A directed proposal of friendship. The joined `from_user` / `to_user`
      profiles are display data resolved by the backend and are not kept. */
  datatype FriendRequest = FriendRequest(
    id: string,
    fromUserId: string,
    toUserId: string,
    status: RequestStatus,
    createdAt: Timestamp,
    updatedAt: Timestamp)

  /** One direction of a friendship; a friendship between two users is two
      such rows. */
  datatype Friendship = Friendship(
    id: string,
    userId: string,
    friendId: string,
    createdAt: Timestamp)

  datatype Message = Message(
    id: string,
    senderId: string,
    receiverId: string,
    content: string,
    isRead: bool,
    createdAt: Timestamp)

  /** The hosted backend, replaced by its four tables held in memory, each in
      the order in which the backend returns rows that no `order` clause
      sorts. */
  datatype Store = Store(
    profiles: seq<Profile>,
    requests: seq<FriendRequest>,
    friendships: seq<Friendship>,
    messages: seq<Message>)

  /** Some profile row carries the identifier `id`. */
  predicate HasProfile(profiles: seq<Profile>, id: string) {
    exists i :: 0 <= i < |profiles| && profiles[i].id == id
  }

  /** The row with the identifier `id`; the first one, were there several. */
  function ProfileById(profiles: seq<Profile>, id: string): (p: Profile)
    requires HasProfile(profiles, id)
    ensures p in profiles && p.id == id
    ensures UniqueProfileIds(profiles) ==>
              forall i :: 0 <= i < |profiles| && profiles[i].id == id ==> profiles[i] == p
  {
    if profiles[0].id == id then profiles[0]
    else
      assert HasProfile(profiles[1..], id) by {
        var i :| 0 <= i < |profiles| && profiles[i].id == id;
        assert profiles[1..][i - 1] == profiles[i];
      }
      ProfileById(profiles[1..], id)
  }

  /** Identifiers are the profile table's primary key. */
  predicate UniqueProfileIds(profiles: seq<Profile>) {
    forall i, j :: 0 <= i < j < |profiles| ==> profiles[i].id != profiles[j].id
  }

  /** The foreign key from friendship rows to profiles holds. */
  predicate FriendsHaveProfiles(s: Store) {
    forall i :: 0 <= i < |s.friendships| ==> HasProfile(s.profiles, s.friendships[i].friendId)
  }
}

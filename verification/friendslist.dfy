/** The friend list panel (`FriendsList`): a sorted copy of the friends,
    online before offline and by display name within each group, shown as
    an online section and an offline section. `localeCompare` is read as
    code-point order. */
module FriendsList {
  import opened Entities
  import opened Lists
  import opened Sorting

  /** Code-point lexicographic order: `a` sorts no later than `b`. */
  predicate LexLe(a: string, b: string)
    decreases |a|
  {
    |a| == 0 || (|b| > 0 && (a[0] < b[0] || (a[0] == b[0] && LexLe(a[1..], b[1..]))))
  }

  lemma {:induction false} LexLeReflexive(a: string)
    ensures LexLe(a, a)
    decreases |a|
  {
    if |a| > 0 {
      LexLeReflexive(a[1..]);
    }
  }

  lemma {:induction false} LexLeTotal(a: string, b: string)
    ensures LexLe(a, b) || LexLe(b, a)
    decreases |a|
  {
    if |a| > 0 && |b| > 0 && a[0] == b[0] {
      LexLeTotal(a[1..], b[1..]);
    }
  }

  lemma {:induction false} LexLeTransitive(a: string, b: string, c: string)
    requires LexLe(a, b) && LexLe(b, c)
    ensures LexLe(a, c)
    decreases |a|
  {
    if |a| > 0 && a[0] == b[0] && b[0] == c[0] {
      LexLeTransitive(a[1..], b[1..], c[1..]);
    }
  }

  lemma {:induction false} LexLeAntisymmetric(a: string, b: string)
    requires LexLe(a, b) && LexLe(b, a)
    ensures a == b
    decreases |a|
  {
    if |a| > 0 {
      LexLeAntisymmetric(a[1..], b[1..]);
      assert a == [a[0]] + a[1..] && b == [b[0]] + b[1..];
    }
  }

  /** `a.localeCompare(b)`: negative, zero or positive as `a` sorts before,
      with, or after `b`. */
  function LocaleCompare(a: string, b: string): (r: int)
    ensures r == 0 <==> a == b
    ensures r < 0 <==> a != b && LexLe(a, b)
    ensures r > 0 <==> !LexLe(a, b)
  {
    LexLeReflexive(a);
    if a == b then 0 else if LexLe(a, b) then -1 else 1
  }

  /** The comparator handed to `sort`: an online friend before an offline
      one, otherwise by display name. */
  function CompareFriends(a: Profile, b: Profile): int {
    if a.isOnline != b.isOnline then (if b.isOnline then 1 else -1)
    else LocaleCompare(a.displayName, b.displayName)
  }

  /** `a` may come before `b`: the comparator does not put it after. */
  predicate FriendOrder(a: Profile, b: Profile) {
    CompareFriends(a, b) <= 0
  }

  /** The comparator orders by (online first, name). */
  lemma FriendOrderMeaning(a: Profile, b: Profile)
    ensures FriendOrder(a, b) <==>
              (a.isOnline && !b.isOnline) || (a.isOnline == b.isOnline && LexLe(a.displayName, b.displayName))
  {
    LexLeReflexive(a.displayName);
  }

  /** The comparator is consistent, so the sort is well defined. */
  lemma FriendOrderIsPreorder()
    ensures TotalPreorder(FriendOrder)
  {
    forall a: Profile, b: Profile ensures FriendOrder(a, b) || FriendOrder(b, a) {
      FriendOrderMeaning(a, b);
      FriendOrderMeaning(b, a);
      LexLeTotal(a.displayName, b.displayName);
    }
    forall a: Profile, b: Profile, c: Profile | FriendOrder(a, b) && FriendOrder(b, c)
      ensures FriendOrder(a, c)
    {
      FriendOrderMeaning(a, b);
      FriendOrderMeaning(b, c);
      FriendOrderMeaning(a, c);
      if a.isOnline == b.isOnline && b.isOnline == c.isOnline {
        LexLeTransitive(a.displayName, b.displayName, c.displayName);
      }
    }
  }

  /** `[...friends].sort(compare)`: a sorted copy; the input is a value and
      is not changed. The result holds the same friends, every online
      friend precedes every offline one, and within a group display names
      do not decrease. */
  function SortFriends(friends: seq<Profile>): (r: seq<Profile>)
    ensures |r| == |friends| && multiset(r) == multiset(friends)
    ensures forall i, j :: 0 <= i < j < |r| && r[j].isOnline ==> r[i].isOnline
    ensures forall i, j :: 0 <= i < j < |r| && r[i].isOnline == r[j].isOnline ==>
              LexLe(r[i].displayName, r[j].displayName)
  {
    var r := SortBy(friends, FriendOrder);
    FriendOrderIsPreorder();
    SortBySorted(friends, FriendOrder);
    assert forall i, j :: 0 <= i < j < |r| ==> FriendOrder(r[i], r[j]);
    assert forall a, b :: FriendOrder(a, b) ==>
             (a.isOnline && !b.isOnline) || (a.isOnline == b.isOnline && LexLe(a.displayName, b.displayName)) by {
      forall a, b ensures FriendOrder(a, b) ==>
               (a.isOnline && !b.isOnline) || (a.isOnline == b.isOnline && LexLe(a.displayName, b.displayName)) {
        FriendOrderMeaning(a, b);
      }
    }
    r
  }

  function OnlineFriends(sorted: seq<Profile>): seq<Profile> {
    Filter(sorted, (f: Profile) => f.isOnline)
  }

  function OfflineFriends(sorted: seq<Profile>): seq<Profile> {
    Filter(sorted, (f: Profile) => !f.isOnline)
  }

  /** What the panel shows. */
  datatype Panel = Skeleton | NoFriends | Sections(online: seq<Profile>, offline: seq<Profile>)

  /** The panel: the loading skeleton first of all, then the empty state for
      no friends, else the two sections of the sorted list. */
  function Render(loading: bool, friends: seq<Profile>): (r: Panel)
    ensures loading <==> r == Skeleton
    ensures r == NoFriends <==> !loading && |friends| == 0
    ensures r.Sections? ==>
              && (forall i :: 0 <= i < |r.online| ==> r.online[i].isOnline)
              && (forall i :: 0 <= i < |r.offline| ==> !r.offline[i].isOnline)
  {
    if loading then Skeleton
    else if |friends| == 0 then NoFriends
    else
      var sorted := SortFriends(friends);
      Sections(OnlineFriends(sorted), OfflineFriends(sorted))
  }

  /** The two sections split the sorted list: the online section followed
      by the offline one is the sorted list itself, so together they show
      every friend once, each section in sorted order. */
  lemma SectionsPartitionFriends(friends: seq<Profile>)
    requires |friends| > 0
    ensures var r := Render(false, friends);
            && r.online + r.offline == SortFriends(friends)
            && |r.online| + |r.offline| == |friends|
            && multiset(r.online + r.offline) == multiset(friends)
  {
    var sorted := SortFriends(friends);
    FilterPartition(sorted, (f: Profile) => f.isOnline, (f: Profile) => !f.isOnline);
  }
}

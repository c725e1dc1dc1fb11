/** One row of the friend list (`FriendItem`): the avatar initials and the
    unread badge, capped at "99+". The sidebar tab's badge in the chat page
    uses the same rule capped at "9+". */
module FriendItem {
  import opened Prelude
  import opened Entities
  import opened Text
  import Unread

  /** `unreadCount > 0`, with a missing count read as 0 (the prop's
      default). */
  function ShowsBadge(unreadCount: Option<nat>): (show: bool)
    ensures show <==> unreadCount.Some? && unreadCount.value > 0
  {
    unreadCount.GetOr(0) > 0
  }

  /** A count rendered as a number, or as `cap` followed by "+" above
      `cap`. */
  function CappedLabel(count: nat, cap: nat): (text: string)
    ensures count > cap ==> text == Decimal(cap) + "+"
    ensures count <= cap ==> text == Decimal(count) && DecimalValue(text) == count
    ensures |text| >= 1 && (text[|text| - 1] == '+' <==> count > cap)
  {
    if count > cap then Decimal(cap) + "+"
    else
      DecimalRoundTrip(count);
      Decimal(count)
  }

  /** The badge text of a friend row: "99+" above 99, else the count. */
  function BadgeLabel(count: nat): (text: string)
    ensures text == "99+" <==> count > 99
    ensures |text| <= 3
    ensures count <= 99 ==> text == Decimal(count) && DecimalValue(text) == count
    ensures count <= 99 && |text| > 1 ==> text[0] != '0'
  {
    assert Decimal(99) == "99";
    CappedLabel(count, 99)
  }

  /** The badge text of the sidebar's chats tab: "9+" above 9. */
  function SidebarBadgeLabel(total: nat): (text: string)
    ensures text == "9+" <==> total > 9
    ensures |text| <= 2
    ensures total <= 9 ==> text == Decimal(total) && |text| == 1 && DecimalValue(text) == total
  {
    assert Decimal(9) == "9";
    CappedLabel(total, 9)
  }

  /** A friend's row shows a badge exactly when the fetched tally says the
      friend has sent the user unread messages. */
  lemma BadgeShownIffUnread(counts: Unread.Counts, table: seq<Message>, user: Option<string>, friend: Profile)
    requires Present(user)
    ensures var tally := Unread.FetchUnreadCounts(counts, table, user, Ok);
            ShowsBadge(Unread.Get(tally, friend.id)) <==> Unread.UnreadFrom(table, user.value, friend.id) > 0
  {
  }

  /** The avatar fallback of a friend row holds one initial per word, up
      to two, and each initial is the upper-cased form of a non-space
      character of the display name. */
  lemma RowInitials(p: Profile)
    ensures |Initials(p.displayName)| == if |WordStarts(p.displayName, true)| < 2
                                         then |WordStarts(p.displayName, true)| else 2
    ensures forall i :: 0 <= i < |Initials(p.displayName)| ==>
              exists j :: 0 <= j < |p.displayName| && p.displayName[j] != ' '
                          && Initials(p.displayName)[i] == Upper(p.displayName[j])
  {
    var name := p.displayName;
    var ws := WordStarts(name, true);
    InitialsSpec(name);
    WordStartsAreNonSpace(name, true);
    forall i | 0 <= i < |Initials(name)|
      ensures exists j :: 0 <= j < |name| && name[j] != ' ' && Initials(name)[i] == Upper(name[j])
    {
      assert Initials(name)[i] == Upper(ws[i]);
      assert ws[i] in ws;
      var j :| 0 <= j < |name| && name[j] == ws[i];
    }
  }
}

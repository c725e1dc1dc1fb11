/** The per-sender tally of unread messages addressed to the signed-in user
    (`useUnreadMessages`). The tally is a JavaScript record from sender id
    to count; it is modelled as a list of entries, one per key. Nothing
    here depends on the order of the entries. */
module Unread {
  import opened Prelude
  import opened Entities
  import opened Lists
  import Messages

  datatype Tally = Tally(senderId: string, count: nat)

  type Counts = seq<Tally>

  /** No sender has two entries. */
  predicate DistinctSenders(c: Counts) {
    forall i, j :: 0 <= i < j < |c| ==> c[i].senderId != c[j].senderId
  }

  /** Every entry counts at least one message. */
  predicate PositiveCounts(c: Counts) {
    forall i :: 0 <= i < |c| ==> c[i].count >= 1
  }

  /** The record's keys. */
  function Senders(c: Counts): set<string> {
    set i | 0 <= i < |c| :: c[i].senderId
  }

  lemma SendersCons(t: Tally, c: Counts)
    ensures Senders([t] + c) == {t.senderId} + Senders(c)
  {
    var l := [t] + c;
    forall x | x in Senders(l) ensures x in {t.senderId} + Senders(c) {
      var i :| 0 <= i < |l| && l[i].senderId == x;
      if i > 0 {
        assert c[i - 1].senderId == x;
      }
    }
    forall x | x in Senders(c) ensures x in Senders(l) {
      var i :| 0 <= i < |c| && c[i].senderId == x;
      assert l[i + 1].senderId == x;
    }
    assert l[0].senderId == t.senderId;
  }

  /** `counts[s]`, `undefined` when there is no entry. */
  function Get(c: Counts, s: string): Option<nat> {
    if |c| == 0 then None
    else if c[0].senderId == s then Some(c[0].count)
    else Get(c[1..], s)
  }

  /** The sum of the record's values. */
  function Total(c: Counts): nat {
    if |c| == 0 then 0 else c[0].count + Total(c[1..])
  }

  /** `counts[s] = (counts[s] || 0) + 1`. */
  function Bump(c: Counts, s: string): (r: Counts)
    ensures Get(r, s) == Some(Get(c, s).GetOr(0) + 1)
    ensures forall t :: t != s ==> Get(r, t) == Get(c, t)
    ensures Total(r) == Total(c) + 1
    ensures PositiveCounts(c) ==> PositiveCounts(r)
  {
    if |c| == 0 then [Tally(s, 1)]
    else if c[0].senderId == s then [Tally(s, c[0].count + 1)] + c[1..]
    else
      var rest := Bump(c[1..], s);
      assert forall i :: 1 <= i < |[c[0]] + rest| ==> ([c[0]] + rest)[i] == rest[i - 1];
      [c[0]] + rest
  }

  /** Bumping adds the key `s` and no other. */
  lemma {:induction false} BumpSenders(c: Counts, s: string)
    ensures Senders(Bump(c, s)) == Senders(c) + {s}
    decreases |c|
  {
    if |c| == 0 {
      assert [Tally(s, 1)][0].senderId == s;
    } else if c[0].senderId == s {
      SendersCons(Tally(s, c[0].count + 1), c[1..]);
      SendersCons(c[0], c[1..]);
      assert c == [c[0]] + c[1..];
    } else {
      BumpSenders(c[1..], s);
      SendersCons(c[0], Bump(c[1..], s));
      SendersCons(c[0], c[1..]);
      assert c == [c[0]] + c[1..];
    }
  }

  /** Bumping keeps keys distinct. */
  lemma {:induction false} BumpKeys(c: Counts, s: string)
    requires DistinctSenders(c)
    ensures DistinctSenders(Bump(c, s))
    decreases |c|
  {
    if |c| > 0 && c[0].senderId != s {
      BumpKeys(c[1..], s);
      BumpSenders(c[1..], s);
      assert c[0].senderId !in Senders(c[1..]) by {
        forall j | 1 <= j < |c| ensures c[j].senderId != c[0].senderId {
        }
      }
      ConsDistinct(c[0], Bump(c[1..], s));
    }
  }

  /** A new key in front of distinct keys keeps them distinct. */
  lemma ConsDistinct(t: Tally, c: Counts)
    requires DistinctSenders(c) && t.senderId !in Senders(c)
    ensures DistinctSenders([t] + c)
  {
    var r := [t] + c;
    forall i, j | 0 <= i < j < |r| ensures r[i].senderId != r[j].senderId {
      if i == 0 {
        assert r[j] == c[j - 1];
      } else {
        assert r[i] == c[i - 1] && r[j] == c[j - 1];
      }
    }
  }

  lemma GroupStep(acc: Counts, s: string)
    ensures DistinctSenders(acc) ==> DistinctSenders(Bump(acc, s))
  {
    if DistinctSenders(acc) {
      BumpKeys(acc, s);
    }
  }

  /** Messages in `rows` sent by `s`. */
  function CountSender(rows: seq<Message>, s: string): nat {
    if |rows| == 0 then 0
    else (if rows[0].senderId == s then 1 else 0) + CountSender(rows[1..], s)
  }

  /** The `forEach` over the fetched rows, starting from the tally `acc`. */
  function GroupFrom(acc: Counts, rows: seq<Message>): (r: Counts)
    ensures forall s :: Get(r, s).GetOr(0) == Get(acc, s).GetOr(0) + CountSender(rows, s)
    ensures forall s :: Get(r, s).Some? <==> Get(acc, s).Some? || CountSender(rows, s) > 0
    ensures Total(r) == Total(acc) + |rows|
    ensures DistinctSenders(acc) ==> DistinctSenders(r)
    ensures PositiveCounts(acc) ==> PositiveCounts(r)
    decreases |rows|
  {
    if |rows| == 0 then acc
    else
      GroupStep(acc, rows[0].senderId);
      GroupFrom(Bump(acc, rows[0].senderId), rows[1..])
  }

  /** The rows the fetch reads: unread messages addressed to `user`. */
  predicate UnreadTo(m: Message, user: string) {
    m.receiverId == user && !m.isRead
  }

  /** Reference count: unread messages in the table from `s` to `user`. */
  function UnreadFrom(table: seq<Message>, user: string, s: string): nat {
    if |table| == 0 then 0
    else (if UnreadTo(table[0], user) && table[0].senderId == s then 1 else 0)
         + UnreadFrom(table[1..], user, s)
  }

  /** Reference count: unread messages in the table addressed to `user`. */
  function UnreadTotal(table: seq<Message>, user: string): nat {
    if |table| == 0 then 0
    else (if UnreadTo(table[0], user) then 1 else 0) + UnreadTotal(table[1..], user)
  }

  lemma {:induction false} CountOfUnreadRows(table: seq<Message>, user: string, s: string)
    ensures CountSender(Filter(table, (m: Message) => UnreadTo(m, user)), s) == UnreadFrom(table, user, s)
    decreases |table|
  {
    if |table| > 0 {
      var p := (m: Message) => UnreadTo(m, user);
      CountOfUnreadRows(table[1..], user, s);
      CountSenderConcat(if p(table[0]) then [table[0]] else [], Filter(table[1..], p), s);
    }
  }

  lemma {:induction false} SizeOfUnreadRows(table: seq<Message>, user: string)
    ensures |Filter(table, (m: Message) => UnreadTo(m, user))| == UnreadTotal(table, user)
    decreases |table|
  {
    if |table| > 0 {
      SizeOfUnreadRows(table[1..], user);
    }
  }

  lemma CountSenderConcat(a: seq<Message>, b: seq<Message>, s: string)
    requires |a| <= 1
    ensures CountSender(a + b, s) == CountSender(a, s) + CountSender(b, s)
  {
    if |a| == 1 {
      var ab := a + b;
      assert ab[0] == a[0] && ab[1..] == b;
      assert a[1..] == [];
      assert CountSender(a, s) == (if a[0].senderId == s then 1 else 0) + CountSender(a[1..], s);
    } else {
      assert a + b == b;
    }
  }

  /** `fetchUnreadCounts`: with a user and a successful read, the tally is
      rebuilt from scratch from the table: a sender has an entry exactly
      when they sent the user unread messages, and the entry counts them.
      Without a user, or when the read fails, the tally stays as it was. */
  function FetchUnreadCounts(current: Counts, table: seq<Message>, user: Option<string>,
                             reply: Reply): (r: Counts)
    ensures !Present(user) || reply.Failed? ==> r == current
    ensures Present(user) && reply.Ok? ==>
              && DistinctSenders(r)
              && PositiveCounts(r)
              && (forall s :: Get(r, s) == if UnreadFrom(table, user.value, s) == 0 then None
                                           else Some(UnreadFrom(table, user.value, s)))
              && Total(r) == UnreadTotal(table, user.value)
  {
    if !Present(user) || reply.Failed? then current
    else
      var rows := Filter(table, (m: Message) => UnreadTo(m, user.value));
      var r := GroupFrom([], rows);
      assert forall s :: CountSender(rows, s) == UnreadFrom(table, user.value, s) by {
        forall s ensures CountSender(rows, s) == UnreadFrom(table, user.value, s) {
          CountOfUnreadRows(table, user.value, s);
        }
      }
      SizeOfUnreadRows(table, user.value);
      r
  }

  /** The total shown on the sidebar, `totalUnread` (the sum of the
      tally's values), is the number of unread messages addressed to the
      user, once the tally has been fetched. */
  lemma TotalIsUnreadMessages(current: Counts, table: seq<Message>, user: Option<string>)
    requires Present(user)
    ensures Total(FetchUnreadCounts(current, table, user, Ok)) == UnreadTotal(table, user.value)
  {
  }

  /** Read messages and messages to other users never show up in the
      tally: adding such a row to the table leaves the fetched tally as it
      is. */
  lemma {:induction false} IrrelevantRowsNotCounted(table: seq<Message>, user: string, m: Message, s: string)
    requires !UnreadTo(m, user)
    ensures UnreadFrom(table + [m], user, s) == UnreadFrom(table, user, s)
    ensures UnreadTotal(table + [m], user) == UnreadTotal(table, user)
    decreases |table|
  {
    if |table| > 0 {
      assert (table + [m])[1..] == table[1..] + [m];
      IrrelevantRowsNotCounted(table[1..], user, m, s);
    }
  }

  /** The fetched tally depends on the table only, never on the previous
      tally. */
  lemma FetchRebuildsFromScratch(c1: Counts, c2: Counts, table: seq<Message>, user: Option<string>)
    requires Present(user)
    ensures FetchUnreadCounts(c1, table, user, Ok) == FetchUnreadCounts(c2, table, user, Ok)
  {
  }

  /** Two tables that agree, row by row, on which rows are unread messages
      from `s` to `user` give the same count for `s`. */
  lemma {:induction false} UnreadFromPointwise(t1: seq<Message>, t2: seq<Message>, user: string, s: string)
    requires |t1| == |t2|
    requires forall i :: 0 <= i < |t1| ==>
               (UnreadTo(t1[i], user) && t1[i].senderId == s) == (UnreadTo(t2[i], user) && t2[i].senderId == s)
    ensures UnreadFrom(t1, user, s) == UnreadFrom(t2, user, s)
    decreases |t1|
  {
    if |t1| > 0 {
      UnreadFromPointwise(t1[1..], t2[1..], user, s);
    }
  }

  /** Opening a thread and marking it read clears that friend's entry from
      the next tally and leaves every other sender's entry as it was. */
  lemma MarkAsReadClearsEntry(counts: Counts, table: seq<Message>, user: Option<string>,
                              peer: Option<string>, s: string)
    requires Messages.Active(user, peer)
    ensures var after := FetchUnreadCounts(counts, Messages.MarkAsRead(table, user, peer, Ok), user, Ok);
            var before := FetchUnreadCounts(counts, table, user, Ok);
            && Get(after, peer.value) == None
            && (s != peer.value ==> Get(after, s) == Get(before, s))
  {
    var marked := Messages.MarkAsRead(table, user, peer, Ok);
    if s != peer.value {
      UnreadFromPointwise(marked, table, user.value, s);
    }
    assert UnreadFrom(marked, user.value, peer.value) == 0 by {
      var none := seq(|table|, i => Message("", "", "", "", true, 0));
      UnreadFromPointwise(marked, none, user.value, peer.value);
      ZeroWhenNoneUnread(none, user.value, peer.value);
    }
  }

  lemma {:induction false} ZeroWhenNoneUnread(t: seq<Message>, user: string, s: string)
    requires forall i :: 0 <= i < |t| ==> t[i].isRead
    ensures UnreadFrom(t, user, s) == 0
    decreases |t|
  {
    if |t| > 0 {
      ZeroWhenNoneUnread(t[1..], user, s);
    }
  }
}

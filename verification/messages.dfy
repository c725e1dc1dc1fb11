/** The message thread between the signed-in user and one selected peer
    (`useMessages`): the fetch that replaces the thread, sending, marking as
    read, and the effect of the realtime INSERT and UPDATE events on the
    local list. The hook takes the user and the peer as possibly missing
    identifiers; every operation is a no-op unless both are present. */
module Messages {
  import opened Prelude
  import opened Entities
  import opened Text
  import opened Lists
  import opened Sorting

  /** The message travels between `user` and `peer`, in either direction. */
  predicate InThread(m: Message, user: string, peer: string) {
    || (m.senderId == user && m.receiverId == peer)
    || (m.senderId == peer && m.receiverId == user)
  }

  /** The order the fetch asks for: `created_at` ascending. */
  predicate CreatedNoLater(a: Message, b: Message) {
    a.createdAt <= b.createdAt
  }

  lemma CreatedNoLaterIsPreorder()
    ensures TotalPreorder(CreatedNoLater)
  {
  }

  /** Both ends of the thread are known (`user?.id && friendId`). */
  predicate Active(user: Option<string>, peer: Option<string>) {
    Present(user) && Present(peer)
  }

  /** The rows of the table that belong to the thread, in table order. */
  function ThreadRows(table: seq<Message>, user: string, peer: string): seq<Message> {
    Filter(table, m => InThread(m, user, peer))
  }

  /** `fetchMessages`: with both ends known and a successful read, the local
      list becomes the thread's rows ordered by creation time (rows created
      at the same instant keep table order); otherwise it stays as it was. */
  function FetchMessages(current: seq<Message>, table: seq<Message>,
                         user: Option<string>, peer: Option<string>, reply: Reply): (r: seq<Message>)
    ensures !Active(user, peer) || reply.Failed? ==> r == current
    ensures Active(user, peer) && reply.Ok? ==>
              && SortedBy(r, CreatedNoLater)
              && multiset(r) == multiset(ThreadRows(table, user.value, peer.value))
              && (forall i :: 0 <= i < |r| ==> r[i] in table && InThread(r[i], user.value, peer.value))
              && (forall i :: 0 <= i < |table| && InThread(table[i], user.value, peer.value) ==> table[i] in r)
  {
    if !Active(user, peer) || reply.Failed? then current
    else
      SortedThread(table, user.value, peer.value);
      SortBy(ThreadRows(table, user.value, peer.value), CreatedNoLater)
  }

  /** The sorted thread rows are in order, come from the thread, and miss
      none of its rows. */
  lemma SortedThread(table: seq<Message>, user: string, peer: string)
    ensures var r := SortBy(ThreadRows(table, user, peer), CreatedNoLater);
            && SortedBy(r, CreatedNoLater)
            && (forall i :: 0 <= i < |r| ==> r[i] in table && InThread(r[i], user, peer))
            && (forall i :: 0 <= i < |table| && InThread(table[i], user, peer) ==> table[i] in r)
  {
    var rows := ThreadRows(table, user, peer);
    var r := SortBy(rows, CreatedNoLater);
    SortBySorted(rows, CreatedNoLater);
    forall i | 0 <= i < |r| ensures r[i] in table && InThread(r[i], user, peer) {
      assert r[i] in multiset(r);
      assert r[i] in rows;
    }
    forall i | 0 <= i < |table| && InThread(table[i], user, peer) ensures table[i] in r {
      assert table[i] in rows;
      assert table[i] in multiset(rows);
    }
  }

  /** What `sendMessage` did: nothing, inserted one row, or threw the
      backend's error to its caller. */
  datatype SendOutcome = Skipped | Inserted(row: Message) | Thrown(error: string)

  /** `sendMessage(content)`: skipped without both ends or with blank
      content; otherwise inserts one row carrying the trimmed content, or
      rethrows the insert's error. The backend assigns the row's `id` and
      `created_at` (here `newId` and `now`) and defaults `is_read` to
      false. */
  function SendMessage(table: seq<Message>, user: Option<string>, peer: Option<string>,
                       content: string, reply: Reply, newId: string, now: Timestamp)
    : (r: (seq<Message>, SendOutcome))
    ensures !Active(user, peer) || Blank(content) ==> r == (table, Skipped)
    ensures Active(user, peer) && !Blank(content) && reply.Failed? ==>
              r == (table, Thrown(reply.message))
    ensures Active(user, peer) && !Blank(content) && reply.Ok? ==>
              && r.1.Inserted?
              && r.0 == table + [r.1.row]
              && r.1.row.senderId == user.value && r.1.row.receiverId == peer.value
              && r.1.row.content == Trim(content) && !r.1.row.isRead
              && r.1.row.id == newId && r.1.row.createdAt == now
  {
    if !Active(user, peer) || Trim(content) == "" then (table, Skipped)
    else if reply.Failed? then (table, Thrown(reply.message))
    else
      var row := Message(newId, user.value, peer.value, Trim(content), false, now);
      (table + [row], Inserted(row))
  }

  /** A sent row belongs to the open thread, and its content is non-empty
      with no whitespace at either end. */
  lemma SentRowIsClean(table: seq<Message>, user: Option<string>, peer: Option<string>,
                       content: string, reply: Reply, newId: string, now: Timestamp)
    requires SendMessage(table, user, peer, content, reply, newId, now).1.Inserted?
    ensures var m := SendMessage(table, user, peer, content, reply, newId, now).1.row;
            && InThread(m, user.value, peer.value)
            && m.content != ""
            && !IsWhitespace(m.content[0]) && !IsWhitespace(m.content[|m.content| - 1])
            && Trim(m.content) == m.content
  {
    var c := Trim(content);
    assert c != "";
    TrimIdempotent(content);
  }

  /** The rows `markAsRead` selects: unread rows from the peer to the user. */
  predicate UnreadFromPeer(m: Message, user: string, peer: string) {
    m.senderId == peer && m.receiverId == user && !m.isRead
  }

  /** `markAsRead`: with both ends known, sets `is_read` on every unread row
      sent by the peer to the user, in the table. The backend's answer is
      awaited and ignored, so a failed update simply changes nothing. */
  function MarkAsRead(table: seq<Message>, user: Option<string>, peer: Option<string>,
                      reply: Reply): (r: seq<Message>)
    ensures |r| == |table|
    ensures !Active(user, peer) || reply.Failed? ==> r == table
    ensures Active(user, peer) && reply.Ok? ==>
              forall i :: 0 <= i < |table| ==>
                if UnreadFromPeer(table[i], user.value, peer.value)
                then r[i] == table[i].(isRead := true)
                else r[i] == table[i]
  {
    if !Active(user, peer) || reply.Failed? then table
    else MapWhere(table, (m: Message) => UnreadFromPeer(m, user.value, peer.value),
                  (m: Message) => m.(isRead := true))
  }

  /** After marking, nothing in the table is an unread row from the peer to
      the user. */
  lemma MarkAsReadLeavesNoUnread(table: seq<Message>, user: Option<string>, peer: Option<string>)
    requires Active(user, peer)
    ensures var r := MarkAsRead(table, user, peer, Ok);
            forall i :: 0 <= i < |r| ==> !UnreadFromPeer(r[i], user.value, peer.value)
  {
  }

  /** Marking twice is marking once. */
  lemma MarkAsReadIdempotent(table: seq<Message>, user: Option<string>, peer: Option<string>)
    ensures MarkAsRead(MarkAsRead(table, user, peer, Ok), user, peer, Ok)
         == MarkAsRead(table, user, peer, Ok)
  {
    if Active(user, peer) {
      var p := (m: Message) => UnreadFromPeer(m, user.value, peer.value);
      var f := (m: Message) => m.(isRead := true);
      MapWhereIdempotent(table, p, f);
    }
  }

  /** The realtime INSERT handler: a row of the open thread is appended as
      delivered (no de-duplication by id); any other row is ignored. No
      handler is registered unless both ends are known. */
  function OnInsert(list: seq<Message>, user: Option<string>, peer: Option<string>,
                    m: Message): (r: seq<Message>)
    ensures Active(user, peer) && InThread(m, user.value, peer.value) ==>
              |r| == |list| + 1 && list < r && r[|list|] == m
    ensures !(Active(user, peer) && InThread(m, user.value, peer.value)) ==> r == list
  {
    if Active(user, peer) && InThread(m, user.value, peer.value) then list + [m] else list
  }

  /** The INSERT handler does not de-duplicate: the same event delivered
      twice puts the row in the list twice. */
  lemma InsertDeliveredTwiceDuplicates(list: seq<Message>, user: Option<string>, peer: Option<string>,
                                       m: Message)
    requires Active(user, peer) && InThread(m, user.value, peer.value)
    ensures var twice := OnInsert(OnInsert(list, user, peer, m), user, peer, m);
            twice == list + [m, m] && multiset(twice)[m] == multiset(list)[m] + 2
  {
  }

  /** The realtime UPDATE handler: every element with the row's id is
      replaced by the row; there is no thread filter here. */
  function OnUpdate(list: seq<Message>, user: Option<string>, peer: Option<string>,
                    m: Message): (r: seq<Message>)
    ensures |r| == |list|
    ensures forall i :: 0 <= i < |list| ==>
              r[i] == if Active(user, peer) && list[i].id == m.id then m else list[i]
  {
    if Active(user, peer) then MapWhere(list, (x: Message) => x.id == m.id, (_: Message) => m) else list
  }

  /** Delivering the same UPDATE twice is delivering it once. */
  lemma OnUpdateIdempotent(list: seq<Message>, user: Option<string>, peer: Option<string>,
                           m: Message)
    ensures OnUpdate(OnUpdate(list, user, peer, m), user, peer, m) == OnUpdate(list, user, peer, m)
  {
  }

  /** An UPDATE for an id not in the list changes nothing. */
  lemma OnUpdateAbsent(list: seq<Message>, user: Option<string>, peer: Option<string>,
                       m: Message)
    requires forall i :: 0 <= i < |list| ==> list[i].id != m.id
    ensures OnUpdate(list, user, peer, m) == list
  {
  }

  /** Every element of the list belongs to the thread. */
  predicate OnlyThread(list: seq<Message>, user: string, peer: string) {
    forall i :: 0 <= i < |list| ==> InThread(list[i], user, peer)
  }

  /** No leakage across threads: INSERT events keep a list made only of the
      thread's rows that way, whatever rows they carry, and so do UPDATE
      events whose row keeps the thread of the row it replaces. */
  lemma EventsKeepThread(list: seq<Message>, user: Option<string>, peer: Option<string>,
                         m: Message)
    requires Active(user, peer) && OnlyThread(list, user.value, peer.value)
    ensures OnlyThread(OnInsert(list, user, peer, m), user.value, peer.value)
    ensures (forall i :: 0 <= i < |list| && list[i].id == m.id ==>
               m.senderId == list[i].senderId && m.receiverId == list[i].receiverId)
            ==> OnlyThread(OnUpdate(list, user, peer, m), user.value, peer.value)
  {
  }

  /** The local list after an INSERT event agrees with a fresh fetch: when a
      row of the thread that is no older than any row of the thread is
      added to the table, fetching again yields the old fetch with the row
      appended, which is what the INSERT handler makes of the old fetch. */
  lemma {:induction false} InsertAgreesWithRefetch(current: seq<Message>, table: seq<Message>,
                                  user: Option<string>, peer: Option<string>, m: Message)
    requires Active(user, peer) && InThread(m, user.value, peer.value)
    requires forall i :: 0 <= i < |table| && InThread(table[i], user.value, peer.value) ==>
               table[i].createdAt <= m.createdAt
    ensures FetchMessages(current, table + [m], user, peer, Ok)
         == OnInsert(FetchMessages(current, table, user, peer, Ok), user, peer, m)
  {
    var rows := ThreadRows(table, user.value, peer.value);
    assert ThreadRows(table + [m], user.value, peer.value) == rows + [m] by {
      FilterAppend(table, m, x => InThread(x, user.value, peer.value));
    }
    assert SortBy(rows + [m], CreatedNoLater) == SortBy(rows, CreatedNoLater) + [m] by {
      forall i | 0 <= i < |rows| ensures CreatedNoLater(rows[i], m) {
        var j :| 0 <= j < |table| && table[j] == rows[i];
      }
      SortByAppendGreatest(rows, m, CreatedNoLater);
    }
  }

  /** Sending, then receiving the echo of the inserted row, leaves the open
      thread equal to what a fresh fetch of the new table shows, when the
      row is the thread's newest. */
  lemma SendThenEchoAgreesWithRefetch(current: seq<Message>, table: seq<Message>,
                                      user: Option<string>, peer: Option<string>,
                                      content: string, newId: string, now: Timestamp)
    requires Active(user, peer) && !Blank(content)
    requires forall i :: 0 <= i < |table| && InThread(table[i], user.value, peer.value) ==>
               table[i].createdAt <= now
    ensures var (table', outcome) := SendMessage(table, user, peer, content, Ok, newId, now);
            outcome.Inserted?
            && FetchMessages(current, table', user, peer, Ok)
               == OnInsert(FetchMessages(current, table, user, peer, Ok), user, peer, outcome.row)
  {
    var (table', outcome) := SendMessage(table, user, peer, content, Ok, newId, now);
    InsertAgreesWithRefetch(current, table, user, peer, outcome.row);
  }

  /** Two rows at distinct instants come out of the fetch oldest first,
      wherever they sit in the table. */
  lemma FetchOrdersByTime(table: seq<Message>, user: Option<string>, peer: Option<string>,
                          a: Message, b: Message)
    requires Active(user, peer) && a.createdAt < b.createdAt
    requires a in table && b in table
    requires InThread(a, user.value, peer.value) && InThread(b, user.value, peer.value)
    ensures var r := FetchMessages([], table, user, peer, Ok);
            exists i, j :: 0 <= i < j < |r| && r[i] == a && r[j] == b
  {
    var r := FetchMessages([], table, user, peer, Ok);
    assert a in r && b in r;
    SortedPositions(r, a, b);
  }

  lemma SortedPositions(r: seq<Message>, a: Message, b: Message)
    requires SortedBy(r, CreatedNoLater)
    requires a in r && b in r && a.createdAt < b.createdAt
    ensures exists i, j :: 0 <= i < j < |r| && r[i] == a && r[j] == b
  {
    var i :| 0 <= i < |r| && r[i] == a;
    var j :| 0 <= j < |r| && r[j] == b;
    assert i < j;
  }
}

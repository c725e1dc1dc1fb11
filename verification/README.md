# connect-chat, modelled in Dafny

connect-chat is a one-to-one chat client. It leaves storage and realtime delivery to a hosted backend. What the client computes for itself are small projections from backend rows and change events into what the user sees:

- the open message thread, with sending, marking as read, and the realtime INSERT and UPDATE events;
- the per-sender unread tally and its total;
- the friend graph as one user sees it: friends, pending requests received and sent, and the send / accept / decline / remove actions, each followed by a re-read;
- user search, and the friend / sent / received / none label on each result;
- the friend list panel, sorted online first and then by name, and split into online and offline sections;
- small UI rules: the unread badge caps ("99+", and "9+" on the sidebar tab), initials from a display name, and the message composer's submit guard, Enter key, send button and text-area height.

The backend is an in-memory `Store`, holding one sequence of rows per table. Every backend call's answer is a `Reply` parameter (`Ok` or `Failed(message)`). Which call fails is chosen by the caller of the model, so the error path of every backend call an operation makes on its own is modelled, including the reads of the load effect and of the request change handler. The re-reads that follow a successful action are taken to succeed; their failure is modelled only on the fetch functions themselves. An identifier that TypeScript tests with `!user?.id` is an `Option<string>` that must be present and non-empty (`Prelude.Present`).

Modules:

| Module | Holds |
|---|---|
| `Prelude` | optional values, backend replies, action errors |
| `Lists` | the array operations the hooks are built from: filtering, slicing, rewriting selected elements |
| `Text` | JavaScript `trim`, ASCII case mapping, substring search, `split(' ')`, initials, decimal rendering |
| `Sorting` | a stable insertion sort by a comparator |
| `Entities` | the table rows and the store |
| `Messages` | the message thread |
| `Unread` | the unread tally |
| `Friends` | the friend graph |
| `Search` | user search |
| `UserSearch` | the search panel |
| `FriendsList` | the friend list panel |
| `FriendItem` | a friend row and the badges |
| `ChatInput` | the message composer |

## Model

| member | source | states |
|---|---|---|
| Messages.FetchMessages | src/hooks/useMessages.ts:11-29 | Unchanged without both ends of the thread or when the read fails. Otherwise the list becomes exactly the rows between the user and the peer, in either direction: a permutation of them, none missing, nothing else, ordered non-decreasing by `created_at`. |
| Messages.SortedThread | src/hooks/useMessages.ts:15-21 | The sorted thread rows are ordered by creation time, all belong to the thread, and every thread row of the table is among them. |
| Messages.CreatedNoLaterIsPreorder | src/hooks/useMessages.ts:21 | Ordering by `created_at` is a total preorder, so the ordered read is well defined. |
| Messages.FetchOrdersByTime | src/hooks/useMessages.ts:21 | Of two thread rows with different creation times, the older comes first in the fetched list. |
| Messages.SendMessage | src/hooks/useMessages.ts:31-44 | Skipped without both ends or when the content trims to nothing. If the insert fails, its error is thrown and the table is unchanged. Otherwise exactly one row is appended: from the user to the peer, content trimmed, unread. |
| Messages.SentRowIsClean | src/hooks/useMessages.ts:32-37 | A sent row belongs to the open thread, and its content is non-empty, has no whitespace at either end, and is unchanged by trimming again. |
| Messages.MarkAsRead | src/hooks/useMessages.ts:46-55 | With both ends known, exactly the unread rows from the peer to the user become read. Every other row, and the table's length, are unchanged. Without both ends, nothing changes. |
| Messages.MarkAsReadLeavesNoUnread | src/hooks/useMessages.ts:49-54 | After marking, the table holds no unread row from the peer to the user. |
| Messages.MarkAsReadIdempotent | src/hooks/useMessages.ts:46-55 | Marking twice leaves the table as marking once. |
| Messages.OnInsert | src/hooks/useMessages.ts:73-81 | A thread row is appended: the old list is a proper prefix, the length grows by one, and the row is last. Any other row, or a hook without both ends, leaves the list unchanged. |
| Messages.InsertDeliveredTwiceDuplicates | src/hooks/useMessages.ts:79 | The same INSERT event delivered twice puts the row in the list twice; the handler does not de-duplicate by id. |
| Messages.OnUpdate | src/hooks/useMessages.ts:90-95 | Every element with the event row's id is replaced by it. The others, the order and the length are kept. There is no thread filter. |
| Messages.OnUpdateIdempotent | src/hooks/useMessages.ts:92-94 | Delivering the same UPDATE twice leaves the list as delivering it once. |
| Messages.OnUpdateAbsent | src/hooks/useMessages.ts:92-94 | An UPDATE whose id is not in the list changes nothing. |
| Messages.EventsKeepThread | src/hooks/useMessages.ts:73-95 | A list holding only the thread's rows keeps that property under any INSERT. It also keeps it under an UPDATE whose row keeps the thread of the row it replaces. |
| Messages.InsertAgreesWithRefetch | src/hooks/useMessages.ts:15-79 | Inserting a thread row that is no older than any thread row, then re-fetching, gives the old fetch with the INSERT handler applied. |
| Messages.SendThenEchoAgreesWithRefetch | src/hooks/useMessages.ts:31-79 | A successful send followed by its own INSERT echo leaves the local list equal to a fresh fetch of the new table, when the new row is the thread's newest. |
| Unread.Bump | src/hooks/useUnreadMessages.ts:25 | `counts[s] = (counts[s] \|\| 0) + 1` adds one to `s`'s entry (creating it at 1), leaves every other key's entry alone, adds one to the total, and keeps counts positive. |
| Unread.BumpSenders | src/hooks/useUnreadMessages.ts:25 | Bumping adds the key `s` to the record's keys and no other key. |
| Unread.BumpKeys | src/hooks/useUnreadMessages.ts:25 | Bumping keeps every key unique. |
| Unread.GroupFrom | src/hooks/useUnreadMessages.ts:23-26 | After the `forEach`, each sender's entry is its starting value plus its number of rows. A sender has an entry exactly when it had one or sent a row. The total grows by the number of rows. Unique keys and positive counts are kept. |
| Unread.CountOfUnreadRows | src/hooks/useUnreadMessages.ts:12-16 | Counting a sender's rows in what the read returns gives that sender's unread messages to the user in the table. |
| Unread.SizeOfUnreadRows | src/hooks/useUnreadMessages.ts:12-16 | The read returns as many rows as there are unread messages addressed to the user. |
| Unread.FetchUnreadCounts | src/hooks/useUnreadMessages.ts:9-28 | Unchanged without a user or when the read fails. Otherwise the tally has unique keys and positive counts. A sender has an entry exactly when they sent the user unread messages, and the entry equals their number. The sum equals all unread messages addressed to the user. |
| Unread.TotalIsUnreadMessages | src/hooks/useUnreadMessages.ts:57 | `totalUnread` of a fetched tally is the number of unread messages addressed to the user. |
| Unread.IrrelevantRowsNotCounted | src/hooks/useUnreadMessages.ts:15-16 | A read message, or one to another user, added to the table changes no sender's count and not the total. |
| Unread.FetchRebuildsFromScratch | src/hooks/useUnreadMessages.ts:23-27 | The fetched tally does not depend on the previous tally. |
| Unread.MarkAsReadClearsEntry | src/hooks/useUnreadMessages.ts:42-48 | After the thread is marked read, the re-fetch triggered by the change event has no entry for that peer. Every other sender's entry is as before. |
| Friends.FetchFriends | src/hooks/useFriends.ts:13-28 | Unchanged without a user or when the read fails. Otherwise the friend list has one profile per friendship row owned by the user, in row order, each a row of the profile table whose id is that row's `friend_id`. The request lists are untouched. |
| Friends.FetchFriendRequests | src/hooks/useFriends.ts:30-58 | The two reads are independent, and a failed read keeps its list. A successful received read lists the pending requests to the user, each exactly as many times as the table holds it, and nothing else. A successful sent read does the same for the pending requests from the user. |
| Friends.SettledRequestsNotListed | src/hooks/useFriends.ts:34-51 | An accepted or declined request appears in neither list. |
| Friends.SettledIdNotListed | src/hooks/useFriends.ts:34-51 | Once every request with an id is settled, a re-read lists nothing with that id. |
| Friends.SetStatus | src/hooks/useFriends.ts:79-82 | The status update by id rewrites the status of exactly the requests with that id. It leaves every other request and every other field unchanged. |
| Friends.SendFriendRequest | src/hooks/useFriends.ts:60-73 | "Not logged in" and no change without a user. The insert's error and no change when it fails. Otherwise one pending request from the user is appended, the request lists are re-read, and no error is returned. |
| Friends.AcceptFriendRequest | src/hooks/useFriends.ts:75-98 | "Not logged in" without a user. A failed status update returns its error and changes nothing. Otherwise the request is marked accepted, and the outcome of the friendship insert decides the rest. A failed insert returns its error, leaves the friendships and the lists as they were, and the request stays accepted. A successful insert returns no error exactly when both users have a profile. Then both directed rows are appended and friends and requests are re-read. Otherwise the backend's foreign-key error is returned with the same partial state. The friendship foreign key is always kept. |
| Friends.AcceptedWithoutFriendship | src/hooks/useFriends.ts:79-97 | When the status update succeeds and the insert fails, the insert's error is returned and the lists are unchanged. The request reads accepted, so no later re-read lists it. The two users are still not linked. |
| Friends.AcceptLinksBothWays | src/hooks/useFriends.ts:86-90 | A successful accept links the two users in both directions, and a symmetric friendship table stays symmetric. |
| Friends.AppendPairLinks | src/hooks/useFriends.ts:87-90 | Appending a row and its mirror image links the pair both ways and keeps a symmetric table symmetric. |
| Friends.AcceptSettlesRequest | src/hooks/useFriends.ts:79-94 | After an accept, every request with the id reads accepted. When it succeeded, neither re-read list holds the id. |
| Friends.DeclineFriendRequest | src/hooks/useFriends.ts:100-111 | No signed-in guard. A failed update returns its error and changes nothing. Otherwise the request is marked declined, the request lists are re-read, and no error is returned. |
| Friends.DeclineSettlesRequest | src/hooks/useFriends.ts:100-107 | Declining sets exactly the requests with the id to declined, leaves every other request alone, and removes the id from both re-read lists. |
| Friends.RemoveFriend | src/hooks/useFriends.ts:113-126 | "Not logged in" and no change without a user. The delete's error and no change when it fails. Otherwise exactly the pair's rows, in both directions, are deleted, other tables are untouched, and the friends are re-read. |
| Friends.WithoutPairKeepsSymmetry | src/hooks/useFriends.ts:116-119 | Deleting both directions of a pair keeps a symmetric friendship table symmetric. |
| Friends.WithoutPairUnlinks | src/hooks/useFriends.ts:116-119 | After the delete, neither direction of the pair is linked. |
| Friends.RemoveUnlinksPair | src/hooks/useFriends.ts:113-123 | After a successful remove, neither direction is linked, every row not of the pair is kept, symmetry is kept, and the re-read friend list no longer holds the removed friend. |
| Friends.OnProfileUpdate | src/hooks/useFriends.ts:167-171 | The friend with the profile's id is replaced in place; length, order and the request lists are kept. Nothing happens without a user. |
| Friends.OnRequestsChange | src/hooks/useFriends.ts:142-153 | A change to any request re-reads both request lists and leaves the friend list exactly as it was. Each request list whose read succeeds becomes the fresh pending list; one whose read fails keeps its old contents. Without a user nothing changes. |
| Friends.Load | src/hooks/useFriends.ts:128-136 | Loading the hook runs the friend read and the two request reads independently. Without a user nothing changes. A list whose read fails keeps its old contents. When the friend read succeeds, the friend list is exactly the fetched list: one profile per owned friendship row, in row order. It names exactly the users the table links the user to. Each request list whose read succeeds becomes the fresh pending list. |
| Friends.OnRequestsChangeWithFriends | src/hooks/useFriends.ts:142-153 | The request change handler corrected to re-read the friend list too. When that read succeeds, its friend list names exactly the users the table links the user to; when it fails, the list is kept. Its request lists are those of the handler as written, under the same replies. |
| Friends.ProfileUpdateForStranger | src/hooks/useFriends.ts:169-171 | A profile event for someone not in the friend list changes nothing. |
| Friends.ProfileUpdateIdempotent | src/hooks/useFriends.ts:169-171 | Delivering the same profile event twice gives the list that delivering it once gives. |
| Friends.FetchedFriendsCoverLinks | src/hooks/useFriends.ts:16-26 | Everyone a friendship row links the user to appears in the fetched friend list. |
| Friends.FetchedFriendsAreLinked | src/hooks/useFriends.ts:16-26 | Everyone in the fetched friend list is linked to the user by a friendship row. |
| Friends.FetchedFriendsMatchLinks | src/hooks/useFriends.ts:16-26 | The fetched friend list names a user exactly when a friendship row links the user to them. |
| Friends.SentRequestReachesRecipient | src/hooks/useFriends.ts:60-69 | A request just sent by U appears, pending and from U, in V's re-read received list. |
| Friends.AcceptUnseenByRequester | src/hooks/useFriends.ts:142-153 | After V accepts U's request, the table links U to V. But U's request change handler, the only thing V's accept triggers on U's side, leaves U's friend list without V. |
| Friends.AcceptedPairSeesEachOther | src/hooks/useFriends.ts:75-98 | After V accepts U's request, V's friend list holds U. U's list holds V once read by the corrected request change handler, or equally by U's next load. Neither lists the request. |
| Friends.RequestAcceptScenario | src/hooks/useFriends.ts:60-98 | The send / see / accept workflow end to end. U sends V a request, and V sees it pending from U. V accepts it. Then V lists U as a friend. U lists V once U's side is read by the corrected request change handler or by U's next load. Neither sees the request in a pending list. |
| Search.SearchUsers | src/hooks/useUserSearch.ts:11-32 | No results without a user, for a query that trims to nothing, or when the read fails. Otherwise at most ten results, each a profile of the table other than the user's own, whose username or display name contains the query ignoring case. |
| Search.SearchIsFirstMatches | src/hooks/useUserSearch.ts:17-29 | A search that reads returns a prefix of all matches in table order: all of them up to ten, else the first ten. |
| Search.SearchFindsFewMatches | src/hooks/useUserSearch.ts:17-23 | When there are at most ten matches, every matching profile is found. |
| Search.UsernameUpToCaseMatches | src/hooks/useUserSearch.ts:21-22 | Another user whose username equals the query up to case is a match. |
| Search.ClearResults | src/hooks/useUserSearch.ts:34-36 | Clearing leaves no results. |
| UserSearch.GetStatus | src/components/friends/UserSearch.tsx:38-43 | friend exactly when the id is a friend. sent exactly when it is not a friend and a sent request goes to it. received exactly when neither of those holds and a received request comes from it. none exactly when no list mentions it. The four cases are exhaustive and exclusive. |
| UserSearch.StatusReflectsStore | src/components/friends/UserSearch.tsx:38-43 | Against freshly read lists, the label matches the backend's tables. friend means a friendship row links the user to the other. sent means a pending request from the user to them. received means one from them to the user, with the earlier cases taking priority. |
| UserSearch.FreshRequestListsReflectStore | src/hooks/useFriends.ts:30-58 | Freshly read request lists mention a user exactly when the table holds a pending request between the signed-in user and them, in that list's direction. |
| UserSearch.OnQuerySettled | src/components/friends/UserSearch.tsx:30-36 | A non-empty settled query is searched; an empty one clears the results. |
| UserSearch.BlankQueryListsNoOne | src/components/friends/UserSearch.tsx:30-36 | A query made only of whitespace is searched, and the search's own guard gives no results. |
| Text.Trim | src/hooks/useMessages.ts:37 | The trimmed string neither starts nor ends with whitespace, and is empty exactly when the string is all whitespace. |
| Text.TrimIsInfix | src/hooks/useMessages.ts:37 | Trimming keeps a contiguous piece of the string in place and cuts only whitespace, at the two ends. |
| Text.TrimIdempotent | src/hooks/useMessages.ts:37 | Trimming a trimmed string changes nothing. |
| Text.SplitJoin | src/components/friends/UserSearch.tsx:53 | `split(' ')` loses nothing: joining the pieces with a space gives the string back. |
| Text.FirstCharsOfSplit | src/components/friends/UserSearch.tsx:52-55 | The first characters of the pieces of `split(' ')`, empty pieces giving nothing, are exactly the word-start characters of the string. |
| Text.InitialsSpec | src/components/friends/UserSearch.tsx:51-58 | Initials are at most two code points. They are the first two of the upper-cased word-start code points, or all of them when there are fewer. |
| Text.InitialsOfOneWord | src/components/friends/UserSearch.tsx:51-58 | A name without spaces gives its first code point upper-cased; an empty name gives nothing. |
| Text.SameUpToCaseContains | src/hooks/useUserSearch.ts:22 | Two strings that differ only in case contain each other, ignoring case. |
| Text.QueryCaseIrrelevant | src/hooks/useUserSearch.ts:22 | Upper-casing the query never changes whether a string matches it. |
| Text.DecimalRoundTrip | src/components/friends/FriendItem.tsx:60 | The rendered numeral of a count reads back as the count. |
| FriendsList.LocaleCompare | src/components/friends/FriendsList.tsx:56 | Zero exactly for equal names, negative exactly when the first sorts strictly before, positive exactly when it sorts after. |
| FriendsList.LexLeTotal | src/components/friends/FriendsList.tsx:56 | Any two names are comparable. |
| FriendsList.LexLeTransitive | src/components/friends/FriendsList.tsx:56 | Name order is transitive. |
| FriendsList.LexLeAntisymmetric | src/components/friends/FriendsList.tsx:56 | Names each sorting no later than the other are equal. |
| FriendsList.FriendOrderMeaning | src/components/friends/FriendsList.tsx:54-57 | The comparator lets `a` precede `b` exactly when `a` is online and `b` is not, or both are alike and `a`'s name sorts no later. |
| FriendsList.FriendOrderIsPreorder | src/components/friends/FriendsList.tsx:54-57 | The comparator is total and transitive, so the sort is well defined. |
| FriendsList.SortFriends | src/components/friends/FriendsList.tsx:53-57 | The sorted copy is a permutation of the friends. Every online friend precedes every offline one, and within a group display names do not decrease. |
| FriendsList.Render | src/components/friends/FriendsList.tsx:23-60 | The skeleton exactly while loading. The empty state exactly when not loading with no friends. Otherwise an online section of online friends only and an offline section of offline friends only. |
| FriendsList.SectionsPartitionFriends | src/components/friends/FriendsList.tsx:59-60 | The online section followed by the offline section is the sorted list, so their lengths add up to the number of friends and each friend is shown once. |
| FriendItem.ShowsBadge | src/components/friends/FriendItem.tsx:58 | A badge is shown exactly when a count is given and is above zero; a missing count is read as 0. |
| FriendItem.CappedLabel | src/components/friends/FriendItem.tsx:60 | Above the cap, the text is the cap followed by "+". Otherwise it is the count's decimal numeral, with no leading zero, reading back as the count. It ends in "+" exactly when the count is above the cap. |
| FriendItem.BadgeLabel | src/components/friends/FriendItem.tsx:60 | "99+" exactly above 99. Otherwise it is the count's decimal numeral, with no leading zero. Never more than three characters. |
| FriendItem.SidebarBadgeLabel | src/pages/ChatPage.tsx:190-192 | "9+" exactly above 9. Otherwise it is the total's single decimal digit. Never more than two characters. |
| FriendItem.BadgeShownIffUnread | src/components/friends/FriendItem.tsx:58-62 | A friend row shows a badge exactly when the friend has sent the user unread messages. |
| FriendItem.RowInitials | src/components/friends/FriendItem.tsx:20-27 | A friend row's initials have one code point per word of the display name, up to two. Each is the upper-cased form of a non-space code point of the name. |
| ChatInput.HandleSubmit | src/components/chat/ChatInput.tsx:16-21 | Nothing is sent and the buffer is kept when the text trims to nothing or the input is disabled. Otherwise `onSend` gets the untrimmed text exactly once and the buffer is emptied. |
| ChatInput.HandleKeyDown | src/components/chat/ChatInput.tsx:23-28 | Enter without Shift prevents the newline and submits. Shift+Enter and every other key leave the composer as it is and send nothing. |
| ChatInput.ButtonMatchesSubmit | src/components/chat/ChatInput.tsx:61 | The send button is enabled exactly when submitting would send. |
| ChatInput.TextareaHeight | src/components/chat/ChatInput.tsx:33 | The height is the content height capped at 120 pixels: never above either, and equal to one of them. |
| ChatInput.SubmittedTextIsStored | src/components/chat/ChatInput.tsx:16-21 | Text the composer sends is never rejected as blank by the thread's send. With both ends known and a successful insert, the stored row carries it trimmed. |
| Sorting.SortBySorted | src/hooks/useMessages.ts:21 | Sorting with a total preorder gives a sequence in which every element may precede every later one; `SortBy`'s own contract keeps the length and the multiset of elements. |
| Sorting.SortByAppendGreatest | src/hooks/useMessages.ts:21 | Sorting a list extended by an element no earlier than any of it puts that element last and sorts the rest as before. |
| Entities.ProfileById | src/hooks/useFriends.ts:18 | The join finds a profile row with the requested id. When ids are unique, it is the only such row. |

## Left out

- The backend client and its query builder are replaced by the in-memory store. So are joins and the text of the filter strings, including what a query containing `,` or `)` would do to the `or(...)` filter.
- Realtime subscription and teardown are not modelled, nor which events reach which handler when. Only each handler's effect on the state is. The unread hook's `*` event handler is a call of `FetchUnreadCounts`. The request table's `*` event handler is `Friends.OnRequestsChange`.
- Last-write-wins races between overlapping re-reads are not modelled, because there is no concurrency in the model.
- React state, effects, the `loading` flags other than the friend list's, and the debounce delay are left out. The delay is time-based; the model takes the settled query as given.
- The `console.error` logging on failures is left out.
- Re-reads issued by a successful action are taken to succeed. A failing read is modelled on the fetch functions themselves.
- Timestamps are ISO strings in the tables and integers here. Row ids and `created_at` values assigned by the backend are parameters.
- `localeCompare` is code-point lexicographic order. `toUpperCase` and the case folding of `ilike` are ASCII-only. `%` and `_` inside a search query are read as literal characters, not as wildcards.
- The joined `from_user`, `to_user` and `friend` profiles on request and friendship rows are not kept. The friend join is resolved against the profile table, relying on the foreign key from `friend_id` to profiles. `FetchFriends` requires that key (`FriendsHaveProfiles`). An accept that would break it is answered with the backend's foreign-key error.
- Messages.FetchMessages: rows created at the same instant come back in table order, since the model sorts stably. The backend promises no tie order, and the contract deliberately does not state one.
- Rendering-only parts are left out: the chat window and message bubbles, the request panel, the chat page and the not-found page. The exception is the chat tab's "9+" badge, which reuses the badge capping.
- Nothing re-checks a settled request: accept and decline never look at the current status. So an accepted request can later be declined. Accepting twice inserts the friendship pair twice, unless the backend refuses the second insert. The model does the same.
- Delivering the same message INSERT twice lists the row twice, because the handler does not de-duplicate by id (`Messages.InsertDeliveredTwiceDuplicates`). The model does the same.
- The search query is trimmed only in the guard; the pattern uses the query as typed. The model does the same.
- Unread.Bump: the tally is a plain JavaScript object in the program and an association list here. Sender ids are taken not to name an `Object.prototype` member such as `__proto__` or `constructor`, for which the object would keep no entry or concatenate strings. The backend's UUID identifiers satisfy this.
- Unread.FetchUnreadCounts: the per-sender and total equalities rely on the same assumption as `Unread.Bump`, that no sender id names an `Object.prototype` member.
- Text.InitialsSpec: characters here are Unicode code points, while JavaScript's `n[0]` and `slice(0, 2)` count UTF-16 code units. A word starting outside the Basic Multilingual Plane gives the program a lone surrogate where the model gives the whole character, and "two characters" means two code units there. Only names within the Basic Multilingual Plane agree.
- Text.InitialsOfOneWord: "first character" is the first code point here but the first UTF-16 code unit in the program, for the reason given for `Text.InitialsSpec`.
- FriendItem.RowInitials: counts code points, not UTF-16 code units, for the reason given for `Text.InitialsSpec`.

## Findings

| source | as written | input that shows it | evidently intended | confidence | as-written member | corrected member |
|---|---|---|---|---|---|---|
| src/hooks/useFriends.ts:142-153 | The change handler on `friend_requests` re-reads only the request lists. Nothing subscribes to `friendships`, so the friend list is re-read only on load, after one's own accept and after one's own remove. | U sends V a request and keeps the app open; V accepts it. U's request handler fires, but U's friend list still lacks V, although the table links them. | After an accept, both users list each other. | medium, not executed | Friends.AcceptUnseenByRequester | Friends.OnRequestsChangeWithFriends |

# DatingApp core in Dafny

A functional model of the deterministic logic inside the DatingApp
repository (an ASP.NET Core API with SignalR hubs and an Angular client).
Every operation is a pure function from the old state and its inputs to the
new state and its outputs. Storage, clocks, the transport and external
services are parameters or oracle results (`saveOk`, an upload result, a
storage error).

The model covers:

- **Presence registry** (`PresenceTracker`, `PresenceHub`): the map from
  username to that user's connection ids, its first-connection and
  last-connection flags, the sorted online snapshot, and the
  `UserIsOnline` / `UserIsOffline` / `GetOnlineUsers` broadcasts.
- **Conversation messaging** (`MessageHub`, `MessageThread`): canonical
  group names, joining and leaving a persisted group, the read-receipt and
  notification decision of `SendMessage`, and the client's reducer over the
  message thread.
- **Pagination** (`Paging`): `PagedList` metadata and Skip/Take slicing,
  plus the page-size clamp of `PaginationParams` and `UserParams`.
- **Member search and lookup** (`UserRepository`): the `GetMembersAsync`
  filters, ordering and paging, and `GetUserByNameAsync`.
- **Age** (`Dates`): `CalculateAge`, with today's date as a parameter.
- **Likes** (`Likes`, `LikeIds`): the like toggle on the server relation and
  on the client's `likeIds`, and the liked / likedBy listings.
- **Photos** (`Photos`, `MembersCache`): the photo endpoints and the client
  cache updates that mirror them.
- **Roles** (`Admin`): `EditRoles` as set algebra over the comma-split
  selection.
- **Busy counter** (`Busy`): the spinner state machine.

Shared pieces: `Wrappers` (`Option`, `Result`), `Seqs` (filter, stable
insertion sort, LINQ `Skip`/`Take`), `Ordinal` (`string.CompareOrdinal` as
lexicographic order on characters), `Hub` (principal, group, message and
send types) and `Entities` (users, photos, likes).

A thrown exception or a `BadRequest` is a `Failure` carrying the source's
message. A failure carries no new state: the caller's state stands. The one
exception is `EditRoles`, where a failed removal leaves the added roles in
place. A hub callback's effect on the transport is the list of sends it
returns, in the order the source issues them.

### Behaviour of the code worth knowing

- **Disconnect can fail.** `MessageHub.OnDisconnectedAsync` throws "Failed
  to remove from group" when no group holds the connection or the save fails
  (API/SignalR/MessageHub.cs:85-93). The message hub reads the presence
  registry (to decide on an offline notice) but never changes it; only
  `PresenceHub` registers and unregisters users.
- **A failed message save is silent.** When saving a sent message fails,
  nothing is stored, nothing is broadcast and no error is raised
  (API/SignalR/MessageHub.cs:144-147).
- **The offline notice precedes the save.** It is sent before the message is
  saved, whatever the outcome of the save (API/SignalR/MessageHub.cs:134-137).
  Its guard at line 135 holds for any list, an empty one included.
  `MessageHub.NotificationPrecedesSave` states the consequence.
- **Group names can collide.** Group names are not injective when usernames
  contain `-`; `MessageHub.GroupNamesCanCollide` exhibits such a pair.
  `MessageHub.GroupNameIdentifiesPair` proves that when no username contains
  `-`, distinct pairs get distinct names.

## Model

| member | source | states |
|---|---|---|
| `PresenceTracker.RemoveFirst` | API/SignalR/PresenseTracker.cs:41 | `List.Remove`: only the first occurrence of the id goes; an absent id leaves the list as it is; as a multiset, exactly one copy is removed |
| `PresenceTracker.UserConnected` | API/SignalR/PresenseTracker.cs:11-29 | reports "first connection" exactly when the user had no entry; appends the id at the end of that user's list; every other user's entry is unchanged; keeps the no-empty-list invariant |
| `PresenceTracker.UserDisconnected` | API/SignalR/PresenseTracker.cs:32-51 | an unknown user gives false and no change; otherwise the first occurrence of the id is removed; reports "last connection" exactly when the list empties, which also drops the key; other users are unchanged; keeps the invariant |
| `PresenceTracker.GetOnlineUsers` | API/SignalR/PresenseTracker.cs:54-63 | exactly the online usernames, strictly ascending, so without duplicates |
| `PresenceTracker.GetConnectionsForUser` | API/SignalR/PresenseTracker.cs:66-83 | the user's connection list, or empty for a user who is not online |
| `PresenceTracker.OnlineIffHasConnections` | API/SignalR/PresenseTracker.cs:16-48 | in a valid table, a user is in the snapshot exactly when there is a connection to notify |
| `PresenceTracker.ConnectThenDisconnect` | API/SignalR/PresenseTracker.cs:11-51 | connecting with a fresh id and then disconnecting it restores the table; "first" on connect coincides with "last" on disconnect |
| `PresenceTracker.ConnectedUserIsListed` | API/SignalR/PresenseTracker.cs:11-63 | after a connect the user is in the snapshot, and every other user's membership in it is unchanged |
| `PresenceTracker.RunPreservesValid` | API/SignalR/PresenseTracker.cs:8-51 | any sequence of connects and disconnects keeps every key mapped to a non-empty list, so the snapshot lists exactly the users who have connections |
| `Hub.GetUsername` | API/Extensions/ClaimsPrincipleExtensions.cs:9-17 | the NameIdentifier claim, or the "Cannot get username from token" failure when it is missing |
| `PresenceHub.OnConnected` | API/SignalR/PresenceHub.cs:13-27 | with no principal, fails before the tracker is touched; with a username it always succeeds; the sends are exactly `UserIsOnline` to Others when this is the user's first connection, then the snapshot of the updated registry to All |
| `PresenceHub.OnDisconnected` | API/SignalR/PresenceHub.cs:30-43 | with no principal, fails before any change; with a username it always succeeds; sends `UserIsOffline` to Others exactly when the last connection went, and nothing otherwise |
| `PresenceHub.SecondConnectionOnlyResendsSnapshot` | API/SignalR/PresenceHub.cs:19-26 | a user who is already online gets no announcement; the unchanged snapshot is still sent to All |
| `MessageHub.GetGroupName` | API/SignalR/MessageHub.cs:151-155 | the name is min `-` max of the two usernames under ordinal order, whichever of them is the caller |
| `MessageHub.GroupNameSymmetric` | API/SignalR/MessageHub.cs:151-155 | both participants compute the same group name |
| `MessageHub.GroupNameOrdersParticipants` | API/SignalR/MessageHub.cs:153-154 | the name is min-`-`-max under ordinal order; a user paired with themself gets `a-a` |
| `MessageHub.GroupNamesCanCollide` | API/SignalR/MessageHub.cs:151-155 | the pairs ("a-b", "c") and ("a", "b-c") share the group `a-b-c` |
| `MessageHub.JoinedNamesSplitUniquely` | API/SignalR/MessageHub.cs:154 | a `-`-joined name splits back into its parts when the first part has no `-` |
| `MessageHub.GroupNameIdentifiesPair` | API/SignalR/MessageHub.cs:151-155 | when no username contains `-`, distinct unordered pairs get distinct group names, and equal names mean the same unordered pair |
| `MessageHub.FindGroup` | API/SignalR/MessageHub.cs:62 | the first group with the name, or none exactly when no group has it |
| `MessageHub.FindGroupForConnection` | API/SignalR/MessageHub.cs:82 | a group holding the connection id, or none exactly when no group holds it |
| `MessageHub.GetMessageGroup` | API/SignalR/MessageHub.cs:62 | a stored group with the name, present exactly when one exists |
| `MessageHub.AddToGroup` | API/SignalR/MessageHub.cs:57-77 | a failed save raises "Failed to join group"; otherwise the group is created when absent, the connection is appended after the existing ones, and the other groups are kept; store validity is kept when the id was in no group |
| `MessageHub.RemoveConnection` | API/SignalR/MessageHub.cs:83-87 | exactly the first connection carrying the id is removed; the others keep their order; an absent id leaves the list as it is |
| `MessageHub.FirstConnection` | API/SignalR/MessageHub.cs:83 | `FirstOrDefault`: the position of the first connection with the id, none exactly when no connection has it |
| `MessageHub.RemovalPreservesValid` | API/SignalR/MessageHub.cs:80-94 | removing a connection from one group keeps every connection id in at most one group |
| `MessageHub.RemoveFromMessageGroup` | API/SignalR/MessageHub.cs:80-94 | raises "Failed to remove from group" when no group holds the connection or the save fails; otherwise the group found for the connection becomes exactly that group with `RemoveConnection` applied (its first connection with the id gone, the rest in order), it replaces the group in place, and store validity is kept |
| `MessageHub.OnConnected` | API/SignalR/MessageHub.cs:14-42 | a missing principal or an empty or missing `user` value gives "Cannot join group", and a principal without a username gives "Cannot get username from token", both before any group change; a failed save raises "Failed to join group"; otherwise it succeeds, joins the canonical group, and sends `UpdatedGroup` to the group, then the thread to the caller only |
| `MessageHub.OnDisconnected` | API/SignalR/MessageHub.cs:45-54 | raises "Failed to remove from group" when the connection is in no group or the save fails, and otherwise succeeds, sending the shrunken group to that group; store validity is kept |
| `MessageHub.SendMessage` | API/SignalR/MessageHub.cs:97-148 | a missing principal gives "Could not get user", a principal without a username "Cannot get username from token", a message to oneself "Cannot send message to yourself", two users of one name "Sequence contains more than one element", an unknown sender or recipient "Cannot send message at this time"; with one user each it succeeds; `dateRead` is set to now exactly when the recipient has a connection in the group; the sends are exactly `NewMessageReceived` to the recipient's presence connections when they are not viewing, followed by one `NewMessage` to the group when the save succeeds; a failed save stores nothing and raises nothing |
| `MessageHub.Deliver` | API/SignalR/MessageHub.cs:111-147 | once both users are found: the message carries the sender, recipient, content and time, and is read at once exactly when the recipient is viewing; the sends are exactly the optional notice then, on a successful save, one `NewMessage` to the group; only a successful save appends the message |
| `MessageHub.NotificationPrecedesSave` | API/SignalR/MessageHub.cs:127-147 | a recipient who is not viewing the conversation is notified even when the save then fails and the message is dropped |
| `MessageHub.JoinThenLeave` | API/SignalR/MessageHub.cs:57-94 | joining a group with a fresh connection id and then leaving succeeds, in the same group, and restores the store; a group created by the join remains, empty |
| `MessageHub.LeaveFindsJoinedGroup` | API/SignalR/MessageHub.cs:71-83 | after a join with a fresh id, the group found for that id on leaving is the one joined |
| `MessageThread.MarkAllRead` | client/src/app/_services/message.service.ts:58-65 | every message ends up read; messages already read keep their time; unread ones get now; nothing else changes and the order is kept |
| `MessageThread.MarkAllReadIsIdempotent` | client/src/app/_services/message.service.ts:56-67 | after marking, nothing is unread, and marking again, at any later time, changes nothing |
| `MessageThread.MarkAllReadKeepsReadThread` | client/src/app/_services/message.service.ts:59-62 | a thread with nothing unread is left unchanged |
| `MessageThread.OnEvent` | client/src/app/_services/message.service.ts:47-67 | a thread event replaces the view; a new message is appended after all earlier ones; a group update that contains the other user marks the whole thread read, as `MarkAllRead` does, leaving nothing unread; one without them, or any other event, changes nothing |
| `MessageThread.UpdatedGroupIsIdempotent` | client/src/app/_services/message.service.ts:56-67 | receiving the same group update twice has the effect of receiving it once |
| `MessageThread.NewMessageKeepsServerReadTime` | client/src/app/_services/message.service.ts:52-66 | a message the server already marked read keeps the server's time through later group updates |
| `MessageThread.StopHubConnection` | client/src/app/_services/message.service.ts:71-75 | a stop is issued exactly when a connection exists and is Connected, and otherwise nothing changes |
| `MessageThread.StopTwiceStopsOnce` | client/src/app/_services/message.service.ts:71-75 | calling stop twice issues at most one stop |
| `Paging.CeilDiv` | API/Helpers/PagedList.cs:17 | the integer ceiling of the quotient, for either sign of the divisor |
| `Paging.TotalPages` | API/Helpers/PagedList.cs:17 | for a positive page size, the least page count whose pages hold every item; unknown for a zero page size |
| `Paging.MakePagedList` | API/Helpers/PagedList.cs:10-28 | the current page, page size and total count are the constructor inputs; the page count covers the count |
| `Paging.PageAt` | API/Helpers/PagedList.cs:50 | at most the page size of items, taken from the source in source order; a zero or negative offset gives the first page; empty when the offset is at or past the end; exactly the slice at the offset when both are in range |
| `Paging.CreatePage` | API/Helpers/PagedList.cs:43-54 | the total count is the whole source, not the page; the page count is the ceiling of that count over the page size; the metadata is the request's; the items are the page at the 32-bit offset `(pageNumber-1)*pageSize` |
| `Paging.PageIsSlice` | API/Helpers/PagedList.cs:50 | without overflow the page starts at the mathematical offset, and it is empty once that offset reaches the end |
| `Paging.SkipCountExact` | API/Helpers/PagedList.cs:50 | the 32-bit offset equals the exact product when the product fits |
| `Paging.FirstPagesArePrefix` | API/Helpers/PagedList.cs:43-54 | pages 1 to n laid end to end are the first n times page size items of the source |
| `Paging.PagesCoverSource` | API/Helpers/PagedList.cs:17-50 | walking pages 1 to the page count gives back the whole source, in order, with no item repeated or lost |
| `Paging.ClampPageSize` | API/Helpers/PaginationParams.cs:27-32 | values above 50 become 50; every other value, zero and negatives included, is kept |
| `Paging.DefaultPaginationParams` | API/Helpers/PaginationParams.cs:16-20 | page 1 and page size 10 |
| `Paging.SetPageSize` | API/Helpers/PaginationParams.cs:23-33 | the setter caps at 50 and keeps smaller values; the page number is untouched |
| `Paging.BoundPageSizeAtMost50` | API/Helpers/PaginationParams.cs:12-33 | from any state within the cap, no sequence of property assignments pushes the page size above 50 |
| `Paging.DefaultBindingRespectsMax` | API/Helpers/PaginationParams.cs:12-33 | a freshly bound request never has a page size above 50 |
| `Paging.DefaultUserParams` | API/Helpers/UserParams.cs:12-35 | page 1, size 10, no gender and no current user, ages 18 to 100, ordered by "lastActive" |
| `Paging.SetUserPageSize` | API/Helpers/UserParams.cs:19-29 | caps at 50, keeps other values, and leaves the filters alone |
| `Paging.BindUserPageSizeAtMost50` | API/Helpers/UserParams.cs:8-29 | no sequence of assignments to any property pushes the page size above 50 |
| `Paging.DefaultUserBindingRespectsMax` | API/Helpers/UserParams.cs:8-35 | a freshly bound member search never has a page size above 50 |
| `UserRepository.FindFrom` | API/Data/UserRepository.cs:58 | the first position from a start index whose user has the name, or none exactly when there is no such user |
| `UserRepository.GetUserByName` | API/Data/UserRepository.cs:55-59 | no match exactly when no user has the name; a single match is the only user with it; more than one (which throws) exactly when two users share it |
| `UserRepository.Candidates` | API/Data/UserRepository.cs:24-36 | exactly the users who pass all three filters |
| `UserRepository.CandidatesAreFilteredInSteps` | API/Data/UserRepository.cs:24-36 | applying the current-user, gender and birth-date filters one after another keeps exactly the candidates, in table order |
| `UserRepository.MemberOrderIsTotalPreorder` | API/Data/UserRepository.cs:38-42 | both ordering keys ("created", and last activity for any other value) are total preorders |
| `UserRepository.OrderedCandidates` | API/Data/UserRepository.cs:38-42 | the candidates, each exactly once, newest first by the chosen key |
| `UserRepository.GetMembers` | API/Data/UserRepository.cs:22-45 | every listed user is a candidate from the table, so never the current user; the total counts all candidates and the page count covers them; the page is sorted newest first; the page is the requested page of the ordered candidates |
| `UserRepository.SortedPage` | API/Data/UserRepository.cs:38-44 | a page of a sorted sequence is sorted |
| `UserRepository.DobWindowIsAgeRange` | API/Data/UserRepository.cs:33-36 | the birth-date window admits exactly users aged MinAge to MaxAge, plus users born exactly on today shifted back MaxAge+1 years: that is the MaxAge+1-th birthday, or the day after it when today is 29 February and that year is common |
| `UserRepository.OldestBoundaryIsIncluded` | API/Data/UserRepository.cs:33-36 | with the defaults, a user turning 101 today is still listed |
| `Dates.AddYears` | API/Extensions/DateTimeExtensions.cs:13 | same month and day in the shifted year, with 29 February clamped to 28 February in a common year; valid dates stay valid |
| `Dates.CalculateAge` | API/Extensions/DateTimeExtensions.cs:7-16 | the year difference or one less; one less exactly when the date of birth falls after today shifted back by that difference |
| `Dates.AgeDecrementIffBirthdayAhead` | API/Extensions/DateTimeExtensions.cs:11-13 | for valid dates, the decrement happens exactly when this year's birthday is still ahead |
| `Dates.AgeOnBirthday` | API/Extensions/DateTimeExtensions.cs:13 | on the birthday itself the age is the full year difference |
| `Dates.AgeNonNegative` | API/Extensions/DateTimeExtensions.cs:11-13 | nobody born on or before today has a negative age |
| `Dates.AgeAtLeastIffBornBy` | API/Extensions/DateTimeExtensions.cs:11-13 | a person is at least k years old exactly when born on or before today shifted back k years |
| `Likes.GetUserLike` | API/Data/LikesRepository.cs:19-22 | a row with exactly the (source, target) key, present exactly when the relation holds the pair |
| `Likes.DeleteLike` | API/Controllers/LikesController.cs:34 | the relation loses exactly that pair; the key stays unique |
| `Likes.ToggleLike` | API/Controllers/LikesController.cs:14-40 | liking oneself is refused; an absent pair is added and a present one removed, with every other pair unchanged; a failed save reports "Failed to update like"; the key stays unique |
| `Likes.ToggleTwiceRestores` | API/Controllers/LikesController.cs:20-35 | toggling the same pair twice restores the relation |
| `Likes.UserById` | API/Data/LikesRepository.cs:33-40 | the user with the id, or none exactly when no user has it |
| `Likes.FollowLikes` | API/Data/LikesRepository.cs:31-41 | following one end of each like gives users from the table whose ids are those ends; under the foreign keys it gives one user per like and every end is reached |
| `Likes.NotedBeforeIsTotalPreorder` | API/Data/LikesRepository.cs:28 | ordering users by username is a total preorder |
| `Likes.SelectedUsers` | API/Data/LikesRepository.cs:28-41 | "liked" yields only users the caller liked; "likedBy" yields only users who liked the caller; any other predicate yields every user exactly once, ordered by username |
| `Likes.LikedListsExactlyTheLikedUsers` | API/Data/LikesRepository.cs:31-41 | under the foreign keys, "liked" lists exactly the targets of the caller's likes and "likedBy" exactly the sources of likes of the caller |
| `Likes.MainPhotoUrl` | API/Data/LikesRepository.cs:48 | the URL of the first main photo; none exactly when no photo is main |
| `Likes.ToLikeDtos` | API/Data/LikesRepository.cs:43-51 | one entry per selected user, in order, each with that user's fields, age and main photo URL |
| `Likes.GetUserLikes` | API/Data/LikesRepository.cs:26-54 | the total counts every selected user and the page count covers them; the metadata is the request's; the items are the requested page of the selected users' entries |
| `Likes.ListedUsersMeetQuery` | API/Data/LikesRepository.cs:26-54 | every listed entry describes a table user who meets the predicate |
| `Likes.SelectedDto` | API/Data/LikesRepository.cs:31-51 | an entry made from the selected users describes a table user who meets the predicate |
| `LikeIds.RemoveAll` | client/src/app/members/member-card/member-card.component.ts:24 | `filter`: every copy of the id is removed, every other id keeps its count, and the kept ids stay in their order |
| `LikeIds.ToggleLike` | client/src/app/members/member-card/member-card.component.ts:20-30 | a liked member's id is removed everywhere and the other ids keep their counts and order; an unliked member's id is appended at the end; `hasLiked` flips |
| `LikeIds.ToggleMirrorsServer` | client/src/app/members/member-card/member-card.component.ts:17-27 | a client list that agrees with the server's relation still agrees after a successful toggle on both sides |
| `Photos.FirstIndex` | API/Controllers/UsersController.cs:115-119 | the first photo matching the condition, or none exactly when no photo matches |
| `Photos.AddPhoto` | API/Controllers/UsersController.cs:62-104 | a missing user, an upload error or a failed save each give their message and no change; otherwise the uploaded photo is appended, main exactly when the user had no photos; at most one main photo is kept |
| `Photos.FirstPhotoBecomesMain` | API/Controllers/UsersController.cs:83-86 | a user's first upload becomes the main photo that listings show |
| `Photos.SetMainPhoto` | API/Controllers/UsersController.cs:107-126 | a missing user, an absent photo, an already-main photo ("Cannot user this as main photo") or a failed save ("Problem setting main photo") is refused; the chosen photo becomes main, others at most lose their flag, and with at most one main before it is the only main after |
| `Photos.SetMainPhotoShowsChosenUrl` | API/Controllers/UsersController.cs:115-121 | after setting, listings show the chosen photo's URL |
| `Photos.DeletePhoto` | API/Controllers/UsersController.cs:129-152 | a missing user, or an absent or main photo ("This photo cannot be deleted"), is refused; a storage error aborts with its message; a failed save gives "Problem deleting photo"; success implies the save succeeded, and otherwise it succeeds; exactly that photo is removed, and the other photos keep their order |
| `Photos.DeletePhotoKeepsMain` | API/Controllers/UsersController.cs:137-147 | deleting keeps the main photo URL that listings show, and keeps at most one main photo |
| `MembersCache.GetMember` | client/src/app/_services/members.service.ts:25-32 | the first cached member with the username, without a request; a request exactly when none is cached |
| `MembersCache.UpdateMember` | client/src/app/_services/members.service.ts:35-44 | members with the username become the saved member; every other member keeps its place and value |
| `MembersCache.UpdateThenGet` | client/src/app/_services/members.service.ts:25-44 | after an update, a lookup of a cached username returns the saved member; an uncached username leaves the cache unchanged |
| `MembersCache.SetMainPhoto` | client/src/app/_services/members.service.ts:47-59 | only members whose photos contain the photo change, and only their photo URL |
| `MembersCache.WithoutId` | client/src/app/_services/members.service.ts:66 | `filter`: the photos without that id, each kept photo with its count and in its order |
| `MembersCache.DeletePhoto` | client/src/app/_services/members.service.ts:61-72 | only members that contain the photo change, and their photo list becomes exactly the order-keeping filter without its id |
| `MembersCache.PhotoUpdatesAreIdempotent` | client/src/app/_services/members.service.ts:47-72 | repeating either photo update changes nothing |
| `Admin.Split` | API/Controllers/AdminController.cs:44 | comma-free parts, empty ones included, that join back to the input |
| `Admin.SplitJoin` | API/Controllers/AdminController.cs:44 | splitting undoes joining parts that hold no comma |
| `Admin.EditRoles` | API/Controllers/AdminController.cs:38-69 | an empty or missing selection is refused before the lookup; an unknown user is refused; a failed add changes nothing; a failed remove keeps the added roles; with a non-empty selection, a known user and both steps succeeding, it returns `Ok` and the user's roles are exactly the selection |
| `Admin.RoleChangesAreDifferences` | API/Controllers/AdminController.cs:56-62 | the roles gained are selected \ current and the roles lost are current \ selected |
| `Admin.EditRolesIsIdempotent` | API/Controllers/AdminController.cs:53-68 | repeating a successful edit changes nothing |
| `Seqs.Filter` | API/Data/UserRepository.cs:26-36 | LINQ `Where`: every element satisfying the predicate keeps its count, every other element is dropped, and the kept elements stay in their order |
| `Seqs.FilterIsUnique` | API/Data/UserRepository.cs:26-36 | an order-keeping selection with the filter's element counts is the filter's result, so the two clauses pin it |
| `Seqs.Sort` | API/Data/UserRepository.cs:38-42 | the sorted sequence is a permutation of the input, ordered by the key |
| `Busy.Start` | client/src/app/_services/busy.service.ts:12-19 | one more request in flight and the spinner shown |
| `Busy.Finish` | client/src/app/_services/busy.service.ts:21-27 | one fewer request; at or below zero the count resets to 0 and the spinner hides; the count is never negative |
| `Busy.RunKeepsValid` | client/src/app/_services/busy.service.ts:10-27 | any interleaving keeps the count non-negative, with the spinner shown exactly while requests are in flight |
| `Busy.BalancedRunHidesSpinner` | client/src/app/_services/busy.service.ts:10-27 | n starts followed by n finishes return to the initial, hidden state |

## Left out

- Locks and concurrency: every operation is one atomic, sequential step. The unlocked read in `GetConnectionsForUser` is not modelled.
- SignalR transport: `Groups.AddToGroupAsync`, connection lifecycle and delivery are not modelled. Sends are the returned list.
- EF Core and SQLite are abstracted: tables are sequences and `SaveChanges` is a boolean oracle. The provider's treatment of a negative `LIMIT` or `OFFSET` is not modelled; `Skip` and `Take` follow LINQ-to-objects semantics.
- `MessageRepository.GetMessageThread` is not part of this model: the thread it returns, and the read marks it saves, are a parameter of `MessageHub.OnConnected`.
- AutoMapper (`ProjectTo`, `mapper.Map`, `MemberDto`, `MessageDto`) is a foreign library: members are listed as users and messages as entities.
- Cloudinary upload and delete are reduced to their result: an upload or an error message.
- JWT creation and parsing are not modelled. A principal is its NameIdentifier claim.
- Hosting, middleware, HTTP headers and the Angular UI are not modelled, apart from the like toggle. Signal change notification is not modelled either: the in-place array update in `UpdatedGroup` and the cache updates count here as value updates.
- Floating point: `Math.Ceiling(count / (double)pageSize)` is integer ceiling division. For a zero page size the cast of an infinity or NaN is platform-defined, so the page count is left unknown.
- Clocks: today's date and the current instant are parameters.
- `DateOnly` year limits: `AddYears` outside years 1 to 9999 throws in the source; the model computes the date anyway.
- `CountAsync` overflow beyond a 32-bit count is not modelled.
- Culture-sensitive ordering: `OrderBy` on usernames is modelled with ordinal (code-unit) order. Strings are sequences of characters with no UTF-16 surrogate handling.
- Identity role names are compared exactly; the store's normalisation of role names is not modelled.
- `GetCurrentUserLikeIds`, `GetUserWithLikes`, `GetMemberAsync`, `UpdateUser` and the message listing endpoints are outside the modelled core.
- `UserRepository.DobWindowIsAgeRange`: stated only for valid dates and for MinAge and MaxAge other than the smallest 32-bit value, whose negation wraps.
- `MembersCache.SetMainPhoto`: the client finds a photo by object reference; the model compares photos by value, which agrees for photo objects taken from the cache.
- `MembersCache.DeletePhoto`: the client tests `includes(photo)` by object reference (client/src/app/_services/members.service.ts:65); the model compares photos by value, which agrees for photo objects taken from the cache.
- `UserRepository.GetMembers`, `Likes.SelectedUsers`: SQL leaves the order among users with equal sort keys unspecified; the model fixes it with a stable insertion sort (`Seqs.Sort`), so ties keep their table order.
- `MessageHub.GetGroupName`: ordinal comparison of UTF-16 code units is modelled as comparison of characters.

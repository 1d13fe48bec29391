# SecureChat session and message core in Dafny

SecureChat is an anonymous chat server built on Socket.IO. Every visitor gets a generated user
id such as `user_a1B2c`. Everyone lands in the permanent public room `general`. A user can also
open a private room: it has a generated id (`private_` followed by ten letters or digits), an
eight-character password, a participant limit between 2 and 50, and a lifetime between 5 and
1440 minutes. A private room disappears when its lifetime is over, or one minute after its last
participant leaves. Each room keeps its newest 100 messages. A message can be edited by its author
for ten minutes and deleted by its author at any time. A user may rotate their identity; the server
then removes the old id from every room and every message bucket.

The project models this core:

- `utils.dfy` (module `Utils`): id and password generation, text sanitising, bound validation,
  the edit window, user-id normalisation and share-link building.
- `session_manager.dfy` (module `Sessions`): the room registry as a class `SessionManager`. Its
  `sessions` map is updated in place. Its pending timers are two ghost sets.
- `message_manager.dfy` (module `Messages`): per-room message buckets as a class
  `MessageManager`.
- `gateway.dfy` (module `Gateway`): the connection handlers of the server. This covers error
  payloads, id normalising, `resolveUserId`, and a class `Connection` that holds a socket's user id
  and joined rooms. A class `Server` holds the join, leave, disconnect, send, edit, delete, create
  and rotate handlers.
- `client_socket.dfy` (module `ClientSocket`): how the browser client picks its server URL, and
  its handler registry (class `HandlerStore`).
- `client_ui.dfy` (module `ClientUi`): HTML escaping and sender-label truncation in the browser.
- `text.dfy` and `wrappers.dfy`: shared character classes, trimming, and the `Option`, `Result`
  and `AppError` datatypes.

Each stateful operation is a method. It ties the new state to a pure function of the old state,
such as `JoinOutcome`, `EditOutcome` or `KeepNewest`. The properties of those functions are
lemmas: round trips, error cases in both directions, bounds and preserved invariants.

Points where the code behaves in a way a reader might not expect:

- A private room is full when its number of connected sockets reaches the limit
  (`participants.size`, server/sessionManager.js:177), so one user on two devices takes two
  places. The visible `participantCount` counts distinct users. `CapacityCountsSockets` shows a
  room that reports one participant and still refuses a third socket.
- `setMessages` keeps the whole list when `maxMessages` is 0, because `slice(-0)` is `slice(0)`
  (`SliceFromEnd`).
- `sanitizeText` trims before it cuts to `maxLength`. A cut text can therefore end in a space, and
  sanitising twice can change it (`SanitizeIsNotIdempotent`). Hydrating an exported bucket
  therefore does not always give it back (`HydrateTrimsCutContent`).

## Model

| member | source | states |
|---|---|---|
| Wrappers.OrElse | server/socket.js:113-114 | `value \|\| fallback`: a non-empty given string wins; otherwise the fallback |
| Wrappers.FieldOr | server/socket.js:339 | `value \|\| fallback` on a payload field: a non-empty string wins, a truthy non-string is kept and is then no string, a falsy value or the empty string gives the fallback |
| Text.StripTrailingSlashes | server/utils.js:80-81 | the result is a prefix of the input, does not end in `/`, and only slashes were removed |
| Text.TrimStart | server/utils.js:35 | a suffix of the input that starts with no whitespace; only whitespace was dropped |
| Text.TrimEnd | server/utils.js:35 | a prefix of the input that ends with no whitespace; only whitespace was dropped |
| Text.TrimIdentity | server/utils.js:35 | a string with no whitespace at either end is left unchanged by trimming |
| Text.Trim | server/utils.js:35 | the result starts and ends with no whitespace, is a contiguous piece of the input, and only whitespace was dropped on either side |
| Text.Keep | server/utils.js:97 | filtering keeps only characters that pass the test, never lengthens, and keeps a fully passing string whole |
| Text.KeepConcat | server/utils.js:97 | filtering keeps the order: it distributes over concatenation |
| Utils.AlphabetChar | server/utils.js:3 | every index into the alphabet gives an ASCII letter or digit |
| Utils.Alphanumeric | server/utils.js:3 | the alphabet has 62 characters |
| Utils.AlphanumericChars | server/utils.js:3 | a character is in the alphabet exactly when it is an ASCII letter or digit |
| Utils.RandomString | server/utils.js:5-13 | the output has the requested length and only alphabet characters |
| Utils.GenerateUserId | server/utils.js:15-17 | a user id is `user_` followed by five letters or digits |
| Utils.GenerateNormalUserId | server/utils.js:15-17 | a generated user id is already normalised |
| Utils.GeneratePrivateSessionId | server/utils.js:19-21 | a private room id is `private_` followed by ten letters or digits |
| Utils.GeneratePassword | server/utils.js:23-25 | a password is eight letters or digits |
| Utils.ReplaceControls | server/utils.js:33 | same length, no control characters, every other character kept or turned into a space |
| Utils.CollapseSpaces | server/utils.js:34 | no two spaces in a row, only plain spaces as whitespace, never longer, and no control characters reintroduced |
| Utils.CleanSlice | server/utils.js:32-37 | any slice of clean text is clean |
| Utils.CleanText | server/utils.js:32-35 | cleaned text is clean, never longer, and does not start with whitespace |
| Utils.CleanTrimmed | server/utils.js:35 | trimming clean text keeps it clean |
| Utils.SanitizeText | server/utils.js:27-38 | a non-string gives `""`; the result has at most `maxLength` characters, no control characters, single plain spaces and no leading space |
| Utils.CollapseFixpoint | server/utils.js:34 | collapsing already clean text changes nothing |
| Utils.CleanTextIdentity | server/utils.js:32-35 | clean text with no whitespace at its ends is left unchanged by cleaning |
| Utils.SanitizeKeepsCleanText | server/utils.js:27-38 | sanitising a clean, trimmed text within the limit returns it unchanged |
| Utils.SanitizeIsNotIdempotent | server/utils.js:35-37 | a cut can leave a trailing space that a second pass removes, so sanitising is not idempotent |
| Utils.WordCharsArePlain | server/utils.js:97 | letters, digits and `_` are clean text without whitespace |
| Utils.ValidateDurationMinutes | server/utils.js:45-55 | accepts exactly the integers 5 to 1440 and returns them; anything else raises `INVALID_DURATION` |
| Utils.ValidateMaxParticipants | server/utils.js:57-67 | accepts exactly the integers 2 to 50 and returns them; anything else raises `INVALID_MAX_PARTICIPANTS` |
| Utils.IsWithinEditWindow | server/utils.js:69-77 | true exactly when the timestamp parses and `now` is at most `windowMinutes` minutes after it |
| Utils.EditWindowStaysClosed | server/utils.js:69-77 | once the window has closed, it stays closed at every later time |
| Utils.TenMinuteWindowBoundary | server/utils.js:76 | a ten-minute window is open at exactly ten minutes and closed one second later |
| Utils.NormalizeUserId | server/utils.js:95-98 | the result is at most 32 characters from `[A-Za-z0-9_]`, and `""` for a non-string |
| Utils.NormalUserIdFixedPoints | server/utils.js:95-98 | normalising leaves a string unchanged exactly when it is already a normal user id |
| Utils.NormalizeUserIdIdempotent | server/utils.js:95-98 | normalising twice is the same as normalising once |
| Utils.GeneratedUserIdIsNormal | server/utils.js:15-17 | a generated user id survives normalisation unchanged |
| Utils.UserIdShapeChars | server/utils.js:15-17 | a generated user id consists of normal user-id characters |
| Utils.Utf8 | server/utils.js:82-90 | each character encodes to one to four bytes |
| Utils.HexDigit | server/utils.js:82-90 | every nibble has a hexadecimal digit |
| Utils.PercentEncode | server/utils.js:82-90 | each byte becomes three query-safe characters |
| Utils.FormEncode | server/utils.js:82-90 | the encoded value holds only query-safe characters and leaves safe text as it is |
| Utils.SessionQuery | server/utils.js:82-90 | the query starts with `session=` and contains `&` exactly when a socket URL is given |
| Utils.BuildSessionLink | server/utils.js:79-93 | the link starts with the origin stripped of trailing slashes, then `/?session=`; after the origin it contains `&` exactly when the stripped socket URL is non-empty |
| Utils.FormEncodeHasNoSeparators | server/utils.js:82-90 | an encoded value never contains `&`, `=`, `#`, `?` or `/`, so it cannot break the query |
| Utils.PrivateSessionLink | server/utils.js:79-93 | a private room id appears in its link unencoded |
| Sessions.ToClientSession | server/sessionManager.js:102-123 | the client view copies the id, kind, persistence, limit, duration, creation time, end time and link; it lists the distinct user ids, and the count is their number, never above the socket count; the password is shown only when asked for and set |
| Sessions.GeneralSessionShape | server/sessionManager.js:39-54 | the general room is well formed, empty and never due to expire |
| Sessions.NewPrivateSession | server/sessionManager.js:125-151 | a new private room is empty, private, holds its password, and is due exactly once the clock reaches creation plus its duration |
| Sessions.DistinctValuesBound | server/sessionManager.js:103 | a map has at most as many distinct values as entries, with equality exactly when no two keys share a value |
| Sessions.SecondDeviceNotCounted | server/sessionManager.js:103-114 | a second socket of a user who is already present does not change the participant count |
| Sessions.JoinOutcome | server/sessionManager.js:161-186 | `SESSION_NOT_FOUND` exactly when the room is unknown; `INVALID_JOIN_PAYLOAD` exactly when the room exists and the socket id or user id is empty; a successful join adds exactly the socket-to-user entry to the named room; every failure is a raised error |
| Sessions.JoinFullExactly | server/sessionManager.js:172-179 | the join fails with `SESSION_FULL` exactly when the room is private, the password matches, the socket is new, and the socket count has reached the limit |
| Sessions.WrongPasswordAlwaysRefused | server/sessionManager.js:172-175 | whatever joins came before, a wrong password is refused with `WRONG_PASSWORD` |
| Sessions.ApplyJoinsKeepsRoom | server/sessionManager.js:182 | joins never remove a room or change its kind or password |
| Sessions.RejoinIsIdempotent | server/sessionManager.js:177-182 | joining again from the same socket succeeds and changes nothing |
| Sessions.JoinKeepsWellFormed | server/sessionManager.js:161-186 | a successful join keeps every room well formed, so a private room never holds more sockets than its limit |
| Sessions.EntryKeepsRoomWellFormed | server/sessionManager.js:177-182 | adding a socket that passes the capacity check keeps the room well formed |
| Sessions.CapacityCountsSockets | server/sessionManager.js:177 | a two-seat room used by one user from two sockets shows one participant yet refuses a third socket |
| Sessions.WithoutUser | server/sessionManager.js:247-259 | removing a user keeps exactly the entries that belong to other users, unchanged |
| Sessions.NewPrivateSessionWellFormed | server/sessionManager.js:125-151 | a new private room with validated bounds and a generated password is well formed |
| Sessions.InitialStateValid | server/sessionManager.js:39-54 | a registry holding only `general` is well formed and has no pending timers |
| Sessions.AddRoomKeepsValid | server/sessionManager.js:151-152 | adding a new private room with its expiry timer keeps the registry valid |
| Sessions.RemoveRoomKeepsValid | server/sessionManager.js:304-306 | removing a room and both its timers keeps the registry valid |
| Sessions.ShrinkKeepsValid | server/sessionManager.js:196-204 | dropping sockets from a room keeps the registry valid, and a private room left empty gets its grace timer |
| Sessions.ShrinkKeepsRoomWellFormed | server/sessionManager.js:196 | a room that loses sockets stays well formed |
| Sessions.SplitEntries | server/sessionManager.js:248-259 | splitting a room's entries keeps the other users' entries and lists each removed entry of the user exactly once |
| Sessions.ClearUser | server/sessionManager.js:247-264 | removing a user from every room keeps all rooms and lists exactly the removed (room, socket) entries, each once |
| Sessions.ClearUserKeepsWellFormed | server/sessionManager.js:247-264 | removing a user from every room keeps all rooms well formed |
| Sessions.ClearRoomWellFormed | server/sessionManager.js:248-259 | removing a user from one room keeps it well formed |
| Sessions.ClearUserKeepsTimers | server/sessionManager.js:261-263 | after removing a user, every private room left empty has a pending grace timer |
| Sessions.FirstUnused | server/sessionManager.js:129-133 | the retry loop stops at the first generated id that is not taken |
| Sessions.GeneralNeverDue | server/sessionManager.js:323-326 | the cleanup sweep never expires `general` |
| Sessions.InsertForListing | server/sessionManager.js:272-282 | inserting a room into the listing keeps `general` first, newer rooms before older ones, and no id twice |
| Sessions.SweepKeepStep | server/sessionManager.js:323-329 | a room that is not due stays in place during the sweep |
| Sessions.SweepDueStep | server/sessionManager.js:330-332 | a due room is removed with both its timers and reported as `duration-reached` |
| Sessions.SessionManager.constructor | server/sessionManager.js:20-54 | a new registry holds only `general`, with its link, and no timers |
| Sessions.SessionManager.CreatePrivateSession | server/sessionManager.js:125-159 | bad bounds raise the validation error and change nothing; otherwise the first free generated id gets an empty private room that expires `duration` minutes from now, with an expiry timer, and the reply carries the password |
| Sessions.SessionManager.JoinSession | server/sessionManager.js:161-186 | the registry changes exactly as `JoinOutcome` says; a failure changes nothing; a success cancels the room's grace timer |
| Sessions.SessionManager.LeaveSession | server/sessionManager.js:188-210 | an unknown room or socket gives null and changes nothing; otherwise the socket is removed, its user is reported, and an emptied private room gets a grace timer |
| Sessions.SessionManager.GetParticipantSnapshot | server/sessionManager.js:212-228 | the distinct users of the room and their number, or zero and none for an unknown room |
| Sessions.SessionManager.GetParticipantUserId | server/sessionManager.js:230-238 | the user behind a socket, exactly when the room and the socket are known |
| Sessions.SessionManager.GetSession | server/sessionManager.js:287-290 | the client view of the room, exactly when the room exists |
| Sessions.SessionManager.RemoveUserFromAllSessions | server/sessionManager.js:240-267 | an empty id changes nothing; otherwise the user's entries leave every room, each removed entry is reported once, and emptied private rooms get grace timers |
| Sessions.SessionManager.GetSessionsList | server/sessionManager.js:269-285 | every room appears exactly once, `general` first, then newest first |
| Sessions.SessionManager.ExpireSession | server/sessionManager.js:292-318 | a missing or permanent room gives null; otherwise the room and its timers are removed and its last participants reported |
| Sessions.SessionManager.FireExpiryTimer | server/sessionManager.js:56-68 | a pending duration timer always finds its room; it removes the room and both of its timers, and reports `duration-reached` with the room's entries and its client view |
| Sessions.SessionManager.FireEmptyTimer | server/sessionManager.js:70-82 | a pending grace timer finds its room still there and still empty; it removes the room and both of its timers, and reports `empty-session` with no entries and the room's client view |
| Sessions.SessionManager.CleanupExpiredSessions | server/sessionManager.js:320-334 | exactly the rooms whose end time has passed are removed and reported, each once; all other rooms and their timers stay as they were |
| Messages.Bucket | server/messageManager.js:27-30 | an unknown room has an empty bucket |
| Messages.KeepNewest | server/messageManager.js:76-80 | trimming keeps the newest `n` messages in order |
| Messages.SliceFromEnd | server/messageManager.js:40 | `slice(-n)` keeps the last `n` items, and the whole list when `n` is 0 |
| Messages.KeepNewestConcat | server/messageManager.js:76-80 | trimming after every append is the same as trimming once at the end |
| Messages.AppendAllKeepsNewest | server/messageManager.js:54-82 | any run of appends leaves exactly the newest `maxMessages` messages |
| Messages.AddedMessageIsLast | server/messageManager.js:65-82 | the message just added is always kept, as the last one, and the bucket stays within the limit |
| Messages.HundredAndFirstMessageDropsOldest | server/messageManager.js:78-80 | the 101st message pushes out the first |
| Messages.AcceptedOnly | server/messageManager.js:39 | hydration keeps exactly the entries with an id, a user id and the right room |
| Messages.AcceptedOnlyConcat | server/messageManager.js:39 | the filter keeps the order: it distributes over concatenation |
| Messages.AcceptedOnlySingle | server/messageManager.js:39 | a single entry is kept exactly when it has an id, a user id and this room's id |
| Messages.Rebuild | server/messageManager.js:41-48 | a rebuilt message keeps its id and user, has sanitised content, and is well formed |
| Messages.RebuildAll | server/messageManager.js:41-48 | each kept entry is rebuilt in place |
| Messages.Hydrate | server/messageManager.js:32-52 | a non-array gives an empty bucket; otherwise the bucket is the last `maxMessages` accepted entries (all of them when the limit is 0 or there are fewer), rebuilt, in their original order; it is well formed |
| Messages.ExportAll | server/messageManager.js:41-48 | exporting maps each message to its stored form, in order |
| Messages.Export | server/messageManager.js:41-48 | an exported message passes the filter of its own room exactly when its ids are non-empty |
| Messages.AcceptedOnlyAll | server/messageManager.js:39 | a list in which every entry is acceptable passes the filter whole |
| Messages.RebuildExport | server/messageManager.js:41-48 | exporting a settled message and rebuilding it gives it back |
| Messages.HydrateExportRoundTrip | server/messageManager.js:32-52 | hydrating an exported bucket of settled messages within the limit gives the bucket back |
| Messages.HydrateTrimsCutContent | server/messageManager.js:45 | content that ends in a space after a cut does not survive hydration unchanged |
| Messages.NewMessage | server/messageManager.js:54-74 | a missing room or user raises `INVALID_MESSAGE_PAYLOAD`; empty sanitised content raises `EMPTY_MESSAGE`; otherwise the message carries the sanitised content, the time, and is not edited |
| Messages.NewMessageWellFormed | server/messageManager.js:67-74 | a created message is well formed |
| Messages.AddKeepsWellFormed | server/messageManager.js:76-80 | appending a well-formed message and trimming keeps the bucket well formed |
| Messages.FindIndex | server/messageManager.js:87 | the index of the first message with the id, or none exactly when no message has it |
| Messages.EditOutcome | server/messageManager.js:85-113 | a successful edit returns the target with the new sanitised content and the edited flag; only its author can succeed |
| Messages.EditOutcomeCases | server/messageManager.js:89-107 | each error (`MESSAGE_NOT_FOUND`, `FORBIDDEN`, `EDIT_WINDOW_EXPIRED`, `EMPTY_MESSAGE`) occurs exactly in its case, checked in the source's order; the edit succeeds exactly when the message exists, is the caller's, is inside the window and the new content is not empty |
| Messages.EditedBucket | server/messageManager.js:109-110 | an edit never changes the bucket's length |
| Messages.EditChangesOnlyTarget | server/messageManager.js:109-110 | an edit changes at most the first message with the id, and only the author's; ids, authors, rooms and times never change; a successful edit leaves that message with the sanitised new content and marked edited |
| Messages.EditReplacesOne | server/messageManager.js:109-110 | replacing one of the author's messages by an edited copy keeps every other field and message |
| Messages.EditKeepsWellFormed | server/messageManager.js:109-110 | editing keeps the bucket well formed |
| Messages.DeleteOutcome | server/messageManager.js:115-132 | `MESSAGE_NOT_FOUND` exactly when no message has the id; success exactly when the first message with the id is the caller's, and then the result is that message |
| Messages.DeletedBucket | server/messageManager.js:129 | a failed delete leaves the bucket as it is; a successful one shortens it by one and adds nothing |
| Messages.DeleteRemovesExactlyOne | server/messageManager.js:115-132 | a failed delete changes nothing; a successful one splices out the first message with the id and keeps the others in order; `FORBIDDEN` exactly when someone else wrote it |
| Messages.DeleteKeepsWellFormed | server/messageManager.js:129 | deleting keeps the bucket well formed |
| Messages.ByUser | server/messageManager.js:144-148 | the removed messages all belong to the user |
| Messages.NotByUser | server/messageManager.js:150 | the kept messages all belong to other users |
| Messages.ByUserConcat | server/messageManager.js:144-148 | the removed messages keep their order: the split distributes over concatenation |
| Messages.NotByUserConcat | server/messageManager.js:150 | the kept messages keep their order: the split distributes over concatenation |
| Messages.SplitByUserSingle | server/messageManager.js:144-150 | a single message goes to the removed side exactly when the user wrote it |
| Messages.SplitByUserIsPartition | server/messageManager.js:141-154 | the kept and removed messages together are the bucket, and every message of the user is removed |
| Messages.NotByUserKeepsWellFormed | server/messageManager.js:153 | a filtered bucket stays well formed |
| Messages.SplitBucket | server/messageManager.js:142-153 | the loop over a bucket yields the kept and the removed messages, both in order |
| Messages.RemoveFromAll | server/messageManager.js:139-156 | every bucket keeps only other users' messages, every room is visited once, and the removed messages are listed in visiting order |
| Messages.MessageManager.constructor | server/messageManager.js:14-17 | an empty manager with the given limit |
| Messages.MessageManager.GetMessages | server/messageManager.js:27-30 | the room's bucket, or empty for an unknown room |
| Messages.MessageManager.SetMessages | server/messageManager.js:32-52 | an empty room id raises `INVALID_SESSION_ID` and changes nothing; otherwise the room's bucket becomes the hydrated list |
| Messages.MessageManager.AddMessage | server/messageManager.js:54-82 | a failure changes nothing; a success appends the message and keeps the newest `maxMessages` |
| Messages.MessageManager.EditMessage | server/messageManager.js:85-113 | the reply and the new bucket are exactly `EditOutcome` and the edited bucket |
| Messages.MessageManager.DeleteMessage | server/messageManager.js:115-132 | the reply and the new bucket are exactly `DeleteOutcome` and the bucket without the message |
| Messages.MessageManager.RemoveMessagesByUser | server/messageManager.js:134-157 | an empty id changes nothing; otherwise the user's messages leave every bucket and are returned |
| Messages.MessageManager.ClearSession | server/messageManager.js:159-161 | the room's bucket is gone and no other bucket changes |
| Gateway.Raise | server/sessionManager.js:13-17 | a thrown manager error carries its code and message |
| Gateway.ToErrorPayload | server/socket.js:14-19 | a non-empty code and message pass through; a missing one is replaced by the fallback code or the default message |
| Gateway.RaisedErrorPassesThrough | server/socket.js:14-19 | an error round-trips through the payload exactly when its code and message are non-empty |
| Gateway.Report | server/socket.js:389-391 | a handler reports a success as it is and a raised error unchanged, and every reported error has a code and a message |
| Gateway.NormalizeSessionId | server/socket.js:21-24 | the result is a normal room id, and `""` for a non-string |
| Gateway.NormalizeMessageId | server/socket.js:26-29 | the result is a normal message id, and `""` for a non-string |
| Gateway.SessionIdCharsArePlain | server/socket.js:21-24 | room-id characters are clean text without whitespace |
| Gateway.SessionIdFixedPoints | server/socket.js:21-24 | normalising leaves a room id unchanged exactly when it is normal |
| Gateway.NormalizeSessionIdIdempotent | server/socket.js:21-24 | normalising a room id twice is the same as once |
| Gateway.MessageIdFixedPoints | server/socket.js:26-29 | normalising leaves a message id unchanged exactly when it is normal |
| Gateway.NormalizeMessageIdIdempotent | server/socket.js:26-29 | normalising a message id twice is the same as once |
| Gateway.PrivateSessionIdIsNormal | server/socket.js:21-24 | a generated private room id survives normalisation |
| Gateway.PrivateSessionIdChars | server/utils.js:19-21 | a generated private room id is a normal room id |
| Gateway.GeneralSessionIdIsNormal | server/socket.js:113 | `general` survives normalisation |
| Gateway.NormalSessionIdSurvives | server/socket.js:21-24 | a normal room id survives normalisation |
| Gateway.GeneratedPasswordIsKept | server/socket.js:114 | a generated password survives the join handler's sanitising |
| Gateway.Connection.constructor | server/socket.js:279-281 | a new connection has no rooms and the normalised handshake id, or a generated one |
| Gateway.Connection.ResolveUserId | server/socket.js:98-110 | a non-empty normalised candidate replaces the user id; otherwise the old id stays, or a generated one is set; the result is never empty |
| Gateway.Connection.Remember | server/socket.js:146 | the room is added to the connection's joined rooms |
| Gateway.Connection.Forget | server/socket.js:207 | the rooms are removed from the connection's joined rooms and its user id stays |
| Gateway.RequestedSessionId | server/socket.js:113 | a falsy or empty room id means `general`; a truthy non-string one normalises to nothing; a string is normalised; the result is always normal |
| Gateway.RequestedPassword | server/socket.js:114 | the password is sanitised to at most 64 characters, and `""` when missing |
| Gateway.JoinAttempt | server/socket.js:112-141 | an empty room id gives `INVALID_SESSION`, a missing password on a private join gives `WRONG_PASSWORD`; otherwise the manager's error is passed on with the room id, and its joined room is the result |
| Gateway.NonStringSessionIdIsInvalid | server/socket.js:113-122 | a truthy non-string room id (a number) is refused with `INVALID_SESSION` instead of joining `general` |
| Gateway.NonStringNewUserIdKeepsId | server/socket.js:336-341 | a truthy non-string `newUserId` hides `userId`, so a connection that has an id keeps it |
| Gateway.DefaultJoinIsGeneral | server/socket.js:113 | a join without a room id always succeeds into `general` |
| Gateway.PrivateJoinNeedsPassword | server/socket.js:126-133 | a private join without a password always fails |
| Gateway.AffectedSessions | server/socket.js:222-225 | the affected rooms are exactly the rooms of the removed entries, each once |
| Gateway.CreatorCanJoin | server/socket.js:306-314 | the creator of a fresh private room always joins it with the generated password |
| Gateway.RemovedEntriesSummary | server/socket.js:221-234 | the affected rooms are those where the old user had a socket, and this connection leaves exactly its own removed rooms |
| Gateway.Server.constructor | server/socket.js:31-86 | a fresh server holds only `general` and no messages |
| Gateway.Server.JoinSessionInternal | server/socket.js:112-180 | the user id is resolved first; the join follows `JoinAttempt`; a failure changes no room, no timer and no joined set; a success records the room in the connection, cancels only that room's empty-grace timer, and replies with the room and its messages |
| Gateway.Server.JoinRoom | server/socket.js:117-146 | the same for an already normalised room id and password, including the timer frame |
| Gateway.Server.Admit | server/socket.js:135-154 | the manager's join decides; only a success adds the room to the joined set and cancels that room's empty-grace timer; duration timers never change |
| Gateway.Server.LeaveSessionInternal | server/socket.js:182-211 | an empty or unknown room, or a socket not in it, changes nothing; otherwise the socket leaves the room, the connection forgets it, and a private room left without entries starts its empty-grace timer while every other timer stays |
| Gateway.Server.LeaveRoom | server/socket.js:189-207 | the same for an already normalised room id, including the grace timer of an emptied private room |
| Gateway.Server.Disconnect | server/socket.js:464-468 | the socket leaves every room it had joined and was still in; those rooms leave its joined set; exactly the private rooms it was the last entry of start their empty-grace timers |
| Gateway.Server.LeaveOneRoom | server/socket.js:465-467 | one iteration of the disconnect loop advances rooms, joined set and grace timers by one room |
| Gateway.Server.SendMessage | server/socket.js:368-392 | a room the connection has not joined gives `NOT_IN_SESSION` and changes nothing; otherwise the message manager adds the message |
| Gateway.Server.SendToRoom | server/socket.js:372-384 | the same for an already normalised room id |
| Gateway.Server.EditMessage | server/socket.js:394-424 | missing ids give `INVALID_EDIT_PAYLOAD`, an unjoined room gives `NOT_IN_SESSION`, and otherwise the message manager's edit decides |
| Gateway.Server.EditInRoom | server/socket.js:399-416 | the same for already normalised ids |
| Gateway.Server.DeleteMessage | server/socket.js:426-462 | missing ids give `INVALID_DELETE_PAYLOAD`, an unjoined room gives `NOT_IN_SESSION`, and otherwise the message manager's delete decides |
| Gateway.Server.DeleteInRoom | server/socket.js:431-447 | the same for already normalised ids |
| Gateway.Server.CreatePrivateSession | server/socket.js:285-318 | invalid bounds change nothing; otherwise a new private room exists with the creator as its only socket and in the creator's joined rooms, its duration timer is pending, no grace timer changes, and the reply carries the new room's sensitive view, its password and its link |
| Gateway.Server.CreateRoomFor | server/socket.js:289-314 | the same once the user id is resolved |
| Gateway.Server.JoinCreator | server/socket.js:306-314 | the creator's socket becomes the fresh room's only participant; duration timers stay and only that room's grace timer is cleared |
| Gateway.Server.RotateUserIdentityInternal | server/socket.js:213-277 | nothing happens for an empty or unchanged id; otherwise the old id leaves every room and every bucket, the affected rooms are listed once each, the deleted count is the store's number or the count removed in memory, and every private room left without entries has its empty-grace timer pending |
| Gateway.Server.RemoveEntriesOf | server/socket.js:221-234 | the old id leaves every room, the affected rooms are listed once each, this connection forgets its own removed rooms, and every private room left without entries has its empty-grace timer pending |
| Gateway.Server.RotateUserIdentity | server/socket.js:336-366 | the new id is resolved from `newUserId \|\| userId`; unless the old id is missing or equal to the new one, every room loses exactly the old id's entries, every bucket exactly its messages, the connection forgets the rooms it left, the affected rooms are exactly those that held the id, each once, the deleted count is the store's number or the number of the old id's messages, and every private room left without entries has its empty-grace timer pending |
| Gateway.LeaveOneMore | server/socket.js:182-207 | leaving one more room removes the socket from it when present, and changes nothing otherwise |
| ClientSocket.NormalizeSocketUrl | public/js/socket.js:29-37 | a missing URL gives `""`; the result never ends in `/` |
| ClientSocket.NormalizeSocketUrlCutsSlashes | public/js/socket.js:29-37 | the result is the trimmed input with only trailing slashes removed |
| ClientSocket.NormalSocketUrlFixedPoints | public/js/socket.js:29-37 | normalising leaves a URL unchanged exactly when it has no outer whitespace and no trailing slash |
| ClientSocket.FixedPointIsNormal | public/js/socket.js:29-37 | a URL that normalising leaves unchanged is normal |
| ClientSocket.NormalIsFixedPoint | public/js/socket.js:29-37 | a normal URL is left unchanged by normalising |
| ClientSocket.ResolveSocketUrl | public/js/socket.js:60-90 | the result never ends in `/`, and it is written to storage exactly when the query gave one |
| ClientSocket.Precedence | public/js/socket.js:60-90 | the query source is stored exactly when it is non-empty, and the result is clean when every source is |
| ClientSocket.PrecedenceTakesFirst | public/js/socket.js:60-90 | the URL is the first non-empty of query, storage and page config, then the page origin except on a Netlify host |
| ClientSocket.ResolveTakesFirstSource | public/js/socket.js:60-90 | the same order, stated on the raw sources |
| ClientSocket.HandlersOf | public/js/socket.js:129 | an event with no entry has no handlers |
| ClientSocket.Added | public/js/socket.js:110-121 | adding puts the handler under its event and leaves other events alone |
| ClientSocket.Removed | public/js/socket.js:128-139 | removing takes the handler out of its event, drops an event left empty, and leaves other events alone |
| ClientSocket.AddIsIdempotent | public/js/socket.js:117-119 | adding a handler that is already registered changes nothing |
| ClientSocket.UpdatesKeepNoEmptySets | public/js/socket.js:110-144 | the registry never holds an event with an empty handler set |
| ClientSocket.RemoveUndoesAdd | public/js/socket.js:110-144 | removing a newly added handler restores the registry |
| ClientSocket.HandlerStore.constructor | public/js/socket.js:5-9 | a new registry is empty and has no socket |
| ClientSocket.HandlerStore.AddHandler | public/js/socket.js:110-126 | the registry becomes `Added`; the binder runs once, only for a new handler and a live socket |
| ClientSocket.HandlerStore.RemoveHandler | public/js/socket.js:128-144 | the registry becomes `Removed`; the unbinder runs when the event was registered and the socket is live |
| ClientUi.ReplaceChar | public/js/ui.js:45-49 | replacing a character that does not occur changes nothing |
| ClientUi.ReplaceCharConcat | public/js/ui.js:45-49 | a global replace distributes over concatenation |
| ClientUi.EscapeOneChar | public/js/ui.js:43-50 | the five-replace chain escapes a single character as its entity |
| ClientUi.EscapeAmp | public/js/ui.js:45 | `&` becomes `&amp;` |
| ClientUi.EscapeLt | public/js/ui.js:46 | `<` becomes `&lt;` |
| ClientUi.EscapeGt | public/js/ui.js:47 | `>` becomes `&gt;` |
| ClientUi.EscapeQuot | public/js/ui.js:48 | `"` becomes `&quot;` |
| ClientUi.EscapeApos | public/js/ui.js:49 | `'` becomes `&#039;` |
| ClientUi.EscapeHtmlConcat | public/js/ui.js:43-50 | escaping distributes over concatenation |
| ClientUi.EscapeHtmlIsPerChar | public/js/ui.js:43-50 | the replace chain equals escaping character by character, so `&amp;` is never escaped twice |
| ClientUi.UnescapeStep | public/js/ui.js:43-50 | decoding an escaped character gives the character back |
| ClientUi.UnescapeAmp | public/js/ui.js:45 | `&amp;` decodes to `&` |
| ClientUi.UnescapeLt | public/js/ui.js:46 | `&lt;` decodes to `<` |
| ClientUi.UnescapeGt | public/js/ui.js:47 | `&gt;` decodes to `>` |
| ClientUi.UnescapeQuot | public/js/ui.js:48 | `&quot;` decodes to `"` |
| ClientUi.UnescapeApos | public/js/ui.js:49 | `&#039;` decodes to `'` |
| ClientUi.EscapeHtml | public/js/ui.js:43-50 | escaping never shortens the text and leaves text without `& < > " '` unchanged; its round trip and markup freedom are the two lemmas below |
| ClientUi.UnescapeEscapeHtml | public/js/ui.js:43-50 | escaping loses nothing: decoding the escaped text gives the original back |
| ClientUi.UnescapeEachRoundTrip | public/js/ui.js:43-50 | decoding per-character escaping gives the original back |
| ClientUi.EscapeHtmlHasNoMarkup | public/js/ui.js:43-50 | escaped text contains no `<`, `>`, `"` or `'` |
| ClientUi.EscapeEachHasNoMarkup | public/js/ui.js:43-50 | per-character escaping contains no `<`, `>`, `"` or `'` |
| ClientUi.EscapeCharHasNoMarkup | public/js/ui.js:43-50 | no escaped character contains markup |
| ClientUi.AmpersandsStartEntities | public/js/ui.js:43-50 | every `&` in escaped text starts one of the five entities |
| ClientUi.EachAmpersandStartsEntity | public/js/ui.js:43-50 | the same for per-character escaping |
| ClientUi.EntityAmpersandOnlyFirst | public/js/ui.js:43-50 | in an escaped character, `&` can only be the first character of an entity |
| ClientUi.PlainTextUnchanged | public/js/ui.js:43-50 | text without special characters is not changed by escaping |
| ClientUi.TruncateSender | public/js/ui.js:65-71 | a missing or empty id shows `unknown`; otherwise the label is the id's first eight characters, or the whole id when shorter |
| ClientUi.TruncateSenderIdempotent | public/js/ui.js:65-71 | truncating a label again changes nothing |

## Left out

- Timers: `setTimeout` and `clearTimeout` become two ghost sets of pending timers. Firing a timer is the explicit call `FireExpiryTimer` or `FireEmptyTimer`. The 30-second cleanup interval is the explicit call `CleanupExpiredSessions(now)`. `unref` is not modelled.
- Clocks: `Date.now()` and `new Date()` become an explicit `now` parameter in milliseconds. ISO date strings are stored as those milliseconds. A timestamp that does not parse is `None`.
- Randomness: `randomInt` is modelled only by the shape of its results. `CreatePrivateSession` receives the ids the generator would draw and the password it would make. `uuidv4` is the `id` parameter of `AddMessage`.
- Sessions.SessionManager.CreatePrivateSession: requires that one of the drawn ids is free. The source loops until it finds one.
- Socket.IO: emits, broadcasts, `socket.join`, `socket.leave`, the `session-full` event and `io.sockets` lookups of other connections are not modelled. Each handler returns what it would report.
- Rotation on other connections: when an identity is rotated or a room expires, the source also clears the joined rooms of other sockets found through `io.sockets`. The model updates only the calling connection.
- The `onSessionExpired` callback and the server's reaction to it (clearing messages, notifying sockets) are not part of this model.
- Persistence: Firebase loading (`hydrateSessionMessages`) and the best-effort store writes are not modelled. For the store's deleted-message count, `RotateUserIdentityInternal` takes the store's answer as a parameter.
- Gateway.Server.JoinSessionInternal: the message list in the reply is the current bucket; hydration from the store before the reply is not modelled.
- Payload types: a payload field that only reaches `sanitizeText` or `normalizeUserId` is an `Option`, where `None` is any non-string (they give `""` for it). The two fields combined with `||` first (`payload.sessionId` on join, `payload.newUserId` on rotation) are a `Field` that separates a falsy value, a truthy non-string and a string.
- Messages.Accepted: a stored message's `id` and `userId` are strings, and `None` (any non-string) is rejected. The source's filter `message && message.id && message.userId` (server/messageManager.js:39) also lets a truthy non-string such as a number through and stores it unchanged; the model does not keep such messages.
- Gateway.ToErrorPayload: a thrown value's `code` and `message` are strings or `None`. The source's `error && error.code ? error.code : fallbackCode` (server/socket.js:16-17) passes a truthy non-string code or message through unchanged; the model treats it as absent and reports the default instead.
- ClientUi.TruncateSender: the user id is a string or `None`. For a truthy non-string the source returns the value itself (its `length` is undefined, so no cut happens, public/js/ui.js:66-70); the model shows `"unknown"` for it.
- Utils.ValidateDurationMinutes: takes the already-parsed integer (`None` when `parseInt` fails). Prefix parsing such as `"12abc"` becoming 12 is not modelled.
- Utils.ValidateMaxParticipants: same simplification of `parseInt`.
- Text: lengths count characters, not UTF-16 code units, so a character outside the Basic Multilingual Plane counts once here and twice in JavaScript.
- Ordering: JavaScript `Map` iteration order is not modelled. Participant lists are sets. `RemoveMessagesByUser` returns a ghost visiting `order`. The room listing fixes the order only as the comparator does (`general` first, newer first); ties stay unordered.
- Messages.MessageManager.GetMessages: returns a value, so the copy that `getMessages` makes (no aliasing) holds trivially.
- Client: `connect`, `applyRegisteredHandlers`, storage access and `window` lookups are not modelled. `ResolveSocketUrl` receives the query, storage, config, hostname and origin values as inputs. The storage write is the `stored` field of its result. The binder and unbinder calls are recorded in a `calls` log.
- ClientSocket.HandlerStore.AddHandler: handler identity is Dafny equality on a type parameter, standing in for JavaScript object identity.
- ClientUi.EscapeHtml: `String(value)` on non-strings is not modelled; the input is a string.
- The rest of the repository (HTTP server, Firebase adapter, page scripts other than the two functions above) is not part of this model.

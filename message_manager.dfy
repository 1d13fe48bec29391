/** The in-memory message history of the server (server/messageManager.js): one ordered bucket
    of messages per room, bounded to the newest `maxMessages`. */
module Messages {
  import opened Wrappers
  import opened Text
  import opened Utils

  const MaxMessagesPerSession := 100
  const EditWindowMinutes := 10
  const MaxContentLength := 2000

  /** A stored message; `timestamp` is the instant its ISO timestamp denotes, None when that
      text does not parse as a date. */
  datatype Message = Message(id: string, userId: string, sessionId: string, content: string,
                             timestamp: Option<int>, edited: bool)

  /** A message as handed to `setMessages` from persistence; None stands for a missing or
      non-string field, and `edited` for the truthiness of the stored flag. */
  datatype RawMessage = RawMessage(id: Option<string>, userId: Option<string>, sessionId: Option<string>,
                                   content: Option<string>, timestamp: Option<int>, edited: bool)

  const InvalidSessionId := AppError("INVALID_SESSION_ID", "Invalid session ID.")
  const InvalidMessagePayload := AppError("INVALID_MESSAGE_PAYLOAD", "Invalid message payload.")
  const EmptyMessage := AppError("EMPTY_MESSAGE", "Message content cannot be empty.")
  const MessageNotFound := AppError("MESSAGE_NOT_FOUND", "Message not found.")
  const EditForbidden := AppError("FORBIDDEN", "Cannot edit another user's message.")
  const DeleteForbidden := AppError("FORBIDDEN", "Cannot delete another user's message.")
  const EditWindowExpired := AppError("EDIT_WINDOW_EXPIRED", "Edit window expired (10 minutes).")

  /** What every stored message of the bucket of `sessionId` satisfies. */
  predicate WellFormedMessage(sessionId: string, m: Message)
  {
    m.sessionId == sessionId && m.id != "" && m.userId != "" && |m.content| <= MaxContentLength
  }

  predicate WellFormedBucket(sessionId: string, bucket: seq<Message>, maxMessages: nat)
  {
    && (forall i :: 0 <= i < |bucket| ==> WellFormedMessage(sessionId, bucket[i]))
    && (maxMessages > 0 ==> |bucket| <= maxMessages)
  }

  /** The bucket of a room; a room without one reads as empty. */
  function Bucket(buckets: map<string, seq<Message>>, sessionId: string): (r: seq<Message>)
    ensures sessionId !in buckets ==> r == []
    ensures sessionId in buckets ==> r == buckets[sessionId]
  {
    if sessionId in buckets then buckets[sessionId] else []
  }

  // ----- bounding -----

  /** The trimming in `addMessage`: the newest `n` messages, all of them when there are fewer. */
  function KeepNewest(bucket: seq<Message>, n: nat): (r: seq<Message>)
    ensures |r| == Min(|bucket|, n)
    ensures r == bucket[|bucket| - |r|..]
  {
    if |bucket| > n then bucket[|bucket| - n..] else bucket
  }

  /** `.slice(-n)`: like KeepNewest, except that `slice(-0)` keeps everything. */
  function SliceFromEnd(list: seq<RawMessage>, n: nat): (r: seq<RawMessage>)
    ensures |r| == (if n == 0 then |list| else Min(|list|, n))
    ensures r == list[|list| - |r|..]
  {
    if n == 0 || |list| <= n then list else list[|list| - n..]
  }

  /** Trimming before appending more is the same as trimming once at the end. */
  lemma KeepNewestConcat(front: seq<Message>, back: seq<Message>, n: nat)
    ensures KeepNewest(KeepNewest(front, n) + back, n) == KeepNewest(front + back, n)
  {
    var all := front + back;
    var trimmed := KeepNewest(front, n) + back;
    assert trimmed == all[|all| - |trimmed|..];
    var r := KeepNewest(trimmed, n);
    assert |r| == |KeepNewest(all, n)|;
    assert r == all[|all| - |r|..];
  }

  /** The bucket after appending `added` one `addMessage` at a time. */
  function AppendAll(bucket: seq<Message>, added: seq<Message>, n: nat): seq<Message>
    decreases |added|
  {
    if added == [] then bucket
    else AppendAll(KeepNewest(bucket + [added[0]], n), added[1..], n)
  }

  /** However many messages arrive, the bucket holds exactly the newest `n` of everything it has
      seen (or everything, while there are fewer than `n`). */
  lemma {:induction false} AppendAllKeepsNewest(bucket: seq<Message>, added: seq<Message>, n: nat)
    requires |bucket| <= n
    ensures AppendAll(bucket, added, n) == KeepNewest(bucket + added, n)
    decreases |added|
  {
    if added != [] {
      var grown := bucket + [added[0]];
      var rest := added[1..];
      AppendAllKeepsNewest(KeepNewest(grown, n), rest, n);
      KeepNewestConcat(grown, rest, n);
      AppendSplit(bucket, added);
    }
  }

  lemma AppendSplit(bucket: seq<Message>, added: seq<Message>)
    requires added != []
    ensures (bucket + [added[0]]) + added[1..] == bucket + added
  {
    assert added == [added[0]] + added[1..];
  }

  /** With a positive limit the message just added is kept, and it is the last one. */
  lemma AddedMessageIsLast(bucket: seq<Message>, m: Message, n: nat)
    requires n > 0
    ensures var r := KeepNewest(bucket + [m], n);
            |r| > 0 && r[|r| - 1] == m && |r| <= n
  {
    var all := bucket + [m];
    var r := KeepNewest(all, n);
    assert r[|r| - 1] == all[|all| - 1];
  }

  /** A bucket filled with 101 messages keeps the newest 100: the first one is gone. */
  lemma HundredAndFirstMessageDropsOldest(added: seq<Message>)
    requires |added| == MaxMessagesPerSession + 1
    ensures AppendAll([], added, MaxMessagesPerSession) == added[1..]
  {
    AppendAllKeepsNewest([], added, MaxMessagesPerSession);
    assert [] + added == added;
  }

  // ----- hydration (`setMessages`) -----

  /** The filter of `setMessages`: a message needs an id, a user id and this room's id. */
  predicate Accepted(sessionId: string, m: RawMessage)
  {
    m.id.Some? && m.id.value != "" && m.userId.Some? && m.userId.value != "" && m.sessionId == Some(sessionId)
  }

  function AcceptedOnly(sessionId: string, messages: seq<RawMessage>): (r: seq<RawMessage>)
    ensures |r| <= |messages|
    ensures forall i :: 0 <= i < |r| ==> Accepted(sessionId, r[i])
    ensures forall i :: 0 <= i < |messages| && Accepted(sessionId, messages[i]) ==> messages[i] in r
    ensures forall m :: m in r ==> m in messages
  {
    if messages == [] then []
    else
      var rest := AcceptedOnly(sessionId, messages[1..]);
      assert forall i :: 1 <= i < |messages| ==> messages[i] == messages[1..][i - 1];
      if Accepted(sessionId, messages[0]) then [messages[0]] + rest else rest
  }

  /** The filter keeps the order: filtering a concatenation filters each part. */
  lemma {:induction false} AcceptedOnlyConcat(sessionId: string, front: seq<RawMessage>, back: seq<RawMessage>)
    ensures AcceptedOnly(sessionId, front + back) == AcceptedOnly(sessionId, front) + AcceptedOnly(sessionId, back)
    decreases |front|
  {
    if front == [] {
      assert front + back == back;
    } else {
      var all := front + back;
      assert all[0] == front[0] && all[1..] == front[1..] + back;
      AcceptedOnlyConcat(sessionId, front[1..], back);
      var head := if Accepted(sessionId, front[0]) then [front[0]] else [];
      assert AcceptedOnly(sessionId, all) == head + AcceptedOnly(sessionId, all[1..]);
      assert AcceptedOnly(sessionId, front) == head + AcceptedOnly(sessionId, front[1..]);
    }
  }

  /** A single message is kept exactly when it is accepted. */
  lemma AcceptedOnlySingle(sessionId: string, m: RawMessage)
    ensures AcceptedOnly(sessionId, [m]) == if Accepted(sessionId, m) then [m] else []
  {
    assert [m][1..] == [];
  }

  /** One accepted message as `setMessages` stores it: content re-sanitized, flag made boolean. */
  function Rebuild(sessionId: string, m: RawMessage): (r: Message)
    requires Accepted(sessionId, m)
    ensures WellFormedMessage(sessionId, r)
    ensures r.id == m.id.value && r.userId == m.userId.value
    ensures r.content == SanitizeText(m.content, MaxContentLength)
  {
    Message(m.id.value, m.userId.value, sessionId, SanitizeText(m.content, MaxContentLength), m.timestamp, m.edited)
  }

  function RebuildAll(sessionId: string, messages: seq<RawMessage>): (r: seq<Message>)
    requires forall i :: 0 <= i < |messages| ==> Accepted(sessionId, messages[i])
    ensures |r| == |messages|
    ensures forall i :: 0 <= i < |r| ==> r[i] == Rebuild(sessionId, messages[i])
  {
    if messages == [] then [] else [Rebuild(sessionId, messages[0])] + RebuildAll(sessionId, messages[1..])
  }

  /** The bucket `setMessages` installs: a non-array input gives an empty bucket; otherwise the
      newest `maxMessages` accepted messages, rebuilt, each well formed for the room. */
  function Hydrate(sessionId: string, messages: Option<seq<RawMessage>>, maxMessages: nat): (r: seq<Message>)
    ensures messages.None? ==> r == []
    ensures WellFormedBucket(sessionId, r, maxMessages)
    ensures messages.Some? ==> |r| <= |messages.value|
    ensures messages.Some? ==>
              var accepted := AcceptedOnly(sessionId, messages.value);
              && |r| == (if maxMessages == 0 then |accepted| else Min(|accepted|, maxMessages))
              && forall i :: 0 <= i < |r| ==> r[i] == Rebuild(sessionId, accepted[|accepted| - |r| + i])
  {
    match messages
    case None => []
    case Some(list) => RebuildAll(sessionId, SliceFromEnd(AcceptedOnly(sessionId, list), maxMessages))
  }

  /** A message as it would be exported to persistence and read back. */
  function Export(m: Message): (r: RawMessage)
    ensures Accepted(m.sessionId, r) <==> m.id != "" && m.userId != ""
  {
    RawMessage(Some(m.id), Some(m.userId), Some(m.sessionId), Some(m.content), m.timestamp, m.edited)
  }

  function ExportAll(bucket: seq<Message>): (r: seq<RawMessage>)
    ensures |r| == |bucket|
    ensures forall i :: 0 <= i < |r| ==> r[i] == Export(bucket[i])
  {
    if bucket == [] then [] else [Export(bucket[0])] + ExportAll(bucket[1..])
  }

  /** Content that sanitizing leaves as it is. */
  predicate Settled(content: string)
  {
    && |content| <= MaxContentLength && IsClean(content)
    && (content == [] || (!IsSpace(content[0]) && !IsSpace(content[|content| - 1])))
  }

  lemma {:induction false} AcceptedOnlyAll(sessionId: string, messages: seq<RawMessage>)
    requires forall i :: 0 <= i < |messages| ==> Accepted(sessionId, messages[i])
    ensures AcceptedOnly(sessionId, messages) == messages
    decreases |messages|
  {
    if messages != [] {
      AcceptedOnlyAll(sessionId, messages[1..]);
    }
  }

  /** One settled message survives export and rebuilding unchanged. */
  lemma RebuildExport(sessionId: string, m: Message)
    requires WellFormedMessage(sessionId, m) && Settled(m.content)
    ensures Accepted(sessionId, Export(m))
    ensures Rebuild(sessionId, Export(m)) == m
  {
    SanitizeKeepsCleanText(m.content, MaxContentLength);
  }

  /** Exporting a bucket and hydrating it again gives the same bucket, provided it fits and its
      contents are already in sanitized form. */
  lemma HydrateExportRoundTrip(sessionId: string, bucket: seq<Message>, maxMessages: nat)
    requires forall i :: 0 <= i < |bucket| ==> WellFormedMessage(sessionId, bucket[i]) && Settled(bucket[i].content)
    requires maxMessages == 0 || |bucket| <= maxMessages
    ensures Hydrate(sessionId, Some(ExportAll(bucket)), maxMessages) == bucket
  {
    var exported := ExportAll(bucket);
    forall i | 0 <= i < |exported|
      ensures Accepted(sessionId, exported[i])
    {
      RebuildExport(sessionId, bucket[i]);
    }
    AcceptedOnlyAll(sessionId, exported);
    assert SliceFromEnd(exported, maxMessages) == exported;
    var rebuilt := RebuildAll(sessionId, exported);
    forall i | 0 <= i < |bucket|
      ensures rebuilt[i] == bucket[i]
    {
      RebuildExport(sessionId, bucket[i]);
    }
    assert rebuilt == bucket;
  }

  /** Hydration is not always a round trip: content that was cut at a space by sanitizing comes
      back without that space. */
  lemma HydrateTrimsCutContent(sessionId: string, m: Message, x: char, y: char)
    requires WellFormedMessage(sessionId, m)
    requires IsWordChar(x) && IsWordChar(y)
    requires m.content == [x, ' ']
    ensures Hydrate(sessionId, Some(ExportAll([m])), 0) != [m]
  {
    var exported := ExportAll([m]);
    AcceptedOnlyAll(sessionId, exported);
    SanitizeIsNotIdempotent(x, y);
    assert Hydrate(sessionId, Some(exported), 0)[0].content == [x];
  }

  // ----- adding -----

  /** The message `addMessage` builds, or the error it raises: room and user must be given and
      the sanitized content must not be empty. `id` is the fresh uuid and `now` the clock. */
  function NewMessage(sessionId: string, userId: string, content: Option<string>, id: string, now: int): (r: Result<Message, AppError>)
    ensures sessionId == "" || userId == "" ==> r == Failure(InvalidMessagePayload)
    ensures sessionId != "" && userId != "" && SanitizeText(content, MaxContentLength) == [] ==> r == Failure(EmptyMessage)
    ensures r.Success? <==> sessionId != "" && userId != "" && SanitizeText(content, MaxContentLength) != []
    ensures r.Success? ==> r.value == Message(id, userId, sessionId, SanitizeText(content, MaxContentLength), Some(now), false)
    ensures r.Failure? ==> IsRaised(r.error)
  {
    if sessionId == "" || userId == "" then Failure(InvalidMessagePayload)
    else
      var clean := SanitizeText(content, MaxContentLength);
      if clean == [] then Failure(EmptyMessage)
      else Success(Message(id, userId, sessionId, clean, Some(now), false))
  }

  lemma NewMessageWellFormed(sessionId: string, userId: string, content: Option<string>, id: string, now: int)
    requires id != "" && NewMessage(sessionId, userId, content, id, now).Success?
    ensures WellFormedMessage(sessionId, NewMessage(sessionId, userId, content, id, now).value)
  {
  }

  lemma AddKeepsWellFormed(sessionId: string, bucket: seq<Message>, maxMessages: nat, m: Message)
    requires WellFormedBucket(sessionId, bucket, maxMessages) && WellFormedMessage(sessionId, m)
    ensures WellFormedBucket(sessionId, KeepNewest(bucket + [m], maxMessages), maxMessages)
  {
    var all := bucket + [m];
    var kept := KeepNewest(all, maxMessages);
    forall i | 0 <= i < |kept|
      ensures WellFormedMessage(sessionId, kept[i])
    {
      assert kept[i] == all[|all| - |kept| + i];
    }
  }

  // ----- finding, editing, deleting -----

  /** `findIndex` by id: the first message carrying `messageId`. */
  function FindIndex(bucket: seq<Message>, messageId: string): (r: Option<nat>)
    ensures r.Some? ==> r.value < |bucket| && bucket[r.value].id == messageId
    ensures r.Some? ==> forall j :: 0 <= j < r.value ==> bucket[j].id != messageId
    ensures r.None? <==> forall j :: 0 <= j < |bucket| ==> bucket[j].id != messageId
  {
    if bucket == [] then None
    else if bucket[0].id == messageId then Some(0)
    else
      match FindIndex(bucket[1..], messageId)
      case None => None
      case Some(i) => Some(i + 1)
  }

  /** `editMessage` on a bucket: the edited message or the error, checked in the source's order. */
  function EditOutcome(bucket: seq<Message>, messageId: string, userId: string, content: Option<string>, now: int): (r: Result<Message, AppError>)
    ensures r.Success? ==> && FindIndex(bucket, messageId).Some?
                           && r.value.id == messageId && r.value.userId == userId && r.value.edited
                           && r.value.content == SanitizeText(content, MaxContentLength) && r.value.content != []
    ensures r.Success? ==> r.value == bucket[FindIndex(bucket, messageId).value].(content := r.value.content, edited := true)
    ensures r.Success? ==> bucket[FindIndex(bucket, messageId).value].userId == userId
    ensures r.Failure? ==> IsRaised(r.error)
  {
    match FindIndex(bucket, messageId)
    case None => Failure(MessageNotFound)
    case Some(i) =>
      var target := bucket[i];
      if target.userId != userId then Failure(EditForbidden)
      else if !IsWithinEditWindow(target.timestamp, EditWindowMinutes, now) then Failure(EditWindowExpired)
      else
        var clean := SanitizeText(content, MaxContentLength);
        if clean == [] then Failure(EmptyMessage)
        else Success(target.(content := clean, edited := true))
  }

  /** Which error `editMessage` raises, as a function of the first message with the id. */
  lemma EditOutcomeCases(bucket: seq<Message>, messageId: string, userId: string, content: Option<string>, now: int)
    ensures var r := EditOutcome(bucket, messageId, userId, content, now);
            var i := FindIndex(bucket, messageId);
            && (r == Failure(MessageNotFound) <==> i.None?)
            && (r == Failure(EditForbidden) <==> i.Some? && bucket[i.value].userId != userId)
            && (r == Failure(EditWindowExpired) <==>
                  i.Some? && bucket[i.value].userId == userId
                  && !IsWithinEditWindow(bucket[i.value].timestamp, EditWindowMinutes, now))
            && (r == Failure(EmptyMessage) <==>
                  i.Some? && bucket[i.value].userId == userId
                  && IsWithinEditWindow(bucket[i.value].timestamp, EditWindowMinutes, now)
                  && SanitizeText(content, MaxContentLength) == [])
            && (r.Success? <==>
                  i.Some? && bucket[i.value].userId == userId
                  && IsWithinEditWindow(bucket[i.value].timestamp, EditWindowMinutes, now)
                  && SanitizeText(content, MaxContentLength) != [])
  {
  }

  /** The bucket after `editMessage`: on success the one message is replaced in place. */
  function EditedBucket(bucket: seq<Message>, messageId: string, userId: string, content: Option<string>, now: int): (r: seq<Message>)
    ensures |r| == |bucket|
  {
    match EditOutcome(bucket, messageId, userId, content, now)
    case Failure(_) => bucket
    case Success(edited) => bucket[FindIndex(bucket, messageId).value := edited]
  }

  /** An edit keeps the order and the ids, changes only the message it names and only its
      content and flag, and only its author can make it. */
  lemma EditChangesOnlyTarget(bucket: seq<Message>, messageId: string, userId: string, content: Option<string>, now: int)
    ensures var r := EditedBucket(bucket, messageId, userId, content, now);
            && (forall j :: 0 <= j < |r| ==> r[j].id == bucket[j].id && r[j].userId == bucket[j].userId
                                             && r[j].sessionId == bucket[j].sessionId && r[j].timestamp == bucket[j].timestamp)
            && (forall j :: 0 <= j < |r| && r[j] != bucket[j] ==>
                  Some(j) == FindIndex(bucket, messageId) && bucket[j].userId == userId)
            && (EditOutcome(bucket, messageId, userId, content, now).Success? ==>
                  var i := FindIndex(bucket, messageId).value;
                  r[i].content == SanitizeText(content, MaxContentLength) && r[i].edited)
  {
    EditedBucketCases(bucket, messageId, userId, content, now);
    var outcome := EditOutcome(bucket, messageId, userId, content, now);
    if outcome.Success? {
      EditReplacesOne(bucket, FindIndex(bucket, messageId).value, outcome.value, userId);
    }
  }

  /** Replacing the message at `i` by a copy with other content and flag keeps every identity. */
  lemma EditReplacesOne(bucket: seq<Message>, i: nat, edited: Message, userId: string)
    requires i < |bucket| && bucket[i].userId == userId
    requires edited == bucket[i].(content := edited.content, edited := edited.edited)
    ensures var r := bucket[i := edited];
            && (forall j :: 0 <= j < |r| ==> r[j].id == bucket[j].id && r[j].userId == bucket[j].userId
                                             && r[j].sessionId == bucket[j].sessionId && r[j].timestamp == bucket[j].timestamp)
            && (forall j :: 0 <= j < |r| && r[j] != bucket[j] ==> j == i && bucket[j].userId == userId)
  {
  }

  /** The bucket changes only through a successful edit, and a successful edit puts the edited
      message where the first message with the id was. */
  lemma EditedBucketCases(bucket: seq<Message>, messageId: string, userId: string, content: Option<string>, now: int)
    ensures EditedBucket(bucket, messageId, userId, content, now) != bucket
            ==> EditOutcome(bucket, messageId, userId, content, now).Success?
    ensures EditOutcome(bucket, messageId, userId, content, now).Success?
            ==> EditedBucket(bucket, messageId, userId, content, now)
                == bucket[FindIndex(bucket, messageId).value := EditOutcome(bucket, messageId, userId, content, now).value]
  {
  }

  /** An edited message keeps its place and bounds, so the bucket stays well formed. */
  lemma EditKeepsWellFormed(sessionId: string, bucket: seq<Message>, maxMessages: nat,
                            messageId: string, userId: string, content: Option<string>, now: int)
    requires WellFormedBucket(sessionId, bucket, maxMessages)
    ensures WellFormedBucket(sessionId, EditedBucket(bucket, messageId, userId, content, now), maxMessages)
  {
  }

  /** `deleteMessage` on a bucket: the removed message or the error. */
  function DeleteOutcome(bucket: seq<Message>, messageId: string, userId: string): (r: Result<Message, AppError>)
    ensures r == Failure(MessageNotFound) <==> FindIndex(bucket, messageId).None?
    ensures r.Success? <==> FindIndex(bucket, messageId).Some? && bucket[FindIndex(bucket, messageId).value].userId == userId
    ensures r.Success? ==> r.value == bucket[FindIndex(bucket, messageId).value] && r.value.id == messageId && r.value.userId == userId
    ensures r.Failure? ==> IsRaised(r.error)
  {
    match FindIndex(bucket, messageId)
    case None => Failure(MessageNotFound)
    case Some(i) =>
      if bucket[i].userId != userId then Failure(DeleteForbidden) else Success(bucket[i])
  }

  /** The bucket after `deleteMessage`: on success the first message with the id is spliced out. */
  function DeletedBucket(bucket: seq<Message>, messageId: string, userId: string): (r: seq<Message>)
    ensures DeleteOutcome(bucket, messageId, userId).Failure? ==> r == bucket
    ensures DeleteOutcome(bucket, messageId, userId).Success? ==> |r| == |bucket| - 1
    ensures forall m :: m in r ==> m in bucket
  {
    match DeleteOutcome(bucket, messageId, userId)
    case Failure(_) => bucket
    case Success(_) =>
      var i := FindIndex(bucket, messageId).value;
      bucket[..i] + bucket[i + 1..]
  }

  /** A delete removes exactly the returned message and keeps the others in order; only the
      author can delete. */
  lemma DeleteRemovesExactlyOne(bucket: seq<Message>, messageId: string, userId: string)
    ensures var r := DeleteOutcome(bucket, messageId, userId);
            var next := DeletedBucket(bucket, messageId, userId);
            && (r.Failure? ==> next == bucket)
            && (r.Success? ==> |next| == |bucket| - 1 && multiset(next) + multiset{r.value} == multiset(bucket))
            && (r.Success? ==> var i := FindIndex(bucket, messageId).value;
                               next == bucket[..i] + bucket[i + 1..] && r.value == bucket[i])
            && (r == Failure(DeleteForbidden) <==>
                  FindIndex(bucket, messageId).Some? && bucket[FindIndex(bucket, messageId).value].userId != userId)
  {
    var r := DeleteOutcome(bucket, messageId, userId);
    if r.Success? {
      var i := FindIndex(bucket, messageId).value;
      assert bucket == bucket[..i] + [bucket[i]] + bucket[i + 1..];
    }
  }

  lemma DeleteKeepsWellFormed(sessionId: string, bucket: seq<Message>, maxMessages: nat, messageId: string, userId: string)
    requires WellFormedBucket(sessionId, bucket, maxMessages)
    ensures WellFormedBucket(sessionId, DeletedBucket(bucket, messageId, userId), maxMessages)
  {
    var next := DeletedBucket(bucket, messageId, userId);
    if DeleteOutcome(bucket, messageId, userId).Success? {
      var i := FindIndex(bucket, messageId).value;
      assert forall j :: 0 <= j < |next| ==> next[j] == (if j < i then bucket[j] else bucket[j + 1]);
    }
  }

  // ----- removing a user's messages -----

  /** The messages of `bucket` written by `userId`, in order. */
  function ByUser(bucket: seq<Message>, userId: string): (r: seq<Message>)
    ensures forall m :: m in r ==> m in bucket && m.userId == userId
  {
    if bucket == [] then []
    else if bucket[0].userId == userId then [bucket[0]] + ByUser(bucket[1..], userId)
    else ByUser(bucket[1..], userId)
  }

  /** The messages of `bucket` written by anyone else, in order. */
  function NotByUser(bucket: seq<Message>, userId: string): (r: seq<Message>)
    ensures forall m :: m in r ==> m in bucket && m.userId != userId
  {
    if bucket == [] then []
    else if bucket[0].userId == userId then NotByUser(bucket[1..], userId)
    else [bucket[0]] + NotByUser(bucket[1..], userId)
  }

  /** The removed side keeps the order: it splits over a concatenation. */
  lemma {:induction false} ByUserConcat(front: seq<Message>, back: seq<Message>, userId: string)
    ensures ByUser(front + back, userId) == ByUser(front, userId) + ByUser(back, userId)
    decreases |front|
  {
    if front == [] {
      assert front + back == back;
    } else {
      var all := front + back;
      assert all[0] == front[0] && all[1..] == front[1..] + back;
      ByUserConcat(front[1..], back, userId);
      SplitHead(all, userId);
      SplitHead(front, userId);
      var head := if front[0].userId == userId then [front[0]] else [];
      ConcatAssoc(head, ByUser(front[1..], userId), ByUser(back, userId));
    }
  }

  /** The kept side keeps the order: it splits over a concatenation. */
  lemma {:induction false} NotByUserConcat(front: seq<Message>, back: seq<Message>, userId: string)
    ensures NotByUser(front + back, userId) == NotByUser(front, userId) + NotByUser(back, userId)
    decreases |front|
  {
    if front == [] {
      assert front + back == back;
    } else {
      var all := front + back;
      assert all[0] == front[0] && all[1..] == front[1..] + back;
      NotByUserConcat(front[1..], back, userId);
      SplitHead(all, userId);
      SplitHead(front, userId);
      var head := if front[0].userId != userId then [front[0]] else [];
      ConcatAssoc(head, NotByUser(front[1..], userId), NotByUser(back, userId));
    }
  }

  /** The split unfolded once at the head. */
  lemma SplitHead(bucket: seq<Message>, userId: string)
    requires bucket != []
    ensures ByUser(bucket, userId) == (if bucket[0].userId == userId then [bucket[0]] else []) + ByUser(bucket[1..], userId)
    ensures NotByUser(bucket, userId) == (if bucket[0].userId == userId then [] else [bucket[0]]) + NotByUser(bucket[1..], userId)
  {
  }

  /** A single message goes to the side its author decides. */
  lemma SplitByUserSingle(m: Message, userId: string)
    ensures ByUser([m], userId) == if m.userId == userId then [m] else []
    ensures NotByUser([m], userId) == if m.userId == userId then [] else [m]
  {
    assert [m][1..] == [];
  }

  /** Splitting a bucket by author loses and invents nothing. */
  lemma {:induction false} SplitByUserIsPartition(bucket: seq<Message>, userId: string)
    ensures multiset(ByUser(bucket, userId)) + multiset(NotByUser(bucket, userId)) == multiset(bucket)
    ensures forall m :: m in bucket && m.userId == userId ==> m in ByUser(bucket, userId)
    decreases |bucket|
  {
    if bucket != [] {
      SplitByUserIsPartition(bucket[1..], userId);
      assert bucket == [bucket[0]] + bucket[1..];
    }
  }

  lemma NotByUserKeepsWellFormed(sessionId: string, bucket: seq<Message>, maxMessages: nat, userId: string)
    requires WellFormedBucket(sessionId, bucket, maxMessages)
    ensures WellFormedBucket(sessionId, NotByUser(bucket, userId), maxMessages)
  {
    SplitByUserIsPartition(bucket, userId);
    assert |multiset(NotByUser(bucket, userId))| <= |multiset(bucket)|;
    forall i | 0 <= i < |NotByUser(bucket, userId)|
      ensures WellFormedMessage(sessionId, NotByUser(bucket, userId)[i])
    {
      var m := NotByUser(bucket, userId)[i];
      assert m in bucket;
    }
  }

  /** One step of the split: the message at `i` goes to exactly one side. */
  lemma SplitStep(bucket: seq<Message>, i: nat, userId: string)
    requires i < |bucket|
    ensures ByUser(bucket[i..], userId) == (if bucket[i].userId == userId then [bucket[i]] else []) + ByUser(bucket[i + 1..], userId)
    ensures NotByUser(bucket[i..], userId) == (if bucket[i].userId == userId then [] else [bucket[i]]) + NotByUser(bucket[i + 1..], userId)
  {
    assert bucket[i..][1..] == bucket[i + 1..];
  }

  /** The per-bucket `forEach` of `removeMessagesByUser`. */
  method SplitBucket(bucket: seq<Message>, userId: string) returns (kept: seq<Message>, removed: seq<Message>)
    ensures kept == NotByUser(bucket, userId)
    ensures removed == ByUser(bucket, userId)
  {
    kept := [];
    removed := [];
    var i := 0;
    while i < |bucket|
      invariant 0 <= i <= |bucket|
      invariant kept + NotByUser(bucket[i..], userId) == NotByUser(bucket, userId)
      invariant removed + ByUser(bucket[i..], userId) == ByUser(bucket, userId)
    {
      SplitStep(bucket, i, userId);
      if bucket[i].userId == userId {
        ConcatAssoc(removed, [bucket[i]], ByUser(bucket[i + 1..], userId));
        removed := removed + [bucket[i]];
      } else {
        ConcatAssoc(kept, [bucket[i]], NotByUser(bucket[i + 1..], userId));
        kept := kept + [bucket[i]];
      }
      i := i + 1;
    }
  }

  /** The removed messages of every bucket, concatenated in the order the buckets are visited. */
  function RemovedInOrder(buckets: map<string, seq<Message>>, order: seq<string>, userId: string): seq<Message>
    requires forall i :: 0 <= i < |order| ==> order[i] in buckets
  {
    if order == [] then []
    else RemovedInOrder(buckets, order[..|order| - 1], userId) + ByUser(buckets[order[|order| - 1]], userId)
  }

  /** Where the outer loop of `removeMessagesByUser` stands when only `remaining` is left: the
      buckets visited, in `order`, hold only other users' messages, and `removed` collects what
      they lost. */
  ghost predicate Removing(buckets: map<string, seq<Message>>, userId: string, remaining: set<string>,
                           next: map<string, seq<Message>>, removed: seq<Message>, order: seq<string>)
  {
    && remaining <= buckets.Keys && next.Keys == buckets.Keys
    && (forall id :: id in remaining ==> next[id] == buckets[id])
    && (forall id :: id in next && id !in remaining ==> next[id] == NotByUser(buckets[id], userId))
    && (forall i :: 0 <= i < |order| ==> order[i] in buckets && order[i] !in remaining)
    && (forall id :: id in buckets && id !in remaining ==> id in order)
    && (forall i, j :: 0 <= i < j < |order| ==> order[i] != order[j])
    && removed == RemovedInOrder(buckets, order, userId)
  }

  /** Visiting one more bucket. */
  lemma RemovingStep(buckets: map<string, seq<Message>>, userId: string, remaining: set<string>,
                     next: map<string, seq<Message>>, removed: seq<Message>, order: seq<string>, id: string)
    requires Removing(buckets, userId, remaining, next, removed, order) && id in remaining
    ensures Removing(buckets, userId, remaining - {id}, next[id := NotByUser(next[id], userId)],
                     removed + ByUser(next[id], userId), order + [id])
  {
    assert (order + [id])[..|order|] == order;
  }

  /** The outer loop of `removeMessagesByUser` over the buckets, on values. `order` is the order
      in which the buckets are visited. */
  method RemoveFromAll(buckets: map<string, seq<Message>>, userId: string)
    returns (next: map<string, seq<Message>>, removed: seq<Message>, ghost order: seq<string>)
    ensures next.Keys == buckets.Keys
    ensures forall id :: id in next ==> next[id] == NotByUser(buckets[id], userId)
    ensures forall i :: 0 <= i < |order| ==> order[i] in buckets
    ensures forall id :: id in buckets ==> id in order
    ensures forall i, j :: 0 <= i < j < |order| ==> order[i] != order[j]
    ensures removed == RemovedInOrder(buckets, order, userId)
  {
    next := buckets;
    removed := [];
    order := [];
    var remaining := buckets.Keys;
    while remaining != {}
      invariant Removing(buckets, userId, remaining, next, removed, order)
      decreases remaining
    {
      var id :| id in remaining;
      RemovingStep(buckets, userId, remaining, next, removed, order, id);
      var kept, gone := SplitBucket(next[id], userId);
      next := next[id := kept];
      removed := removed + gone;
      order := order + [id];
      remaining := remaining - {id};
    }
  }

  // ----- the manager -----

  class MessageManager {
    const maxMessages: nat
    var buckets: map<string, seq<Message>>

    ghost predicate Valid()
      reads this
    {
      forall id :: id in buckets ==> WellFormedBucket(id, buckets[id], maxMessages)
    }

    /** The constructor: no buckets yet; `maxMessages` defaults to 100 in the source. */
    constructor (limit: nat)
      ensures Valid()
      ensures maxMessages == limit && buckets == map[]
    {
      maxMessages := limit;
      buckets := map[];
    }

    /** `getMessages`: a copy of the room's bucket, empty when it has none. */
    function GetMessages(sessionId: string): (r: seq<Message>)
      reads this
      requires Valid()
      ensures WellFormedBucket(sessionId, r, maxMessages)
      ensures sessionId in buckets ==> r == buckets[sessionId]
      ensures sessionId !in buckets ==> r == []
    {
      Bucket(buckets, sessionId)
    }

    /** `setMessages`: an empty room id is refused; otherwise the room's bucket becomes the
        hydrated list. */
    method SetMessages(sessionId: string, messages: Option<seq<RawMessage>>) returns (r: Option<AppError>)
      requires Valid()
      modifies this
      ensures Valid()
      ensures sessionId == "" ==> r == Some(InvalidSessionId) && unchanged(this)
      ensures sessionId != "" ==> r.None? && buckets == old(buckets)[sessionId := Hydrate(sessionId, messages, maxMessages)]
    {
      if sessionId == "" {
        r := Some(InvalidSessionId);
      } else {
        Store(sessionId, Hydrate(sessionId, messages, maxMessages));
        r := None;
      }
    }

    /** The room's bucket is replaced by a well-formed one. */
    method Store(sessionId: string, bucket: seq<Message>)
      requires Valid() && WellFormedBucket(sessionId, bucket, maxMessages)
      modifies this
      ensures Valid()
      ensures buckets == old(buckets)[sessionId := bucket]
    {
      buckets := buckets[sessionId := bucket];
    }

    /** `addMessage`: the outcome is NewMessage; on success the message is appended to the
        room's bucket (created if needed), which is then cut back to the newest `maxMessages`. */
    method AddMessage(sessionId: string, userId: string, content: Option<string>, id: string, now: int)
      returns (r: Result<Message, AppError>)
      requires Valid()
      requires id != ""
      modifies this
      ensures Valid()
      ensures r == NewMessage(sessionId, userId, content, id, now)
      ensures r.Failure? ==> unchanged(this)
      ensures r.Success? ==> buckets == old(buckets)[sessionId := KeepNewest(Bucket(old(buckets), sessionId) + [r.value], maxMessages)]
    {
      r := NewMessage(sessionId, userId, content, id, now);
      if r.Success? {
        NewMessageWellFormed(sessionId, userId, content, id, now);
        Append(sessionId, r.value);
      }
    }

    /** The room's bucket (created if needed) gains `m` and is cut back to the newest `maxMessages`. */
    method Append(sessionId: string, m: Message)
      requires Valid() && WellFormedMessage(sessionId, m)
      modifies this
      ensures Valid()
      ensures buckets == old(buckets)[sessionId := KeepNewest(Bucket(old(buckets), sessionId) + [m], maxMessages)]
    {
      var bucket := Bucket(buckets, sessionId);
      AddKeepsWellFormed(sessionId, bucket, maxMessages, m);
      buckets := buckets[sessionId := KeepNewest(bucket + [m], maxMessages)];
    }

    /** `editMessage`: the room's bucket is created if missing, even when the edit fails; the
        outcome is EditOutcome and the bucket becomes EditedBucket. */
    method EditMessage(sessionId: string, messageId: string, userId: string, content: Option<string>, now: int)
      returns (r: Result<Message, AppError>)
      requires Valid()
      modifies this
      ensures Valid()
      ensures r == EditOutcome(Bucket(old(buckets), sessionId), messageId, userId, content, now)
      ensures buckets == old(buckets)[sessionId := EditedBucket(Bucket(old(buckets), sessionId), messageId, userId, content, now)]
    {
      var bucket := Bucket(buckets, sessionId);
      EditKeepsWellFormed(sessionId, bucket, maxMessages, messageId, userId, content, now);
      r := EditOutcome(bucket, messageId, userId, content, now);
      buckets := buckets[sessionId := EditedBucket(bucket, messageId, userId, content, now)];
    }

    /** `deleteMessage`: like EditMessage, with DeleteOutcome and DeletedBucket. */
    method DeleteMessage(sessionId: string, messageId: string, userId: string)
      returns (r: Result<Message, AppError>)
      requires Valid()
      modifies this
      ensures Valid()
      ensures r == DeleteOutcome(Bucket(old(buckets), sessionId), messageId, userId)
      ensures buckets == old(buckets)[sessionId := DeletedBucket(Bucket(old(buckets), sessionId), messageId, userId)]
    {
      var bucket := Bucket(buckets, sessionId);
      DeleteKeepsWellFormed(sessionId, bucket, maxMessages, messageId, userId);
      r := DeleteOutcome(bucket, messageId, userId);
      buckets := buckets[sessionId := DeletedBucket(bucket, messageId, userId)];
    }

    /** `removeMessagesByUser`: an empty id changes nothing; otherwise every bucket loses the
        user's messages, which are returned bucket by bucket in their original order. */
    method RemoveMessagesByUser(userId: string) returns (removed: seq<Message>, ghost order: seq<string>)
      requires Valid()
      modifies this
      ensures Valid()
      ensures userId == "" ==> removed == [] && unchanged(this)
      ensures userId != "" ==>
                && buckets.Keys == old(buckets).Keys
                && (forall id :: id in buckets ==> buckets[id] == NotByUser(old(buckets)[id], userId))
                && (forall i :: 0 <= i < |order| ==> order[i] in old(buckets))
                && (forall id :: id in old(buckets) ==> id in order)
                && (forall i, j :: 0 <= i < j < |order| ==> order[i] != order[j])
                && removed == RemovedInOrder(old(buckets), order, userId)
    {
      if userId == "" {
        return [], [];
      }
      var next;
      next, removed, order := RemoveFromAll(buckets, userId);
      forall id | id in next
        ensures WellFormedBucket(id, next[id], maxMessages)
      {
        NotByUserKeepsWellFormed(id, buckets[id], maxMessages, userId);
      }
      buckets := next;
    }

    /** `clearSession`: the room's bucket is dropped. */
    method ClearSession(sessionId: string)
      requires Valid()
      modifies this
      ensures Valid()
      ensures buckets == old(buckets) - {sessionId}
    {
      buckets := buckets - {sessionId};
    }
  }
}

/** The connection handlers of the chat server (`server/socket.js`): how payload fields are
    normalised, what each connection remembers, and how the join, leave, message and identity
    handlers drive the session manager and the message manager. Emitting events, Socket.IO rooms
    and persistence are not modelled; each handler returns what it would report to its caller. */
module Gateway {
  import opened Wrappers
  import opened Text
  import opened Utils
  import opened Sessions
  import opened Messages

  // ----- error payloads -----

  /** A caught error object; a field is None when it is absent or not a string. */
  datatype Thrown = Thrown(code: Option<string>, message: Option<string>)

  /** The error object a manager throws for `e`. */
  function Raise(e: AppError): (t: Thrown)
    ensures t.code == Some(e.code) && t.message == Some(e.message)
  {
    Thrown(Some(e.code), Some(e.message))
  }

  const UnexpectedErrorMessage := "Unexpected error."

  /** `toErrorPayload(error, fallbackCode)`: each field of the error when it is a non-empty string,
      otherwise the fallback code and the generic message. */
  function ToErrorPayload(error: Option<Thrown>, fallbackCode: string): (r: AppError)
    ensures error.Some? && error.value.code.Some? && error.value.code.value != [] ==> r.code == error.value.code.value
    ensures error.None? || error.value.code.None? || error.value.code.value == [] ==> r.code == fallbackCode
    ensures error.Some? && error.value.message.Some? && error.value.message.value != [] ==> r.message == error.value.message.value
    ensures error.None? || error.value.message.None? || error.value.message.value == [] ==> r.message == UnexpectedErrorMessage
    ensures fallbackCode != [] ==> IsRaised(r)
  {
    match error
    case None => AppError(fallbackCode, UnexpectedErrorMessage)
    case Some(t) => AppError(OrElse(t.code, fallbackCode), OrElse(t.message, UnexpectedErrorMessage))
  }

  /** A handler reports a thrown error unchanged exactly when its code and message are both
      non-empty. */
  lemma RaisedErrorPassesThrough(e: AppError, fallbackCode: string)
    requires fallbackCode != []
    ensures ToErrorPayload(Some(Raise(e)), fallbackCode) == e <==> IsRaised(e)
  {
  }

  /** A manager's result as a handler reports it: a thrown error goes through `toErrorPayload`. */
  function Report<T>(result: Result<T, AppError>, fallbackCode: string): (r: Result<T, AppError>)
    requires fallbackCode != []
    ensures r.Success? <==> result.Success?
    ensures result.Success? ==> r == result
    ensures result.Failure? && IsRaised(result.error) ==> r == result
    ensures r.Failure? ==> IsRaised(r.error)
  {
    match result
    case Success(v) => Success(v)
    case Failure(e) => Failure(ToErrorPayload(Some(Raise(e)), fallbackCode))
  }

  const InvalidSession := AppError("INVALID_SESSION", "Session ID is required.")
  const NotInSession := AppError("NOT_IN_SESSION", "Join the session first.")
  const InvalidEditPayload := AppError("INVALID_EDIT_PAYLOAD", "Invalid edit payload.")
  const InvalidDeletePayload := AppError("INVALID_DELETE_PAYLOAD", "Invalid delete payload.")

  // ----- identifiers in payloads -----

  const MaxSessionIdLength := 80
  const MaxMessageIdLength := 64
  const MaxPasswordLength := 64

  /** Characters a session id keeps: `[A-Za-z0-9_-]`. */
  predicate IsSessionIdChar(c: char)
  {
    IsWordChar(c) || c == '-'
  }

  /** Characters a message id keeps: `[A-Za-z0-9-]`. */
  predicate IsMessageIdChar(c: char)
  {
    IsAsciiLetterOrDigit(c) || c == '-'
  }

  /** A session id in normal form: at most 80 characters, all kept ones. */
  predicate IsNormalSessionId(s: string)
  {
    |s| <= MaxSessionIdLength && forall i :: 0 <= i < |s| ==> IsSessionIdChar(s[i])
  }

  /** A message id in normal form: at most 64 characters, all kept ones. */
  predicate IsNormalMessageId(s: string)
  {
    |s| <= MaxMessageIdLength && forall i :: 0 <= i < |s| ==> IsMessageIdChar(s[i])
  }

  /** `normalizeSessionId`: sanitised to 80 characters, then every other character dropped. */
  function NormalizeSessionId(value: Option<string>): (r: string)
    ensures IsNormalSessionId(r)
    ensures value.None? ==> r == []
  {
    var cleaned := SanitizeText(value, MaxSessionIdLength);
    if cleaned == [] then [] else Keep(cleaned, IsSessionIdChar)
  }

  /** `normalizeMessageId`: sanitised to 64 characters, then every other character dropped. */
  function NormalizeMessageId(value: Option<string>): (r: string)
    ensures IsNormalMessageId(r)
    ensures value.None? ==> r == []
  {
    var cleaned := SanitizeText(value, MaxMessageIdLength);
    if cleaned == [] then [] else Keep(cleaned, IsMessageIdChar)
  }

  lemma SessionIdCharsArePlain(s: string)
    requires forall i :: 0 <= i < |s| ==> IsSessionIdChar(s[i])
    ensures IsClean(s)
    ensures forall i :: 0 <= i < |s| ==> !IsSpace(s[i])
  {
  }

  /** A string is its own normal session id exactly when it is short enough and uses only the
      kept characters. */
  lemma SessionIdFixedPoints(s: string)
    ensures NormalizeSessionId(Some(s)) == s <==> IsNormalSessionId(s)
  {
    if IsNormalSessionId(s) {
      SessionIdCharsArePlain(s);
      SanitizeKeepsCleanText(s, MaxSessionIdLength);
    }
  }

  /** Normalising a session id twice changes nothing more. */
  lemma NormalizeSessionIdIdempotent(value: Option<string>)
    ensures NormalizeSessionId(Some(NormalizeSessionId(value))) == NormalizeSessionId(value)
  {
    SessionIdFixedPoints(NormalizeSessionId(value));
  }

  /** A message id is its own normal form exactly when it is short enough and uses only the kept
      characters (a UUID qualifies). */
  lemma MessageIdFixedPoints(s: string)
    ensures NormalizeMessageId(Some(s)) == s <==> IsNormalMessageId(s)
  {
    if IsNormalMessageId(s) {
      assert forall i :: 0 <= i < |s| ==> IsSessionIdChar(s[i]);
      SessionIdCharsArePlain(s);
      SanitizeKeepsCleanText(s, MaxMessageIdLength);
    }
  }

  /** Normalising a message id twice changes nothing more. */
  lemma NormalizeMessageIdIdempotent(value: Option<string>)
    ensures NormalizeMessageId(Some(NormalizeMessageId(value))) == NormalizeMessageId(value)
  {
    MessageIdFixedPoints(NormalizeMessageId(value));
  }

  /** Generated private room ids survive normalisation. */
  lemma PrivateSessionIdIsNormal(id: string)
    requires IsPrivateSessionIdShape(id)
    ensures IsNormalSessionId(id)
    ensures NormalizeSessionId(Some(id)) == id
  {
    PrivateSessionIdChars(id);
    NormalSessionIdSurvives(id);
  }

  lemma PrivateSessionIdChars(id: string)
    requires IsPrivateSessionIdShape(id)
    ensures IsNormalSessionId(id)
  {
    var prefix := id[..8];
    forall i | 0 <= i < 8
      ensures IsSessionIdChar(id[i])
    {
      assert id[i] == prefix[i];
    }
    forall i | 8 <= i < |id|
      ensures IsSessionIdChar(id[i])
    {
      assert id[i] == id[8..][i - 8];
      AlphanumericChars(id[i]);
    }
  }

  /** The general room's id survives normalisation. */
  lemma GeneralSessionIdIsNormal()
    ensures IsNormalSessionId(GeneralSessionId)
    ensures NormalizeSessionId(Some(GeneralSessionId)) == GeneralSessionId
  {
    var g := GeneralSessionId;
    assert IsNormalSessionId(g);
    NormalSessionIdSurvives(g);
  }

  lemma NormalSessionIdSurvives(s: string)
    requires IsNormalSessionId(s)
    ensures NormalizeSessionId(Some(s)) == s
  {
    SessionIdFixedPoints(s);
  }

  /** A generated password survives the handler's sanitising unchanged. */
  lemma GeneratedPasswordIsKept(password: string)
    requires IsPasswordShape(password)
    ensures SanitizeText(Some(password), MaxPasswordLength) == password
  {
    forall i | 0 <= i < |password|
      ensures IsWordChar(password[i])
    {
      AlphanumericChars(password[i]);
    }
    WordCharsArePlain(password);
    SanitizeKeepsCleanText(password, MaxPasswordLength);
  }

  // ----- one connection -----

  /** The user id a connection holds after `resolveUserId(socket, candidate)` when it held
      `before`: the normalised candidate if there is one, else the id it had, else a freshly
      generated one. */
  predicate Resolves(before: string, candidate: Option<string>, after: string)
  {
    if NormalizeUserId(candidate) != [] then after == NormalizeUserId(candidate)
    else if before != [] then after == before
    else IsUserIdShape(after)
  }

  /** The choice `resolveUserId` makes, on values: the normalised candidate when non-empty, else
      the stored id, else a freshly generated one. */
  method ResolvedUserId(stored: string, candidate: Option<string>) returns (r: string)
    requires IsNormalUserId(stored)
    ensures Resolves(stored, candidate, r) && IsNormalUserId(r) && r != []
  {
    var normalized := NormalizeUserId(candidate);
    r := stored;
    if normalized != [] {
      r := normalized;
    } else if r == [] {
      r := GenerateNormalUserId();
    }
  }

  /** Every room a connection remembers has a non-empty, normal id. */
  ghost predicate JoinedAreNormal(joined: set<string>)
  {
    forall s :: s in joined ==> s != [] && IsNormalSessionId(s)
  }

  /** The state a connection keeps in `socket.data`: its user id and the rooms it joined. */
  class Connection {
    const id: string
    var userId: string
    var joinedSessions: set<string>

    /** The socket id is non-empty, the user id is in normal form (possibly still empty) and every
        joined room id is a non-empty normal session id. */
    ghost predicate Valid()
      reads this
    {
      id != [] && IsNormalUserId(userId) && JoinedAreNormal(joinedSessions)
    }

    /** The `connection` handler: the user id comes from the handshake or is generated, and no
        room is joined yet. */
    constructor (socketId: string, handshakeUserId: Option<string>)
      requires socketId != []
      ensures Valid()
      ensures id == socketId && joinedSessions == {}
      ensures NormalizeUserId(handshakeUserId) != [] ==> userId == NormalizeUserId(handshakeUserId)
      ensures NormalizeUserId(handshakeUserId) == [] ==> IsUserIdShape(userId)
    {
      id := socketId;
      userId := [];
      joinedSessions := {};
      new;
      var resolved := ResolveUserId(handshakeUserId);
    }

    /** `resolveUserId(socket, candidate)`: a non-empty normalised candidate replaces the stored id;
        otherwise the stored id stays, or a fresh one is generated when there is none. The result
        is never empty. */
    method ResolveUserId(candidate: Option<string>) returns (r: string)
      requires Valid()
      modifies this
      ensures Valid()
      ensures joinedSessions == old(joinedSessions)
      ensures Resolves(old(userId), candidate, userId)
      ensures r == userId && r != []
    {
      r := ResolvedUserId(userId, candidate);
      userId := r;
    }

    /** The connection remembers a room it joined. */
    method Remember(sessionId: string)
      requires Valid() && sessionId != [] && IsNormalSessionId(sessionId)
      modifies this
      ensures Valid()
      ensures userId == old(userId) && joinedSessions == old(joinedSessions) + {sessionId}
    {
      joinedSessions := joinedSessions + {sessionId};
    }

    /** The connection forgets the given rooms. */
    method Forget(rooms: set<string>)
      requires Valid()
      modifies this
      ensures Valid()
      ensures userId == old(userId) && joinedSessions == old(joinedSessions) - rooms
    {
      joinedSessions := joinedSessions - rooms;
    }
  }

  // ----- joining -----

  /** The room a join payload asks for: `normalizeSessionId(payload.sessionId || "general")`. */
  function RequestedSessionId(payloadSessionId: Field): (r: string)
    ensures payloadSessionId.Falsy? || payloadSessionId == Str([]) ==> r == GeneralSessionId
    ensures payloadSessionId.NonString? ==> r == []
    ensures payloadSessionId.Str? && payloadSessionId.text != [] ==> r == NormalizeSessionId(Some(payloadSessionId.text))
    ensures IsNormalSessionId(r)
  {
    GeneralSessionIdIsNormal();
    NormalizeSessionId(FieldOr(payloadSessionId, Some(GeneralSessionId)))
  }

  /** The password a join payload carries: `sanitizeText(payload.password || "", 64)`. */
  function RequestedPassword(payloadPassword: Option<string>): (r: string)
    ensures |r| <= MaxPasswordLength
    ensures payloadPassword.None? ==> r == []
  {
    SanitizeText(Some(OrElse(payloadPassword, [])), MaxPasswordLength)
  }

  /** A refused join as reported in `join-session-error`. */
  datatype JoinError = JoinError(sessionId: string, error: AppError)

  /** A successful join as reported in `join-session-success`. */
  datatype JoinReply = JoinReply(session: ClientSession, messages: seq<Message>)

  /** `joinSessionInternal` on the rooms: the handler's own checks (an id is needed; a private
      join needs a password) come before the manager's. */
  function JoinAttempt(sessions: map<string, Session>, sessionId: string, socketId: string, userId: string,
                       password: string, requirePrivatePassword: bool): (r: Result<Session, JoinError>)
    ensures sessionId == [] ==> r == Failure(JoinError([], InvalidSession))
    ensures sessionId != [] && requirePrivatePassword && password == [] ==> r == Failure(JoinError(sessionId, WrongPassword))
    ensures r.Failure? ==> IsRaised(r.error.error)
    ensures r.Success? <==> sessionId != [] && !(requirePrivatePassword && password == [])
                            && JoinOutcome(sessions, sessionId, socketId, userId, password).Success?
    ensures sessionId != [] && !(requirePrivatePassword && password == [])
            && JoinOutcome(sessions, sessionId, socketId, userId, password).Failure?
            ==> r == Failure(JoinError(sessionId, JoinOutcome(sessions, sessionId, socketId, userId, password).error))
    ensures r.Success? ==> r.value == JoinOutcome(sessions, sessionId, socketId, userId, password).value
  {
    if sessionId == [] then Failure(JoinError([], InvalidSession))
    else if requirePrivatePassword && password == [] then Failure(JoinError(sessionId, WrongPassword))
    else
      match JoinOutcome(sessions, sessionId, socketId, userId, password)
      case Failure(e) => Failure(JoinError(sessionId, e))
      case Success(joined) => Success(joined)
  }

  /** What a join attempt leaves behind: a refusal is the reply and changes neither the rooms
      nor the connection's joined rooms; an admission stores the joined room, remembers it on the
      connection and replies with the room's client view and its messages. */
  ghost predicate JoinApplied(attempt: Result<Session, JoinError>, sessionId: string, r: Result<JoinReply, JoinError>,
                              before: map<string, Session>, after: map<string, Session>,
                              joinedBefore: set<string>, joinedAfter: set<string>, bucket: seq<Message>)
  {
    match attempt
    case Failure(e) => r == Failure(e) && after == before && joinedAfter == joinedBefore
    case Success(joined) =>
      && after == before[sessionId := joined]
      && joinedAfter == joinedBefore + {sessionId}
      && r == Success(JoinReply(ToClientSession(joined, false), bucket))
  }

  /** A join payload without a session id asks for the general room, which admits every
      connection that has a user id. */
  lemma DefaultJoinIsGeneral(sessions: map<string, Session>, socketId: string, userId: string, password: Option<string>)
    requires WellFormed(sessions)
    requires socketId != [] && userId != []
    ensures JoinAttempt(sessions, RequestedSessionId(Falsy), socketId, userId, RequestedPassword(password), false).Success?
  {
    assert GeneralSessionId in sessions && sessions[GeneralSessionId].kind == Public;
  }

  /** A session id that is a truthy non-string (a number, say) does not fall back to the
      general room: it normalises to nothing and the join is refused with INVALID_SESSION. */
  lemma NonStringSessionIdIsInvalid(sessions: map<string, Session>, socketId: string, userId: string,
                                    password: string, requirePrivatePassword: bool)
    ensures JoinAttempt(sessions, RequestedSessionId(NonString), socketId, userId, password, requirePrivatePassword)
            == Failure(JoinError([], InvalidSession))
  {
  }

  /** A new user id that is a truthy non-string hides `payload.userId` and normalises to nothing,
      so a connection that has an id keeps it. */
  lemma NonStringNewUserIdKeepsId(before: string, payloadUserId: Option<string>, after: string)
    requires before != []
    ensures Resolves(before, FieldOr(NonString, payloadUserId), after) <==> after == before
  {
  }

  /** A private join never reaches the manager without a password. */
  lemma PrivateJoinNeedsPassword(sessions: map<string, Session>, payloadSessionId: Field, socketId: string, userId: string)
    ensures var sessionId := RequestedSessionId(payloadSessionId);
            JoinAttempt(sessions, sessionId, socketId, userId, RequestedPassword(None), true).Failure?
  {
  }

  // ----- rotating identities -----

  /** The rooms named in `removed`, each once, in order of first appearance (a JavaScript `Set`). */
  function AffectedSessions(removed: seq<RemovedParticipant>): (r: seq<string>)
    ensures forall id :: id in r <==> exists i :: 0 <= i < |removed| && removed[i].sessionId == id
    ensures Distinct(r)
  {
    if removed == [] then []
    else
      var prefix := AffectedSessions(removed[..|removed| - 1]);
      var last := removed[|removed| - 1].sessionId;
      assert forall i :: 0 <= i < |removed| - 1 ==> removed[..|removed| - 1][i] == removed[i];
      if last in prefix then prefix else prefix + [last]
  }

  /** What `rotateUserIdentityInternal` returns. */
  datatype Rotation = Rotation(deletedMessages: int, affectedSessions: seq<string>)

  /** What `identity-rotation-complete` reports. */
  datatype RotationComplete = RotationComplete(oldUserId: string, newUserId: string, deletedMessages: int, affectedSessions: seq<string>)

  /** The rooms the connection leaves when `userId`'s entries are removed: those where the
      connection itself was an entry of that user. */
  ghost function LeftBy(sessions: map<string, Session>, socketId: string, userId: string): set<string>
  {
    set id | id in sessions && socketId in sessions[id].participants && sessions[id].participants[socketId] == userId
  }

  /** The creator of a private room can always join it with the room's password: the room
      exists, the password matches and a fresh room has no entries. */
  lemma CreatorCanJoin(sessions: map<string, Session>, sessionId: string, socketId: string, userId: string)
    requires WellFormed(sessions)
    requires sessionId != [] && sessionId in sessions
    requires sessions[sessionId].kind == Private && sessions[sessionId].participants == map[]
    requires socketId != [] && userId != []
    ensures var s := sessions[sessionId];
            JoinAttempt(sessions, sessionId, socketId, userId, s.password.value, true) == Success(s.(participants := map[socketId := userId]))
  {
    var s := sessions[sessionId];
    assert WellFormedRoom(sessionId, s);
    assert s.password.value != [];
  }

  /** The rooms `RemoveUserFromAllSessions` reports are exactly the rooms where the user had an
      entry, and the connection's own entries among them are those it forgets. */
  lemma RemovedEntriesSummary(before: map<string, Session>, removed: seq<RemovedParticipant>, userId: string, socketId: string)
    requires forall x :: x in removed <==>
               && x.userId == userId && x.sessionId in before
               && x.socketId in before[x.sessionId].participants
               && before[x.sessionId].participants[x.socketId] == userId
    ensures forall id :: id in AffectedSessions(removed) <==> id in before && userId in before[id].participants.Values
    ensures (set x | x in removed && x.socketId == socketId :: x.sessionId) == LeftBy(before, socketId, userId)
  {
    forall id | id in before && userId in before[id].participants.Values
      ensures id in AffectedSessions(removed)
    {
      var k :| k in before[id].participants && before[id].participants[k] == userId;
      var x := RemovedParticipant(id, k, userId);
      assert x in removed;
      var i :| 0 <= i < |removed| && removed[i] == x;
    }
    forall id | id in AffectedSessions(removed)
      ensures id in before && userId in before[id].participants.Values
    {
      var i :| 0 <= i < |removed| && removed[i].sessionId == id;
      assert removed[i] in removed;
    }
    forall id | id in LeftBy(before, socketId, userId)
      ensures id in (set x | x in removed && x.socketId == socketId :: x.sessionId)
    {
      assert RemovedParticipant(id, socketId, userId) in removed;
    }
  }

  /** Taking one room off the pending set adds it to the rooms already left. */
  lemma OneMoreDone(remembered: set<string>, pending: set<string>, sessionId: string)
    requires sessionId in pending && pending <= remembered
    ensures remembered - (pending - {sessionId}) == (remembered - pending) + {sessionId}
  {
  }

  // ----- the server -----

  /** The state `initializeSocket` builds: one session manager and one message manager. */
  class Server {
    const sessions: SessionManager
    const messages: MessageManager

    ghost predicate Valid()
      reads this, sessions, messages
    {
      sessions.Valid() && messages.Valid()
    }

    /** `initializeSocket`: the general room and no messages. */
    constructor (sessionLinkBase: string, sessionSocketUrl: string, now: int)
      ensures Valid()
      ensures fresh(sessions) && fresh(messages)
      ensures sessions.sessions == map[GeneralSessionId := GeneralSession(now, BuildSessionLink(GeneralSessionId, sessionLinkBase, sessionSocketUrl))]
      ensures messages.buckets == map[] && messages.maxMessages == MaxMessagesPerSession
    {
      sessions := new SessionManager(sessionLinkBase, sessionSocketUrl, now);
      messages := new MessageManager(MaxMessagesPerSession);
    }

    /** `joinSessionInternal`: the user id is resolved first, then the handler's and the manager's
        checks run in order; only a successful join is remembered by the connection. */
    method JoinSessionInternal(socket: Connection, payloadSessionId: Field, payloadPassword: Option<string>,
                               payloadUserId: Option<string>, requirePrivatePassword: bool)
      returns (r: Result<JoinReply, JoinError>)
      requires Valid() && socket.Valid()
      modifies sessions, socket
      ensures Valid() && socket.Valid()
      ensures sessions.expiryPending == old(sessions.expiryPending)
      ensures Resolves(old(socket.userId), payloadUserId, socket.userId) && socket.userId != []
      ensures var sessionId := RequestedSessionId(payloadSessionId);
              var attempt := JoinAttempt(old(sessions.sessions), sessionId, socket.id, socket.userId, RequestedPassword(payloadPassword), requirePrivatePassword);
              && JoinApplied(attempt, sessionId, r, old(sessions.sessions), sessions.sessions, old(socket.joinedSessions), socket.joinedSessions,
                             messages.GetMessages(sessionId))
              && (attempt.Failure? ==> unchanged(sessions))
              && (attempt.Success? ==> sessions.emptyPending == old(sessions.emptyPending) - {sessionId})
    {
      var userId := socket.ResolveUserId(payloadUserId);
      r := JoinRoom(socket, RequestedSessionId(payloadSessionId), RequestedPassword(payloadPassword), requirePrivatePassword);
    }

    /** `joinSessionInternal` once the room id, the password and the user id are settled. */
    method JoinRoom(socket: Connection, sessionId: string, password: string, requirePrivatePassword: bool)
      returns (r: Result<JoinReply, JoinError>)
      requires Valid() && socket.Valid()
      requires IsNormalSessionId(sessionId) && socket.userId != []
      modifies sessions, socket
      ensures Valid() && socket.Valid()
      ensures sessions.expiryPending == old(sessions.expiryPending)
      ensures socket.userId == old(socket.userId)
      ensures var attempt := JoinAttempt(old(sessions.sessions), sessionId, socket.id, socket.userId, password, requirePrivatePassword);
              && JoinApplied(attempt, sessionId, r, old(sessions.sessions), sessions.sessions, old(socket.joinedSessions), socket.joinedSessions,
                             messages.GetMessages(sessionId))
              && (attempt.Failure? ==> unchanged(sessions))
              && (attempt.Success? ==> sessions.emptyPending == old(sessions.emptyPending) - {sessionId})
    {
      if sessionId == [] {
        r := Failure(JoinError([], InvalidSession));
      } else if requirePrivatePassword && password == [] {
        r := Failure(JoinError(sessionId, WrongPassword));
      } else {
        r := Admit(socket, sessionId, password);
      }
    }

    /** The manager's part of a join, once the handler's own checks have passed. */
    method Admit(socket: Connection, sessionId: string, password: string) returns (r: Result<JoinReply, JoinError>)
      requires Valid() && socket.Valid()
      requires sessionId != [] && IsNormalSessionId(sessionId) && socket.userId != []
      modifies sessions, socket
      ensures Valid() && socket.Valid()
      ensures sessions.expiryPending == old(sessions.expiryPending)
      ensures socket.userId == old(socket.userId)
      ensures var attempt := JoinAttempt(old(sessions.sessions), sessionId, socket.id, socket.userId, password, false);
              && JoinApplied(attempt, sessionId, r, old(sessions.sessions), sessions.sessions, old(socket.joinedSessions), socket.joinedSessions,
                             messages.GetMessages(sessionId))
              && (attempt.Failure? ==> unchanged(sessions))
              && (attempt.Success? ==> sessions.emptyPending == old(sessions.emptyPending) - {sessionId})
    {
      var joined := sessions.JoinSession(sessionId, socket.id, socket.userId, password);
      match joined
      case Failure(e) =>
        RaisedErrorPassesThrough(e, "JOIN_FAILED");
        r := Failure(JoinError(sessionId, ToErrorPayload(Some(Raise(e)), "JOIN_FAILED")));
      case Success(view) =>
        socket.Remember(sessionId);
        var joinedSession := sessions.GetSession(sessionId, false);
        r := Success(JoinReply(joinedSession.value, messages.GetMessages(sessionId)));
    }

    /** `leaveSessionInternal`: nothing happens unless the normalised id names a room the socket is
        an entry of; then exactly that entry goes, the connection forgets the room, and the
        departed user is returned. */
    method LeaveSessionInternal(socket: Connection, payloadSessionId: Option<string>) returns (left: Option<string>)
      requires Valid() && socket.Valid()
      modifies sessions, socket
      ensures Valid() && socket.Valid()
      ensures sessions.expiryPending == old(sessions.expiryPending)
      ensures socket.userId == old(socket.userId)
      ensures var sessionId := NormalizeSessionId(payloadSessionId);
              if sessionId == [] || sessionId !in old(sessions.sessions) || socket.id !in old(sessions.sessions)[sessionId].participants then
                && left.None?
                && unchanged(sessions)
                && socket.joinedSessions == old(socket.joinedSessions)
              else
                var s := old(sessions.sessions)[sessionId];
                && left == Some(s.participants[socket.id])
                && sessions.sessions == old(sessions.sessions)[sessionId := s.(participants := s.participants - {socket.id})]
                && socket.joinedSessions == old(socket.joinedSessions) - {sessionId}
                && sessions.emptyPending == (if LastEntryOfPrivate(s, socket.id)
                                             then old(sessions.emptyPending) + {sessionId} else old(sessions.emptyPending))
    {
      var sessionId := NormalizeSessionId(payloadSessionId);
      left := LeaveRoom(socket, sessionId);
    }

    /** `leaveSessionInternal` once the room id is normalised. */
    method LeaveRoom(socket: Connection, sessionId: string) returns (left: Option<string>)
      requires Valid() && socket.Valid()
      modifies sessions, socket
      ensures Valid() && socket.Valid()
      ensures sessions.expiryPending == old(sessions.expiryPending)
      ensures socket.userId == old(socket.userId)
      ensures if sessionId == [] || sessionId !in old(sessions.sessions) || socket.id !in old(sessions.sessions)[sessionId].participants then
                && left.None?
                && unchanged(sessions)
                && socket.joinedSessions == old(socket.joinedSessions)
              else
                var s := old(sessions.sessions)[sessionId];
                && left == Some(s.participants[socket.id])
                && sessions.sessions == old(sessions.sessions)[sessionId := s.(participants := s.participants - {socket.id})]
                && socket.joinedSessions == old(socket.joinedSessions) - {sessionId}
                && sessions.emptyPending == (if LastEntryOfPrivate(s, socket.id)
                                             then old(sessions.emptyPending) + {sessionId} else old(sessions.emptyPending))
    {
      left := if sessionId == [] then None else sessions.GetParticipantUserId(sessionId, socket.id);
      if left.Some? {
        var departure := sessions.LeaveSession(sessionId, socket.id);
        socket.Forget({sessionId});
      }
    }

    /** The `disconnect` handler: the connection leaves every room it had joined. Afterwards it is
        an entry of none of them, every other entry is untouched, it still remembers only the
        rooms it was not an entry of, and every private room it was the last entry of starts its
        empty-grace timer. */
    method Disconnect(socket: Connection)
      requires Valid() && socket.Valid()
      modifies sessions, socket
      ensures Valid() && socket.Valid()
      ensures sessions.sessions == AfterLeaving(old(sessions.sessions), socket.id, old(socket.joinedSessions))
      ensures socket.joinedSessions == old(socket.joinedSessions) - JoinedEntries(old(sessions.sessions), socket.id)
      ensures socket.userId == old(socket.userId)
      ensures sessions.expiryPending == old(sessions.expiryPending)
      ensures sessions.emptyPending == old(sessions.emptyPending) + EmptiedByLeaving(old(sessions.sessions), socket.id, old(socket.joinedSessions))
    {
      ghost var before := sessions.sessions;
      ghost var remembered := socket.joinedSessions;
      ghost var timers := sessions.emptyPending;
      var pending := socket.joinedSessions;
      LeavingNothing(before, socket.id, remembered, timers);
      while pending != {}
        invariant Valid() && socket.Valid()
        invariant pending <= remembered
        invariant socket.userId == old(socket.userId)
        invariant sessions.expiryPending == old(sessions.expiryPending)
        invariant Leaving(before, socket.id, remembered, remembered - pending, timers,
                          sessions.sessions, socket.joinedSessions, sessions.emptyPending)
        decreases pending
      {
        var sessionId :| sessionId in pending;
        LeaveOneRoom(socket, sessionId, before, remembered, remembered - pending, timers);
        OneMoreDone(remembered, pending, sessionId);
        pending := pending - {sessionId};
      }
      assert remembered - pending == remembered;
    }

    /** One step of `disconnect`: `leaveSessionInternal` for a remembered room. A remembered id is
        already normal, so normalising it again gives the same id. */
    method LeaveOneRoom(socket: Connection, sessionId: string, ghost before: map<string, Session>,
                        ghost remembered: set<string>, ghost done: set<string>, ghost timers: set<string>)
      requires Valid() && socket.Valid()
      requires sessionId in remembered && sessionId !in done
      requires Leaving(before, socket.id, remembered, done, timers, sessions.sessions, socket.joinedSessions, sessions.emptyPending)
      modifies sessions, socket
      ensures Valid() && socket.Valid()
      ensures socket.userId == old(socket.userId)
      ensures sessions.expiryPending == old(sessions.expiryPending)
      ensures Leaving(before, socket.id, remembered, done + {sessionId}, timers, sessions.sessions, socket.joinedSessions, sessions.emptyPending)
    {
      ghost var rooms, joined, emptied := sessions.sessions, socket.joinedSessions, sessions.emptyPending;
      assert sessionId in joined;
      var left := LeaveRoom(socket, sessionId);
      LeavingStep(before, socket.id, remembered, done, timers, rooms, joined, emptied, sessionId,
                  sessions.sessions, socket.joinedSessions, sessions.emptyPending);
    }

    /** The `send-message` handler: the connection must have joined the room; only then is the
        user id resolved and the message added, and a manager error is reported as thrown. */
    method SendMessage(socket: Connection, payloadSessionId: Option<string>, payloadUserId: Option<string>,
                       content: Option<string>, id: string, now: int)
      returns (r: Result<Message, AppError>)
      requires Valid() && socket.Valid()
      requires id != []
      modifies messages, socket
      ensures Valid() && socket.Valid()
      ensures socket.joinedSessions == old(socket.joinedSessions)
      ensures var sessionId := NormalizeSessionId(payloadSessionId);
              if sessionId == [] || sessionId !in old(socket.joinedSessions) then
                r == Failure(NotInSession) && unchanged(messages) && unchanged(socket)
              else
                && Resolves(old(socket.userId), payloadUserId, socket.userId)
                && r == NewMessage(sessionId, socket.userId, content, id, now)
                && (r.Failure? ==> unchanged(messages))
                && (r.Success? ==> messages.buckets == old(messages.buckets)[sessionId :=
                      KeepNewest(Bucket(old(messages.buckets), sessionId) + [r.value], messages.maxMessages)])
    {
      var sessionId := NormalizeSessionId(payloadSessionId);
      r := SendToRoom(socket, sessionId, payloadUserId, content, id, now);
    }

    /** `send-message` once the room id is normalised. */
    method SendToRoom(socket: Connection, sessionId: string, payloadUserId: Option<string>,
                      content: Option<string>, id: string, now: int)
      returns (r: Result<Message, AppError>)
      requires Valid() && socket.Valid()
      requires id != []
      modifies messages, socket
      ensures Valid() && socket.Valid()
      ensures socket.joinedSessions == old(socket.joinedSessions)
      ensures if sessionId == [] || sessionId !in old(socket.joinedSessions) then
                r == Failure(NotInSession) && unchanged(messages) && unchanged(socket)
              else
                && Resolves(old(socket.userId), payloadUserId, socket.userId)
                && r == NewMessage(sessionId, socket.userId, content, id, now)
                && (r.Failure? ==> unchanged(messages))
                && (r.Success? ==> messages.buckets == old(messages.buckets)[sessionId :=
                      KeepNewest(Bucket(old(messages.buckets), sessionId) + [r.value], messages.maxMessages)])
    {
      if sessionId == [] || sessionId !in socket.joinedSessions {
        r := Report(Failure(NotInSession), "SEND_MESSAGE_FAILED");
      } else {
        var userId := socket.ResolveUserId(payloadUserId);
        var added := messages.AddMessage(sessionId, userId, content, id, now);
        r := Report(added, "SEND_MESSAGE_FAILED");
      }
    }

    /** The `edit-message` handler: both ids are needed, then membership; only then is the user id
        resolved and the edit tried. */
    method EditMessage(socket: Connection, payloadSessionId: Option<string>, payloadMessageId: Option<string>,
                       payloadUserId: Option<string>, content: Option<string>, now: int)
      returns (r: Result<Message, AppError>)
      requires Valid() && socket.Valid()
      modifies messages, socket
      ensures Valid() && socket.Valid()
      ensures socket.joinedSessions == old(socket.joinedSessions)
      ensures var sessionId := NormalizeSessionId(payloadSessionId);
              var messageId := NormalizeMessageId(payloadMessageId);
              if sessionId == [] || messageId == [] then
                r == Failure(InvalidEditPayload) && unchanged(messages) && unchanged(socket)
              else if sessionId !in old(socket.joinedSessions) then
                r == Failure(NotInSession) && unchanged(messages) && unchanged(socket)
              else
                var bucket := Bucket(old(messages.buckets), sessionId);
                && Resolves(old(socket.userId), payloadUserId, socket.userId)
                && r == EditOutcome(bucket, messageId, socket.userId, content, now)
                && messages.buckets == old(messages.buckets)[sessionId := EditedBucket(bucket, messageId, socket.userId, content, now)]
    {
      var sessionId := NormalizeSessionId(payloadSessionId);
      var messageId := NormalizeMessageId(payloadMessageId);
      r := EditInRoom(socket, sessionId, messageId, payloadUserId, content, now);
    }

    /** `edit-message` once both ids are normalised. */
    method EditInRoom(socket: Connection, sessionId: string, messageId: string,
                      payloadUserId: Option<string>, content: Option<string>, now: int)
      returns (r: Result<Message, AppError>)
      requires Valid() && socket.Valid()
      modifies messages, socket
      ensures Valid() && socket.Valid()
      ensures socket.joinedSessions == old(socket.joinedSessions)
      ensures if sessionId == [] || messageId == [] then
                r == Failure(InvalidEditPayload) && unchanged(messages) && unchanged(socket)
              else if sessionId !in old(socket.joinedSessions) then
                r == Failure(NotInSession) && unchanged(messages) && unchanged(socket)
              else
                var bucket := Bucket(old(messages.buckets), sessionId);
                && Resolves(old(socket.userId), payloadUserId, socket.userId)
                && r == EditOutcome(bucket, messageId, socket.userId, content, now)
                && messages.buckets == old(messages.buckets)[sessionId := EditedBucket(bucket, messageId, socket.userId, content, now)]
    {
      if sessionId == [] || messageId == [] {
        r := Report(Failure(InvalidEditPayload), "EDIT_MESSAGE_FAILED");
      } else if sessionId !in socket.joinedSessions {
        r := Report(Failure(NotInSession), "EDIT_MESSAGE_FAILED");
      } else {
        var userId := socket.ResolveUserId(payloadUserId);
        var edited := messages.EditMessage(sessionId, messageId, userId, content, now);
        r := Report(edited, "EDIT_MESSAGE_FAILED");
      }
    }

    /** The `delete-message` handler: both ids are needed, then membership; only then is the user
        id resolved and the deletion tried. */
    method DeleteMessage(socket: Connection, payloadSessionId: Option<string>, payloadMessageId: Option<string>,
                         payloadUserId: Option<string>)
      returns (r: Result<Message, AppError>)
      requires Valid() && socket.Valid()
      modifies messages, socket
      ensures Valid() && socket.Valid()
      ensures socket.joinedSessions == old(socket.joinedSessions)
      ensures var sessionId := NormalizeSessionId(payloadSessionId);
              var messageId := NormalizeMessageId(payloadMessageId);
              if sessionId == [] || messageId == [] then
                r == Failure(InvalidDeletePayload) && unchanged(messages) && unchanged(socket)
              else if sessionId !in old(socket.joinedSessions) then
                r == Failure(NotInSession) && unchanged(messages) && unchanged(socket)
              else
                var bucket := Bucket(old(messages.buckets), sessionId);
                && Resolves(old(socket.userId), payloadUserId, socket.userId)
                && r == DeleteOutcome(bucket, messageId, socket.userId)
                && messages.buckets == old(messages.buckets)[sessionId := DeletedBucket(bucket, messageId, socket.userId)]
    {
      var sessionId := NormalizeSessionId(payloadSessionId);
      var messageId := NormalizeMessageId(payloadMessageId);
      r := DeleteInRoom(socket, sessionId, messageId, payloadUserId);
    }

    /** `delete-message` once both ids are normalised. */
    method DeleteInRoom(socket: Connection, sessionId: string, messageId: string, payloadUserId: Option<string>)
      returns (r: Result<Message, AppError>)
      requires Valid() && socket.Valid()
      modifies messages, socket
      ensures Valid() && socket.Valid()
      ensures socket.joinedSessions == old(socket.joinedSessions)
      ensures if sessionId == [] || messageId == [] then
                r == Failure(InvalidDeletePayload) && unchanged(messages) && unchanged(socket)
              else if sessionId !in old(socket.joinedSessions) then
                r == Failure(NotInSession) && unchanged(messages) && unchanged(socket)
              else
                var bucket := Bucket(old(messages.buckets), sessionId);
                && Resolves(old(socket.userId), payloadUserId, socket.userId)
                && r == DeleteOutcome(bucket, messageId, socket.userId)
                && messages.buckets == old(messages.buckets)[sessionId := DeletedBucket(bucket, messageId, socket.userId)]
    {
      if sessionId == [] || messageId == [] {
        r := Report(Failure(InvalidDeletePayload), "DELETE_MESSAGE_FAILED");
      } else if sessionId !in socket.joinedSessions {
        r := Report(Failure(NotInSession), "DELETE_MESSAGE_FAILED");
      } else {
        var userId := socket.ResolveUserId(payloadUserId);
        var deleted := messages.DeleteMessage(sessionId, messageId, userId);
        r := Report(deleted, "DELETE_MESSAGE_FAILED");
      }
    }

    /** The `create-private-session` handler: the user id is resolved, the room created (or the
        validation error reported), and the creator joined to it with its password. */
    method CreatePrivateSession(socket: Connection, payloadUserId: Option<string>, durationMinutes: Option<int>,
                                maxParticipants: Option<int>, now: int, idDraws: seq<string>, password: string)
      returns (r: Result<Created, AppError>)
      requires Valid() && socket.Valid()
      requires forall i :: 0 <= i < |idDraws| ==> IsPrivateSessionIdShape(idDraws[i])
      requires exists i :: 0 <= i < |idDraws| && idDraws[i] !in sessions.sessions
      requires IsPasswordShape(password)
      modifies sessions, socket
      ensures Valid() && socket.Valid()
      ensures Resolves(old(socket.userId), payloadUserId, socket.userId) && socket.userId != []
      ensures r.Success? <==> ValidateDurationMinutes(durationMinutes).Success? && ValidateMaxParticipants(maxParticipants).Success?
      ensures ValidateDurationMinutes(durationMinutes).Failure? ==> r == Failure(ValidateDurationMinutes(durationMinutes).error)
      ensures ValidateDurationMinutes(durationMinutes).Success? && ValidateMaxParticipants(maxParticipants).Failure? ==>
                r == Failure(ValidateMaxParticipants(maxParticipants).error)
      ensures sessions.emptyPending == old(sessions.emptyPending)
      ensures r.Failure? ==>
                && sessions.sessions == old(sessions.sessions) && sessions.expiryPending == old(sessions.expiryPending)
                && socket.joinedSessions == old(socket.joinedSessions)
      ensures r.Success? ==>
                var id := r.value.session.id;
                var room := NewPrivateSession(id, durationMinutes.value, maxParticipants.value, password, now,
                                              BuildSessionLink(id, sessions.linkBase, sessions.socketUrl));
                && id !in old(sessions.sessions)
                && sessions.sessions == old(sessions.sessions)[id := room.(participants := map[socket.id := socket.userId])]
                && sessions.expiryPending == old(sessions.expiryPending) + {id}
                && socket.joinedSessions == old(socket.joinedSessions) + {id}
                && r.value == Created(ToClientSession(room, true), password, room.link)
    {
      var userId := socket.ResolveUserId(payloadUserId);
      r := CreateRoomFor(socket, durationMinutes, maxParticipants, now, idDraws, password);
    }

    /** The room creation of `create-private-session` once the creator's user id is known. */
    method CreateRoomFor(socket: Connection, durationMinutes: Option<int>, maxParticipants: Option<int>, now: int,
                         idDraws: seq<string>, password: string)
      returns (r: Result<Created, AppError>)
      requires Valid() && socket.Valid() && socket.userId != []
      requires forall i :: 0 <= i < |idDraws| ==> IsPrivateSessionIdShape(idDraws[i])
      requires exists i :: 0 <= i < |idDraws| && idDraws[i] !in sessions.sessions
      requires IsPasswordShape(password)
      modifies sessions, socket
      ensures Valid() && socket.Valid()
      ensures socket.userId == old(socket.userId)
      ensures r.Success? <==> ValidateDurationMinutes(durationMinutes).Success? && ValidateMaxParticipants(maxParticipants).Success?
      ensures ValidateDurationMinutes(durationMinutes).Failure? ==> r == Failure(ValidateDurationMinutes(durationMinutes).error)
      ensures ValidateDurationMinutes(durationMinutes).Success? && ValidateMaxParticipants(maxParticipants).Failure? ==>
                r == Failure(ValidateMaxParticipants(maxParticipants).error)
      ensures sessions.emptyPending == old(sessions.emptyPending)
      ensures r.Failure? ==>
                && sessions.sessions == old(sessions.sessions) && sessions.expiryPending == old(sessions.expiryPending)
                && socket.joinedSessions == old(socket.joinedSessions)
      ensures r.Success? ==>
                var id := r.value.session.id;
                var room := NewPrivateSession(id, durationMinutes.value, maxParticipants.value, password, now,
                                              BuildSessionLink(id, sessions.linkBase, sessions.socketUrl));
                && id !in old(sessions.sessions)
                && sessions.sessions == old(sessions.sessions)[id := room.(participants := map[socket.id := socket.userId])]
                && sessions.expiryPending == old(sessions.expiryPending) + {id}
                && socket.joinedSessions == old(socket.joinedSessions) + {id}
                && r.value == Created(ToClientSession(room, true), password, room.link)
    {
      var created := sessions.CreatePrivateSession(durationMinutes, maxParticipants, now, idDraws, password);
      match created
      case Failure(e) =>
        r := Report(created, "CREATE_SESSION_FAILED");
      case Success(c) =>
        ghost var id := c.session.id;
        ghost var room := sessions.sessions[id];
        RemoveAbsent(sessions.emptyPending, id);
        JoinCreator(socket, c, socket.userId);
        UpdateTwice(old(sessions.sessions), id, room, room.(participants := map[socket.id := socket.userId]));
        r := created;
    }

    /** The creator joins the room just created, through `joinSessionInternal` with the room's id,
        its password and the creator's user id. */
    method JoinCreator(socket: Connection, created: Created, userId: string)
      requires Valid() && socket.Valid()
      requires userId == socket.userId && userId != []
      requires IsPrivateSessionIdShape(created.session.id) && IsPasswordShape(created.password)
      requires created.session.id in sessions.sessions
      requires var s := sessions.sessions[created.session.id];
               s.kind == Private && s.participants == map[] && s.password == Some(created.password)
      modifies sessions, socket
      ensures Valid() && socket.Valid()
      ensures socket.userId == old(socket.userId)
      ensures var id := created.session.id;
              && sessions.sessions == old(sessions.sessions)[id := old(sessions.sessions)[id].(participants := map[socket.id := userId])]
              && socket.joinedSessions == old(socket.joinedSessions) + {id}
              && sessions.expiryPending == old(sessions.expiryPending)
              && sessions.emptyPending == old(sessions.emptyPending) - {id}
    {
      var id := created.session.id;
      PrivateSessionIdIsNormal(id);
      assert RequestedSessionId(Str(id)) == id;
      GeneratedPasswordIsKept(created.password);
      NormalUserIdFixedPoints(userId);
      CreatorCanJoin(sessions.sessions, id, socket.id, userId);
      var joined := JoinSessionInternal(socket, Str(id), Some(created.password), Some(userId), true);
    }

    /** `rotateUserIdentityInternal`: unless the ids are missing or equal, every entry of the old
        user leaves every room and every message of the old user goes; the report lists each
        affected room once and counts the deleted messages as the store answered, or as removed
        from memory when the store gave no count. */
    method RotateUserIdentityInternal(socket: Connection, oldUserId: string, newUserId: string, storeDeleted: Option<int>)
      returns (report: Rotation, ghost order: seq<string>)
      requires Valid() && socket.Valid()
      modifies sessions, messages, socket
      ensures Valid() && socket.Valid()
      ensures socket.userId == old(socket.userId)
      ensures oldUserId == [] || newUserId == [] || oldUserId == newUserId ==>
                report == Rotation(0, []) && unchanged(sessions, messages, socket)
      ensures oldUserId != [] && newUserId != [] && oldUserId != newUserId ==>
                && sessions.sessions.Keys == old(sessions.sessions).Keys
                && (forall id :: id in sessions.sessions ==>
                      sessions.sessions[id] == old(sessions.sessions)[id].(participants := WithoutUser(old(sessions.sessions)[id].participants, oldUserId)))
                && (forall id :: id in report.affectedSessions <==> id in old(sessions.sessions) && oldUserId in old(sessions.sessions)[id].participants.Values)
                && Distinct(report.affectedSessions)
                && messages.buckets.Keys == old(messages.buckets).Keys
                && (forall id :: id in messages.buckets ==> messages.buckets[id] == NotByUser(old(messages.buckets)[id], oldUserId))
                && (forall i :: 0 <= i < |order| ==> order[i] in old(messages.buckets))
                && (forall id :: id in old(messages.buckets) ==> id in order)
                && (forall i, j :: 0 <= i < j < |order| ==> order[i] != order[j])
                && report.deletedMessages == (if storeDeleted.Some? then storeDeleted.value else |RemovedInOrder(old(messages.buckets), order, oldUserId)|)
                && socket.joinedSessions == old(socket.joinedSessions) - LeftBy(old(sessions.sessions), socket.id, oldUserId)
                && sessions.expiryPending == old(sessions.expiryPending)
                && (forall id :: id in sessions.emptyPending <==>
                      id in old(sessions.emptyPending) || (id in sessions.sessions && EmptyPrivate(sessions.sessions[id])))
    {
      if oldUserId == [] || newUserId == [] || oldUserId == newUserId {
        report, order := Rotation(0, []), [];
      } else {
        var affected := RemoveEntriesOf(socket, oldUserId);
        var removedMessages;
        removedMessages, order := messages.RemoveMessagesByUser(oldUserId);
        var deleted := if storeDeleted.Some? then storeDeleted.value else |removedMessages|;
        report := Rotation(deleted, affected);
      }
    }

    /** The room half of a rotation: every entry of `userId` leaves every room, the connection
        forgets the rooms it left, and the affected rooms are listed once each. */
    method RemoveEntriesOf(socket: Connection, userId: string) returns (affected: seq<string>)
      requires Valid() && socket.Valid() && userId != []
      modifies sessions, socket
      ensures Valid() && socket.Valid()
      ensures socket.userId == old(socket.userId)
      ensures sessions.sessions.Keys == old(sessions.sessions).Keys
      ensures forall id :: id in sessions.sessions ==>
                sessions.sessions[id] == old(sessions.sessions)[id].(participants := WithoutUser(old(sessions.sessions)[id].participants, userId))
      ensures forall id :: id in affected <==> id in old(sessions.sessions) && userId in old(sessions.sessions)[id].participants.Values
      ensures Distinct(affected)
      ensures socket.joinedSessions == old(socket.joinedSessions) - LeftBy(old(sessions.sessions), socket.id, userId)
      ensures sessions.expiryPending == old(sessions.expiryPending)
      ensures forall id :: id in sessions.emptyPending <==>
                id in old(sessions.emptyPending) || (id in sessions.sessions && EmptyPrivate(sessions.sessions[id]))
    {
      ghost var before := sessions.sessions;
      var removed := sessions.RemoveUserFromAllSessions(userId);
      assert Valid();
      socket.Forget(set x | x in removed && x.socketId == socket.id :: x.sessionId);
      RemovedEntriesSummary(before, removed, userId, socket.id);
      affected := AffectedSessions(removed);
    }

    /** The `rotate-user-identity` handler: the old id is normalised, the new one resolved from
        `newUserId || userId`; unless the old id is missing or equal to the new one, the old
        user's entries and messages are all gone afterwards. */
    method RotateUserIdentity(socket: Connection, payloadOldUserId: Option<string>, payloadNewUserId: Field,
                              payloadUserId: Option<string>, storeDeleted: Option<int>)
      returns (complete: RotationComplete, ghost order: seq<string>)
      requires Valid() && socket.Valid()
      modifies sessions, messages, socket
      ensures Valid() && socket.Valid()
      ensures Resolves(old(socket.userId), FieldOr(payloadNewUserId, payloadUserId), socket.userId)
      ensures complete.oldUserId == NormalizeUserId(payloadOldUserId) && complete.newUserId == socket.userId
      ensures complete.oldUserId == [] || complete.oldUserId == complete.newUserId ==>
                && complete.deletedMessages == 0 && complete.affectedSessions == []
                && unchanged(sessions, messages) && socket.joinedSessions == old(socket.joinedSessions)
      ensures complete.oldUserId != [] && complete.oldUserId != complete.newUserId ==>
                && sessions.sessions.Keys == old(sessions.sessions).Keys
                && (forall id :: id in sessions.sessions ==>
                      sessions.sessions[id] == old(sessions.sessions)[id].(participants := WithoutUser(old(sessions.sessions)[id].participants, complete.oldUserId)))
                && messages.buckets.Keys == old(messages.buckets).Keys
                && (forall id :: id in messages.buckets ==> messages.buckets[id] == NotByUser(old(messages.buckets)[id], complete.oldUserId))
                && socket.joinedSessions == old(socket.joinedSessions) - LeftBy(old(sessions.sessions), socket.id, complete.oldUserId)
                && (forall id :: id in sessions.sessions ==> complete.oldUserId !in sessions.sessions[id].participants.Values)
                && (forall id, i :: id in messages.buckets && 0 <= i < |messages.buckets[id]| ==> messages.buckets[id][i].userId != complete.oldUserId)
                && (forall id :: id in complete.affectedSessions <==> id in old(sessions.sessions) && complete.oldUserId in old(sessions.sessions)[id].participants.Values)
                && Distinct(complete.affectedSessions)
                && (forall i :: 0 <= i < |order| ==> order[i] in old(messages.buckets))
                && (forall id :: id in old(messages.buckets) ==> id in order)
                && (forall i, j :: 0 <= i < j < |order| ==> order[i] != order[j])
                && complete.deletedMessages == (if storeDeleted.Some? then storeDeleted.value
                                                else |RemovedInOrder(old(messages.buckets), order, complete.oldUserId)|)
                && sessions.expiryPending == old(sessions.expiryPending)
                && (forall id :: id in sessions.emptyPending <==>
                      id in old(sessions.emptyPending) || (id in sessions.sessions && EmptyPrivate(sessions.sessions[id])))
    {
      var oldUserId := NormalizeUserId(payloadOldUserId);
      var newUserId := socket.ResolveUserId(FieldOr(payloadNewUserId, payloadUserId));
      if oldUserId == [] || oldUserId == newUserId {
        complete, order := RotationComplete(oldUserId, newUserId, 0, []), [];
      } else {
        var cleanup;
        cleanup, order := RotateUserIdentityInternal(socket, oldUserId, newUserId, storeDeleted);
        complete := RotationComplete(oldUserId, newUserId, cleanup.deletedMessages, cleanup.affectedSessions);
        forall id, i | id in messages.buckets && 0 <= i < |messages.buckets[id]|
          ensures messages.buckets[id][i].userId != oldUserId
        {
          assert messages.buckets[id][i] in NotByUser(old(messages.buckets)[id], oldUserId);
        }
      }
    }
  }

  /** The rooms after the connection `socketId` left each of `rooms`. */
  ghost function AfterLeaving(sessions: map<string, Session>, socketId: string, rooms: set<string>): map<string, Session>
  {
    map id | id in sessions :: if id in rooms then sessions[id].(participants := sessions[id].participants - {socketId}) else sessions[id]
  }

  /** Where `disconnect` stands once the connection `socketId` has left the rooms in `done`,
      starting from `before`, the remembered rooms and the pending grace timers `timers`. */
  ghost predicate Leaving(before: map<string, Session>, socketId: string, remembered: set<string>, done: set<string>,
                          timers: set<string>, sessions: map<string, Session>, joined: set<string>, emptyPending: set<string>)
  {
    && sessions == AfterLeaving(before, socketId, done)
    && joined == remembered - (JoinedEntries(before, socketId) * done)
    && emptyPending == timers + EmptiedByLeaving(before, socketId, done)
  }

  lemma LeavingNothing(before: map<string, Session>, socketId: string, remembered: set<string>, timers: set<string>)
    ensures Leaving(before, socketId, remembered, {}, timers, before, remembered, timers)
  {
    assert AfterLeaving(before, socketId, {}) == before;
  }

  /** Leaving one more remembered room, as `leaveSessionInternal` does it, moves `Leaving` one
      room further. */
  lemma LeavingStep(before: map<string, Session>, socketId: string, remembered: set<string>, done: set<string>,
                    timers: set<string>, sessions: map<string, Session>, joined: set<string>, emptyPending: set<string>,
                    sessionId: string, sessions': map<string, Session>, joined': set<string>, emptyPending': set<string>)
    requires Leaving(before, socketId, remembered, done, timers, sessions, joined, emptyPending)
    requires sessionId != [] && sessionId in remembered && sessionId !in done
    requires if sessionId !in sessions || socketId !in sessions[sessionId].participants then
               sessions' == sessions && joined' == joined && emptyPending' == emptyPending
             else
               var s := sessions[sessionId];
               && sessions' == sessions[sessionId := s.(participants := s.participants - {socketId})]
               && joined' == joined - {sessionId}
               && emptyPending' == (if LastEntryOfPrivate(s, socketId) then emptyPending + {sessionId} else emptyPending)
    ensures Leaving(before, socketId, remembered, done + {sessionId}, timers, sessions', joined', emptyPending')
  {
    LeaveOneMore(before, socketId, done, sessionId);
    LeaveOneMoreTimers(before, socketId, done, sessionId);
    var entries := JoinedEntries(before, socketId);
    if sessionId in entries {
      assert entries * (done + {sessionId}) == entries * done + {sessionId};
    } else {
      assert entries * (done + {sessionId}) == entries * done;
    }
  }

  /** Leaving one more room moves `AfterLeaving` one step: the room loses the entry if it has it,
      and nothing changes otherwise. */
  lemma LeaveOneMore(before: map<string, Session>, socketId: string, done: set<string>, sessionId: string)
    requires sessionId !in done
    ensures var current := AfterLeaving(before, socketId, done);
            var next := AfterLeaving(before, socketId, done + {sessionId});
            && (sessionId in current && socketId in current[sessionId].participants ==>
                  && next == current[sessionId := current[sessionId].(participants := current[sessionId].participants - {socketId})]
                  && sessionId in JoinedEntries(before, socketId))
            && (sessionId !in current || socketId !in current[sessionId].participants ==>
                  && next == current
                  && sessionId !in JoinedEntries(before, socketId))
  {
    var current := AfterLeaving(before, socketId, done);
    var next := AfterLeaving(before, socketId, done + {sessionId});
    if sessionId in current && socketId !in current[sessionId].participants {
      assert before[sessionId].participants - {socketId} == before[sessionId].participants;
      assert next[sessionId] == current[sessionId];
    }
  }

  /** `socketId` is the only entry of the private room `s`: leaving it starts the room's
      empty-grace timer. */
  predicate LastEntryOfPrivate(s: Session, socketId: string)
  {
    s.kind == Private && socketId in s.participants && s.participants - {socketId} == map[]
  }

  /** The rooms among `rooms` that the connection `socketId` empties by leaving them. */
  ghost function EmptiedByLeaving(sessions: map<string, Session>, socketId: string, rooms: set<string>): set<string>
  {
    set id | id in rooms && id in sessions && LastEntryOfPrivate(sessions[id], socketId)
  }

  /** Leaving one more room adds that room to the emptied ones exactly when the connection was
      its last entry and it is private. */
  lemma LeaveOneMoreTimers(before: map<string, Session>, socketId: string, done: set<string>, sessionId: string)
    requires sessionId !in done
    ensures var current := AfterLeaving(before, socketId, done);
            EmptiedByLeaving(before, socketId, done + {sessionId}) ==
              if sessionId in current && LastEntryOfPrivate(current[sessionId], socketId)
              then EmptiedByLeaving(before, socketId, done) + {sessionId}
              else EmptiedByLeaving(before, socketId, done)
  {
  }

  /** The rooms of `sessions` in which `socketId` is an entry. */
  ghost function JoinedEntries(sessions: map<string, Session>, socketId: string): set<string>
  {
    set id | id in sessions && socketId in sessions[id].participants
  }
}

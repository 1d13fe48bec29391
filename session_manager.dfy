/** The room registry of the server (server/sessionManager.js): one permanent public room,
    "general", and private rooms that are password-protected, capacity-limited and expire. */
module Sessions {
  import opened Wrappers
  import opened Utils

  const GeneralSessionId: string := "general"
  const EmptyGraceMs := 60 * 1000

  datatype Kind = Public | Private

  /** A room as the manager stores it; `participants` maps socket ids to user ids, so one user
      connected from several sockets has several entries. */
  datatype Session = Session(
    id: string,
    kind: Kind,
    persistent: bool,
    maxParticipants: Option<int>,
    durationMinutes: Option<int>,
    password: Option<string>,
    createdAt: int,
    expiresAt: Option<int>,
    link: string,
    participants: map<string, string>)

  /** The view of a room handed to clients (`_toClientSession`). */
  datatype ClientSession = ClientSession(
    id: string,
    kind: Kind,
    persistent: bool,
    maxParticipants: Option<int>,
    durationMinutes: Option<int>,
    createdAt: int,
    expiresAt: Option<int>,
    link: string,
    participantCount: nat,
    participants: set<string>,
    password: Option<string>)

  datatype Created = Created(session: ClientSession, password: string, link: string)
  datatype Departure = Departure(userId: string, session: ClientSession)
  datatype Snapshot = Snapshot(participantCount: nat, participants: set<string>)
  datatype Expiry = Expiry(reason: string, sessionId: string, participants: map<string, string>, session: ClientSession)
  datatype RemovedParticipant = RemovedParticipant(sessionId: string, socketId: string, userId: string)

  // ----- errors -----

  const SessionNotFound := AppError("SESSION_NOT_FOUND", "Session not found.")
  const InvalidJoinPayload := AppError("INVALID_JOIN_PAYLOAD", "Invalid join payload.")
  const WrongPassword := AppError("WRONG_PASSWORD", "Wrong password.")
  const SessionFull := AppError("SESSION_FULL", "Session is full.")

  // ----- rooms as values -----

  /** The general room as `_initGeneralSession` builds it. */
  function GeneralSession(createdAt: int, link: string): Session
  {
    Session(GeneralSessionId, Public, true, None, None, None, createdAt, None, link, map[])
  }

  /** The general room starts empty and well formed, and no clock ever makes it due. */
  lemma GeneralSessionShape(createdAt: int, link: string)
    ensures WellFormedRoom(GeneralSessionId, GeneralSession(createdAt, link))
    ensures forall now :: !Due(GeneralSession(createdAt, link), now)
    ensures GeneralSession(createdAt, link).participants == map[]
  {
  }

  /** A fresh private room as `createPrivateSession` builds it. */
  function NewPrivateSession(id: string, duration: int, limit: int, password: string, now: int, link: string): (r: Session)
    ensures forall t :: Due(r, t) <==> t >= now + duration * MinuteMs
    ensures r.participants == map[] && r.kind == Private && r.password == Some(password)
  {
    Session(id, Private, false, Some(limit), Some(duration), Some(password), now, Some(now + duration * MinuteMs), link, map[])
  }

  /** `session.maxParticipants` in a numeric comparison: null compares as 0. */
  function Limit(s: Session): int
  {
    match s.maxParticipants
    case Some(n) => n
    case None => 0
  }

  /** The shape every stored room keeps: general is public, permanent and unbounded; every other
      room is private, validated, expires `durationMinutes` after creation and holds at most
      `maxParticipants` socket entries. */
  ghost predicate WellFormedRoom(id: string, s: Session)
  {
    && s.id == id
    && (forall socket :: socket in s.participants ==> socket != "" && s.participants[socket] != "")
    && if id == GeneralSessionId then
         && s.kind == Public && s.persistent
         && s.maxParticipants.None? && s.durationMinutes.None? && s.password.None? && s.expiresAt.None?
       else
         && s.kind == Private && !s.persistent
         && s.maxParticipants.Some? && MinParticipants <= s.maxParticipants.value <= MaxParticipants
         && s.durationMinutes.Some? && MinDurationMinutes <= s.durationMinutes.value <= MaxDurationMinutes
         && s.password.Some? && IsPasswordShape(s.password.value)
         && s.expiresAt == Some(s.createdAt + s.durationMinutes.value * MinuteMs)
         && |s.participants| <= s.maxParticipants.value
  }

  ghost predicate WellFormed(sessions: map<string, Session>)
  {
    && GeneralSessionId in sessions
    && forall id :: id in sessions ==> WellFormedRoom(id, sessions[id])
  }

  /** A private room without entries: the kind of room an empty-grace timer waits on. */
  predicate EmptyPrivate(s: Session)
  {
    s.kind == Private && s.participants == map[]
  }

  /** The pending timers match the rooms: every private room has its duration timer, and an
      empty-grace timer is pending only for an existing private room that has no entries. */
  ghost predicate TimersConsistent(sessions: map<string, Session>, expiryPending: set<string>, emptyPending: set<string>)
  {
    && expiryPending == sessions.Keys - {GeneralSessionId}
    && emptyPending <= expiryPending
    && forall id :: id in emptyPending ==> sessions[id].participants == map[]
  }

  // ----- participant counting -----

  /** A map has at most as many distinct values as keys, and exactly as many when no two keys
      share a value. */
  lemma {:induction false} DistinctValuesBound<K, V>(m: map<K, V>)
    ensures |m.Values| <= |m|
    ensures |m.Values| == |m| <==> (forall a, b :: a in m && b in m && a != b ==> m[a] != m[b])
    decreases |m|
  {
    if m != map[] {
      var k :| k in m;
      var rest := m - {k};
      DistinctValuesBound(rest);
      assert |rest| == |m| - 1;
      assert m.Values == rest.Values + {m[k]} by {
        forall v | v in m.Values
          ensures v in rest.Values + {m[k]}
        {
          var a :| a in m && m[a] == v;
          if a != k {
            assert a in rest;
          }
        }
      }
      if forall a, b :: a in m && b in m && a != b ==> m[a] != m[b] {
        assert m[k] !in rest.Values;
      } else {
        var a, b :| a in m && b in m && a != b && m[a] == m[b];
        if a == k || b == k {
          var other := if a == k then b else a;
          assert other in rest && rest[other] == m[k];
          assert m[k] in rest.Values;
        } else {
          assert a in rest && b in rest && rest[a] == rest[b];
        }
      }
    }
  }

  /** `_toClientSession`: the password is included only when asked for and set; the participant
      list holds each user once, however many sockets the user joined from. */
  function ToClientSession(s: Session, includeSensitive: bool): (r: ClientSession)
    ensures r.id == s.id && r.kind == s.kind && r.expiresAt == s.expiresAt
    ensures r.persistent == s.persistent && r.maxParticipants == s.maxParticipants
    ensures r.durationMinutes == s.durationMinutes && r.createdAt == s.createdAt && r.link == s.link
    ensures r.participants == s.participants.Values
    ensures r.participantCount == |s.participants.Values| <= |s.participants|
    ensures r.password.Some? <==> includeSensitive && s.password.Some? && s.password.value != ""
  {
    DistinctValuesBound(s.participants);
    var users := s.participants.Values;
    ClientSession(s.id, s.kind, s.persistent, s.maxParticipants, s.durationMinutes, s.createdAt,
      s.expiresAt, s.link, |users|, users,
      if includeSensitive && s.password.Some? && s.password.value != "" then s.password else None)
  }

  /** A second socket of a user who is already in the room does not change the count. */
  lemma SecondDeviceNotCounted(s: Session, socketId: string, userId: string)
    requires socketId !in s.participants
    requires userId in s.participants.Values
    ensures ToClientSession(s.(participants := s.participants[socketId := userId]), false).participantCount
            == ToClientSession(s, false).participantCount
  {
    var p := s.participants;
    assert p[socketId := userId].Values == p.Values by {
      forall v | v in p[socketId := userId].Values
        ensures v in p.Values
      {
        var a :| a in p[socketId := userId] && p[socketId := userId][a] == v;
        if a != socketId {
          assert a in p && p[a] == v;
        }
      }
      forall v | v in p.Values
        ensures v in p[socketId := userId].Values
      {
        var a :| a in p && p[a] == v;
        assert a != socketId;
        assert a in p[socketId := userId] && p[socketId := userId][a] == v;
      }
    }
  }

  // ----- join -----

  /** `joinSession` on a room map: the room with the new entry, or the error raised, checked in
      the source's order. */
  function JoinOutcome(sessions: map<string, Session>, sessionId: string, socketId: string, userId: string, password: string): (r: Result<Session, AppError>)
    ensures r.Success? ==> sessionId in sessions && r.value == sessions[sessionId].(participants := sessions[sessionId].participants[socketId := userId])
    ensures r == Failure(SessionNotFound) <==> sessionId !in sessions
    ensures r == Failure(InvalidJoinPayload) <==> sessionId in sessions && (socketId == "" || userId == "")
    ensures r.Failure? ==> IsRaised(r.error)
  {
    if sessionId !in sessions then Failure(SessionNotFound)
    else if socketId == "" || userId == "" then Failure(InvalidJoinPayload)
    else
      var s := sessions[sessionId];
      if s.kind == Private && s.password != Some(password) then Failure(WrongPassword)
      else if s.kind == Private && socketId !in s.participants && |s.participants| >= Limit(s) then Failure(SessionFull)
      else Success(s.(participants := s.participants[socketId := userId]))
  }

  /** SESSION_FULL is raised exactly when the room is private, the password matched, the socket
      is not already an entry and the entries (sockets, not users) reach the limit. */
  lemma JoinFullExactly(sessions: map<string, Session>, sessionId: string, socketId: string, userId: string, password: string)
    requires WellFormed(sessions)
    ensures JoinOutcome(sessions, sessionId, socketId, userId, password) == Failure(SessionFull)
            <==> && sessionId in sessions && socketId != "" && userId != ""
                 && sessions[sessionId].kind == Private
                 && sessions[sessionId].password == Some(password)
                 && socketId !in sessions[sessionId].participants
                 && |sessions[sessionId].participants| >= sessions[sessionId].maxParticipants.value
  {
  }

  /** A private room refuses every password but its own, whatever joins happened before, since
      a join changes only the entries of the room. */
  lemma WrongPasswordAlwaysRefused(sessions: map<string, Session>, sessionId: string, socketId: string, userId: string,
                                   password: string, joins: seq<(string, string)>)
    requires sessionId in sessions && sessions[sessionId].kind == Private
    requires socketId != "" && userId != ""
    requires sessions[sessionId].password != Some(password)
    ensures JoinOutcome(ApplyJoins(sessions, sessionId, joins), sessionId, socketId, userId, password) == Failure(WrongPassword)
  {
    ApplyJoinsKeepsRoom(sessions, sessionId, joins);
  }

  /** The room map after the listed (socket, user) pairs joined `sessionId` with its password. */
  function ApplyJoins(sessions: map<string, Session>, sessionId: string, joins: seq<(string, string)>): map<string, Session>
    decreases |joins|
  {
    if joins == [] || sessionId !in sessions then sessions
    else
      var s := sessions[sessionId];
      var password := if s.password.Some? then s.password.value else "";
      var next := match JoinOutcome(sessions, sessionId, joins[0].0, joins[0].1, password)
                  case Success(joined) => sessions[sessionId := joined]
                  case Failure(_) => sessions;
      ApplyJoins(next, sessionId, joins[1..])
  }

  lemma {:induction false} ApplyJoinsKeepsRoom(sessions: map<string, Session>, sessionId: string, joins: seq<(string, string)>)
    requires sessionId in sessions
    ensures sessionId in ApplyJoins(sessions, sessionId, joins)
    ensures ApplyJoins(sessions, sessionId, joins)[sessionId].kind == sessions[sessionId].kind
    ensures ApplyJoins(sessions, sessionId, joins)[sessionId].password == sessions[sessionId].password
    decreases |joins|
  {
    if joins != [] {
      var s := sessions[sessionId];
      var password := if s.password.Some? then s.password.value else "";
      var next := match JoinOutcome(sessions, sessionId, joins[0].0, joins[0].1, password)
                  case Success(joined) => sessions[sessionId := joined]
                  case Failure(_) => sessions;
      ApplyJoinsKeepsRoom(next, sessionId, joins[1..]);
    }
  }

  /** Joining again with the same socket changes nothing. */
  lemma RejoinIsIdempotent(sessions: map<string, Session>, sessionId: string, socketId: string, userId: string, password: string)
    requires JoinOutcome(sessions, sessionId, socketId, userId, password).Success?
    ensures var joined := JoinOutcome(sessions, sessionId, socketId, userId, password).value;
            JoinOutcome(sessions[sessionId := joined], sessionId, socketId, userId, password) == Success(joined)
  {
    var joined := JoinOutcome(sessions, sessionId, socketId, userId, password).value;
    assert joined.participants[socketId := userId] == joined.participants;
  }

  /** A successful join keeps every room well formed, in particular within its capacity. */
  lemma JoinKeepsWellFormed(sessions: map<string, Session>, sessionId: string, socketId: string, userId: string, password: string)
    requires WellFormed(sessions)
    requires JoinOutcome(sessions, sessionId, socketId, userId, password).Success?
    ensures WellFormed(sessions[sessionId := JoinOutcome(sessions, sessionId, socketId, userId, password).value])
  {
    var s := sessions[sessionId];
    EntryKeepsRoomWellFormed(sessionId, s, socketId, userId);
  }

  /** A room that admits one more entry (or re-admits a socket it has) keeps its shape. */
  lemma EntryKeepsRoomWellFormed(id: string, s: Session, socketId: string, userId: string)
    requires WellFormedRoom(id, s)
    requires socketId != "" && userId != ""
    requires s.kind == Private && socketId !in s.participants ==> |s.participants| < Limit(s)
    ensures WellFormedRoom(id, s.(participants := s.participants[socketId := userId]))
  {
    var joined := s.participants[socketId := userId];
    assert forall k :: k in joined ==> k != "" && joined[k] != "";
    if id != GeneralSessionId {
      if socketId in s.participants {
        assert joined.Keys == s.participants.Keys;
      } else {
        assert joined.Keys == s.participants.Keys + {socketId};
      }
      assert |joined| <= s.maxParticipants.value;
    }
  }

  /** The capacity check counts sockets: a user joined from two sockets fills a two-place room
      whose reported participant count is one. */
  lemma CapacityCountsSockets(s: Session, user: string, first: string, second: string, third: string, other: string)
    requires WellFormedRoom(s.id, s) && s.id != GeneralSessionId
    requires s.maxParticipants == Some(2)
    requires s.participants == map[first := user, second := user]
    requires first != second && third != first && third != second && third != "" && other != ""
    ensures ToClientSession(s, false).participantCount == 1
    ensures JoinOutcome(map[s.id := s], s.id, third, other, s.password.value) == Failure(SessionFull)
  {
    assert s.participants.Values == {user};
  }

  // ----- removal of one user everywhere -----

  /** The entries of `participants` that do not belong to `userId`. */
  function WithoutUser(participants: map<string, string>, userId: string): (r: map<string, string>)
    ensures r.Keys <= participants.Keys
    ensures forall k :: k in r ==> r[k] == participants[k] && r[k] != userId
    ensures forall k :: k in participants && participants[k] != userId ==> k in r
  {
    map k | k in participants && participants[k] != userId :: participants[k]
  }

  lemma SubsetSize<T>(a: set<T>, b: set<T>)
    requires a <= b
    ensures |a| <= |b|
  {
    assert b == a + (b - a);
  }

  // ----- state transitions that keep the invariant -----

  lemma NewPrivateSessionWellFormed(id: string, duration: int, limit: int, password: string, now: int, link: string)
    requires id != GeneralSessionId
    requires MinDurationMinutes <= duration <= MaxDurationMinutes
    requires MinParticipants <= limit <= MaxParticipants
    requires IsPasswordShape(password)
    ensures WellFormedRoom(id, NewPrivateSession(id, duration, limit, password, now, link))
  {
  }

  /** The rooms the manager starts with: only the general room. */
  function InitialSessions(now: int, link: string): map<string, Session>
  {
    map[GeneralSessionId := GeneralSession(now, link)]
  }

  /** The state the manager starts in: only the general room, no timers. */
  lemma InitialStateValid(now: int, link: string)
    ensures WellFormed(InitialSessions(now, link))
    ensures TimersConsistent(InitialSessions(now, link), {}, {})
  {
  }

  /** Adding a well-formed private room, with its duration timer, keeps the invariant. */
  lemma AddRoomKeepsValid(sessions: map<string, Session>, expiryPending: set<string>, emptyPending: set<string>,
                          id: string, s: Session)
    requires WellFormed(sessions) && TimersConsistent(sessions, expiryPending, emptyPending)
    requires id !in sessions && id != GeneralSessionId && WellFormedRoom(id, s)
    ensures WellFormed(sessions[id := s])
    ensures TimersConsistent(sessions[id := s], expiryPending + {id}, emptyPending)
  {
  }

  /** Removing a private room and both its timers keeps the invariant. */
  lemma RemoveRoomKeepsValid(sessions: map<string, Session>, expiryPending: set<string>, emptyPending: set<string>, id: string)
    requires WellFormed(sessions) && TimersConsistent(sessions, expiryPending, emptyPending)
    requires id != GeneralSessionId
    ensures WellFormed(sessions - {id})
    ensures TimersConsistent(sessions - {id}, expiryPending - {id}, emptyPending - {id})
  {
  }

  /** Replacing a room's entries by some of them keeps the invariant, once an emptied private
      room starts its empty-grace timer. */
  lemma ShrinkKeepsValid(sessions: map<string, Session>, expiryPending: set<string>, emptyPending: set<string>,
                         id: string, kept: map<string, string>)
    requires WellFormed(sessions) && TimersConsistent(sessions, expiryPending, emptyPending)
    requires id in sessions
    requires kept.Keys <= sessions[id].participants.Keys
    requires forall k :: k in kept ==> kept[k] == sessions[id].participants[k]
    ensures WellFormed(sessions[id := sessions[id].(participants := kept)])
    ensures TimersConsistent(sessions[id := sessions[id].(participants := kept)], expiryPending,
              if sessions[id].kind == Private && kept == map[] then emptyPending + {id} else emptyPending)
  {
    ShrinkKeepsRoomWellFormed(id, sessions[id], kept);
  }

  /** A room keeps its shape when its entries are replaced by some of them. */
  lemma ShrinkKeepsRoomWellFormed(id: string, s: Session, kept: map<string, string>)
    requires WellFormedRoom(id, s)
    requires kept.Keys <= s.participants.Keys
    requires forall k :: k in kept ==> kept[k] == s.participants[k]
    ensures WellFormedRoom(id, s.(participants := kept))
  {
    assert forall k :: k in kept ==> k != "" && kept[k] != "";
    if id != GeneralSessionId {
      SubsetSize(kept.Keys, s.participants.Keys);
      assert |kept| <= s.maxParticipants.value;
    }
  }

  /** The entries of one room that belong to `userId` (the inner loop of
      `removeUserFromAllSessions`): what is kept and what is reported. */
  method SplitEntries(sessionId: string, participants: map<string, string>, userId: string)
    returns (kept: map<string, string>, entries: seq<RemovedParticipant>)
    ensures kept == WithoutUser(participants, userId)
    ensures forall x :: x in entries <==>
              x.sessionId == sessionId && x.userId == userId && x.socketId in participants && participants[x.socketId] == userId
    ensures Distinct(entries)
  {
    kept := participants;
    entries := [];
    var sockets := participants.Keys;
    while sockets != {}
      invariant sockets <= participants.Keys
      invariant kept.Keys <= participants.Keys
      invariant forall k :: k in kept ==> kept[k] == participants[k]
      invariant forall k :: k in participants ==> (k in kept <==> k in sockets || participants[k] != userId)
      invariant forall x :: x in entries <==>
                  && x.sessionId == sessionId && x.userId == userId
                  && x.socketId in participants && x.socketId !in sockets && participants[x.socketId] == userId
      invariant Distinct(entries)
      decreases sockets
    {
      var socketId :| socketId in sockets;
      if kept[socketId] == userId {
        var entry := RemovedParticipant(sessionId, socketId, userId);
        assert entry !in entries;
        kept := kept - {socketId};
        entries := entries + [entry];
      }
      sockets := sockets - {socketId};
    }
  }

  /** The loops of `removeUserFromAllSessions` on the room map: every entry of `userId` goes,
      and the removed entries are reported once each. */
  method ClearUser(rooms: map<string, Session>, userId: string)
    returns (cleared: map<string, Session>, removed: seq<RemovedParticipant>)
    ensures cleared.Keys == rooms.Keys
    ensures forall id :: id in cleared ==>
              cleared[id] == rooms[id].(participants := WithoutUser(rooms[id].participants, userId))
    ensures forall x :: x in removed <==>
              && x.userId == userId && x.sessionId in rooms
              && x.socketId in rooms[x.sessionId].participants
              && rooms[x.sessionId].participants[x.socketId] == userId
    ensures Distinct(removed)
  {
    cleared := rooms;
    removed := [];
    var remaining := rooms.Keys;
    while remaining != {}
      invariant remaining <= rooms.Keys && cleared.Keys == rooms.Keys
      invariant forall id :: id in remaining ==> cleared[id] == rooms[id]
      invariant forall id :: id in cleared && id !in remaining ==>
                  cleared[id] == rooms[id].(participants := WithoutUser(rooms[id].participants, userId))
      invariant forall x :: x in removed <==>
                  && x.userId == userId && x.sessionId in rooms && x.sessionId !in remaining
                  && x.socketId in rooms[x.sessionId].participants
                  && rooms[x.sessionId].participants[x.socketId] == userId
      invariant Distinct(removed)
      decreases remaining
    {
      var id :| id in remaining;
      var session := cleared[id];
      var kept, entries := SplitEntries(id, session.participants, userId);
      assert forall x :: x in removed ==> x !in entries;
      DistinctConcat(removed, entries);
      removed := removed + entries;
      cleared := cleared[id := session.(participants := kept)];
      remaining := remaining - {id};
    }
  }

  /** Clearing a user everywhere keeps every room well formed ... */
  lemma ClearUserKeepsWellFormed(rooms: map<string, Session>, cleared: map<string, Session>, userId: string)
    requires WellFormed(rooms)
    requires cleared.Keys == rooms.Keys
    requires forall id :: id in cleared ==>
               cleared[id] == rooms[id].(participants := WithoutUser(rooms[id].participants, userId))
    ensures WellFormed(cleared)
  {
    forall id | id in cleared
      ensures WellFormedRoom(id, cleared[id])
    {
      ClearRoomWellFormed(id, rooms[id], userId);
    }
  }

  lemma ClearRoomWellFormed(id: string, s: Session, userId: string)
    requires WellFormedRoom(id, s)
    ensures WellFormedRoom(id, s.(participants := WithoutUser(s.participants, userId)))
  {
    SubsetSize(WithoutUser(s.participants, userId).Keys, s.participants.Keys);
  }

  /** ... and the timers consistent, once every emptied private room starts its empty-grace
      timer. */
  lemma ClearUserKeepsTimers(rooms: map<string, Session>, cleared: map<string, Session>, userId: string,
                             expiryPending: set<string>, emptyPending: set<string>, emptied: set<string>)
    requires WellFormed(rooms) && TimersConsistent(rooms, expiryPending, emptyPending)
    requires cleared.Keys == rooms.Keys
    requires forall id :: id in cleared ==>
               cleared[id] == rooms[id].(participants := WithoutUser(rooms[id].participants, userId))
    requires emptied == set id | id in cleared && EmptyPrivate(cleared[id])
    ensures TimersConsistent(cleared, expiryPending, emptyPending + emptied)
  {
    assert forall id :: id in emptied ==> id != GeneralSessionId && id in rooms;
  }

  /** The retry loop of `createPrivateSession`: the index of the first draw not already taken. */
  method FirstUnused(draws: seq<string>, taken: set<string>) returns (i: nat)
    requires exists k :: 0 <= k < |draws| && draws[k] !in taken
    ensures i < |draws| && draws[i] !in taken
    ensures forall j :: 0 <= j < i ==> draws[j] in taken
  {
    i := 0;
    while draws[i] in taken
      invariant i < |draws|
      invariant forall j :: 0 <= j < i ==> draws[j] in taken
      invariant exists k :: i <= k < |draws| && draws[k] !in taken
      decreases |draws| - i
    {
      i := i + 1;
    }
  }

  predicate Distinct<T(==)>(s: seq<T>)
  {
    forall i, j :: 0 <= i < j < |s| ==> s[i] != s[j]
  }

  lemma DistinctConcat<T>(a: seq<T>, b: seq<T>)
    requires Distinct(a) && Distinct(b)
    requires forall x :: x in a ==> x !in b
    ensures Distinct(a + b)
  {
    forall i, j | 0 <= i < j < |a + b|
      ensures (a + b)[i] != (a + b)[j]
    {
      if j < |a| {
        assert (a + b)[i] == a[i] && (a + b)[j] == a[j];
      } else if i >= |a| {
        assert (a + b)[i] == b[i - |a|] && (a + b)[j] == b[j - |a|];
      } else {
        assert (a + b)[i] in a && (a + b)[j] in b;
      }
    }
  }

  // ----- sweeping -----

  /** A room `cleanupExpiredSessions` expires at clock `now`. */
  predicate Due(s: Session, now: int)
  {
    !s.persistent && s.expiresAt.Some? && s.expiresAt.value <= now
  }

  /** The payload `cleanupExpiredSessions` hands to the expiry callback for a due room. */
  function DueExpiry(sessions: map<string, Session>, id: string): Expiry
    requires id in sessions
  {
    Expiry("duration-reached", id, sessions[id].participants, ToClientSession(sessions[id], false))
  }

  /** The general room is never due, at any clock. */
  lemma GeneralNeverDue(sessions: map<string, Session>, now: int)
    requires WellFormed(sessions)
    ensures !Due(sessions[GeneralSessionId], now)
  {
  }

  // ----- listing -----

  /** The order of `getSessionsList`: general first, then the newest room first. */
  predicate ListedBefore(a: ClientSession, b: ClientSession)
  {
    a.id == GeneralSessionId || (b.id != GeneralSessionId && a.createdAt >= b.createdAt)
  }

  predicate SortedForListing(list: seq<ClientSession>)
  {
    forall i, j :: 0 <= i < j < |list| ==> ListedBefore(list[i], list[j])
  }

  predicate DistinctIds(list: seq<ClientSession>)
  {
    forall i, j :: 0 <= i < j < |list| ==> list[i].id != list[j].id
  }

  /** Inserts `x` into a listing-sorted sequence. */
  function InsertForListing(list: seq<ClientSession>, x: ClientSession): (r: seq<ClientSession>)
    requires SortedForListing(list) && DistinctIds(list)
    requires forall i :: 0 <= i < |list| ==> list[i].id != x.id
    ensures |r| == |list| + 1
    ensures forall y :: y in r <==> y in list || y == x
    ensures SortedForListing(r) && DistinctIds(r)
  {
    if list == [] then [x]
    else if ListedBefore(x, list[0]) then
      assert forall i :: 0 <= i < |list| ==> ListedBefore(list[0], list[i]) by {
        forall i | 0 <= i < |list| ensures ListedBefore(list[0], list[i]) {
          if i > 0 { assert ListedBefore(list[0], list[i]); }
        }
      }
      [x] + list
    else
      var rest := InsertForListing(list[1..], x);
      assert ListedBefore(list[0], x);
      assert forall y :: y in rest ==> ListedBefore(list[0], y) && y.id != list[0].id by {
        forall y | y in rest
          ensures ListedBefore(list[0], y) && y.id != list[0].id
        {
          if y != x {
            var i :| 0 <= i < |list[1..]| && list[1..][i] == y;
            assert list[i + 1] == y;
          }
        }
      }
      [list[0]] + rest
  }

  /** Where the sweep of `cleanupExpiredSessions` stands when only `remaining` is left to look
      at: the due rooms already looked at are gone, with their payloads in `expired`, and
      nothing else has changed. */
  ghost predicate Swept(before: map<string, Session>, remaining: set<string>, now: int,
                        expiryBefore: set<string>, emptyBefore: set<string>, expired: seq<Expiry>,
                        sessions: map<string, Session>, expiryPending: set<string>, emptyPending: set<string>)
  {
    && remaining <= before.Keys
    && (forall id :: id in sessions <==> id in before && (id in remaining || !Due(before[id], now)))
    && (forall id :: id in sessions ==> sessions[id] == before[id])
    && (forall id :: id in expiryPending <==> id in expiryBefore && id in sessions)
    && (forall id :: id in emptyPending <==> id in emptyBefore && id in sessions)
    && (forall e :: e in expired ==>
          e.sessionId in before && Due(before[e.sessionId], now) && e == DueExpiry(before, e.sessionId))
    && (forall id :: id in before && id !in remaining && Due(before[id], now) ==> DueExpiry(before, id) in expired)
    && (forall e :: e in expired ==> e.sessionId !in remaining)
    && (forall i, j :: 0 <= i < j < |expired| ==> expired[i].sessionId != expired[j].sessionId)
  }

  /** Looking at a room that is not due changes nothing but the rooms left to look at. */
  lemma SweepKeepStep(before: map<string, Session>, remaining: set<string>, now: int,
                      expiryBefore: set<string>, emptyBefore: set<string>, expired: seq<Expiry>,
                      sessions: map<string, Session>, expiryPending: set<string>, emptyPending: set<string>, id: string)
    requires Swept(before, remaining, now, expiryBefore, emptyBefore, expired, sessions, expiryPending, emptyPending)
    requires id in remaining && !Due(before[id], now)
    ensures Swept(before, remaining - {id}, now, expiryBefore, emptyBefore, expired, sessions, expiryPending, emptyPending)
  {
  }

  /** Looking at a due room removes it and its timers and records its payload. */
  lemma SweepDueStep(before: map<string, Session>, remaining: set<string>, now: int,
                     expiryBefore: set<string>, emptyBefore: set<string>, expired: seq<Expiry>,
                     sessions: map<string, Session>, expiryPending: set<string>, emptyPending: set<string>, id: string)
    requires Swept(before, remaining, now, expiryBefore, emptyBefore, expired, sessions, expiryPending, emptyPending)
    requires id in remaining && Due(before[id], now)
    ensures id in sessions
    ensures Swept(before, remaining - {id}, now, expiryBefore, emptyBefore,
                  expired + [Expiry("duration-reached", id, sessions[id].participants, ToClientSession(sessions[id], false))],
                  sessions - {id}, expiryPending - {id}, emptyPending - {id})
  {
    var e := Expiry("duration-reached", id, sessions[id].participants, ToClientSession(sessions[id], false));
    assert e == DueExpiry(before, id);
    var next := expired + [e];
    forall x | x in next
      ensures x.sessionId in before && Due(before[x.sessionId], now) && x == DueExpiry(before, x.sessionId)
      ensures x.sessionId !in remaining - {id}
    {
      if x != e {
        assert x in expired;
      }
    }
    forall i, j | 0 <= i < j < |next|
      ensures next[i].sessionId != next[j].sessionId
    {
      if j == |expired| {
        assert next[i] in expired;
      }
    }
  }

  // ----- the manager -----

  class SessionManager {
    var sessions: map<string, Session>
    const linkBase: string
    const socketUrl: string
    /** Rooms whose duration timer is pending (`expiryTimers`). */
    ghost var expiryPending: set<string>
    /** Rooms whose empty-room grace timer is pending (`emptyTimers`). */
    ghost var emptyPending: set<string>

    ghost predicate Valid()
      reads this
    {
      WellFormed(sessions) && TimersConsistent(sessions, expiryPending, emptyPending)
    }

    /** The constructor and `_initGeneralSession`: the general room exists from the start. */
    constructor (sessionLinkBase: string, sessionSocketUrl: string, now: int)
      ensures Valid()
      ensures linkBase == sessionLinkBase && socketUrl == sessionSocketUrl
      ensures sessions == InitialSessions(now, BuildSessionLink(GeneralSessionId, sessionLinkBase, sessionSocketUrl))
      ensures expiryPending == {} && emptyPending == {}
    {
      linkBase := sessionLinkBase;
      socketUrl := sessionSocketUrl;
      var link := BuildSessionLink(GeneralSessionId, sessionLinkBase, sessionSocketUrl);
      InitialStateValid(now, link);
      sessions := InitialSessions(now, link);
      expiryPending := {};
      emptyPending := {};
    }

    /** `createPrivateSession` at clock `now`. `idDraws` are the ids the generator yields in turn
        (the source draws until one is unused) and `password` the generated password. Validation
        comes first and a failure changes nothing; on success the first unused draw names a new
        empty room that expires `duration` minutes from now, and its duration timer is pending. */
    method CreatePrivateSession(durationMinutes: Option<int>, maxParticipants: Option<int>, now: int,
                                idDraws: seq<string>, password: string)
      returns (r: Result<Created, AppError>)
      requires Valid()
      requires forall i :: 0 <= i < |idDraws| ==> IsPrivateSessionIdShape(idDraws[i])
      requires exists i :: 0 <= i < |idDraws| && idDraws[i] !in sessions
      requires IsPasswordShape(password)
      modifies this
      ensures Valid()
      ensures ValidateDurationMinutes(durationMinutes).Failure? ==>
                r == Failure(ValidateDurationMinutes(durationMinutes).error) && unchanged(this)
      ensures ValidateDurationMinutes(durationMinutes).Success? && ValidateMaxParticipants(maxParticipants).Failure? ==>
                r == Failure(ValidateMaxParticipants(maxParticipants).error) && unchanged(this)
      ensures r.Success? <==> ValidateDurationMinutes(durationMinutes).Success? && ValidateMaxParticipants(maxParticipants).Success?
      ensures r.Success? ==>
                var id := r.value.session.id;
                var duration := ValidateDurationMinutes(durationMinutes).value;
                var limit := ValidateMaxParticipants(maxParticipants).value;
                && id !in old(sessions)
                && (exists i :: 0 <= i < |idDraws| && idDraws[i] == id && forall j :: 0 <= j < i ==> idDraws[j] in old(sessions))
                && sessions == old(sessions)[id := NewPrivateSession(id, duration, limit, password, now, BuildSessionLink(id, linkBase, socketUrl))]
                && sessions[id].participants == map[]
                && sessions[id].expiresAt == Some(now + duration * MinuteMs)
                && expiryPending == old(expiryPending) + {id}
                && emptyPending == old(emptyPending) && id !in emptyPending
                && r.value == Created(ToClientSession(sessions[id], true), password, sessions[id].link)
    {
      var duration := ValidateDurationMinutes(durationMinutes);
      if duration.Failure? {
        return Failure(duration.error);
      }
      var limit := ValidateMaxParticipants(maxParticipants);
      if limit.Failure? {
        return Failure(limit.error);
      }
      var i := FirstUnused(idDraws, sessions.Keys);
      var sessionId := idDraws[i];
      assert |sessionId| != |GeneralSessionId|;
      var link := BuildSessionLink(sessionId, linkBase, socketUrl);
      var session := NewPrivateSession(sessionId, duration.value, limit.value, password, now, link);
      NewPrivateSessionWellFormed(sessionId, duration.value, limit.value, password, now, link);
      AddRoomKeepsValid(sessions, expiryPending, emptyPending, sessionId, session);
      sessions := sessions[sessionId := session];
      expiryPending := expiryPending + {sessionId};
      r := Success(Created(ToClientSession(session, true), password, link));
      assert r.value.session.id == sessionId && idDraws[i] == sessionId;
    }

    /** `joinSession`: the outcome is `JoinOutcome`; a failure changes nothing, a success stores
        the entry socketId -> userId and cancels the room's empty-grace timer. */
    method JoinSession(sessionId: string, socketId: string, userId: string, password: string)
      returns (r: Result<ClientSession, AppError>)
      requires Valid()
      modifies this
      ensures Valid()
      ensures expiryPending == old(expiryPending)
      ensures match JoinOutcome(old(sessions), sessionId, socketId, userId, password)
              case Failure(e) => r == Failure(e) && unchanged(this)
              case Success(joined) =>
                && sessions == old(sessions)[sessionId := joined]
                && emptyPending == old(emptyPending) - {sessionId}
                && r == Success(ToClientSession(joined, false))
    {
      var outcome := JoinOutcome(sessions, sessionId, socketId, userId, password);
      match outcome
      case Failure(e) =>
        r := Failure(e);
      case Success(joined) =>
        JoinKeepsWellFormed(sessions, sessionId, socketId, userId, password);
        sessions := sessions[sessionId := joined];
        emptyPending := emptyPending - {sessionId};
        r := Success(ToClientSession(joined, false));
    }

    /** `leaveSession`: None when the room or the entry is absent; otherwise exactly that entry
        goes, its user is returned, and a private room left without entries starts its
        empty-grace timer. */
    method LeaveSession(sessionId: string, socketId: string) returns (r: Option<Departure>)
      requires Valid()
      modifies this
      ensures Valid()
      ensures expiryPending == old(expiryPending)
      ensures sessionId !in old(sessions) || socketId !in old(sessions)[sessionId].participants ==>
                r.None? && unchanged(this)
      ensures sessionId in old(sessions) && socketId in old(sessions)[sessionId].participants ==>
                var s := old(sessions)[sessionId];
                var left := s.(participants := s.participants - {socketId});
                && sessions == old(sessions)[sessionId := left]
                && r == Some(Departure(s.participants[socketId], ToClientSession(left, false)))
                && emptyPending == (if left.kind == Private && left.participants == map[]
                                    then old(emptyPending) + {sessionId} else old(emptyPending))
    {
      if sessionId !in sessions || socketId !in sessions[sessionId].participants {
        return None;
      }
      var s := sessions[sessionId];
      var existingUser := s.participants[socketId];
      var left := s.(participants := s.participants - {socketId});
      ShrinkKeepsValid(sessions, expiryPending, emptyPending, sessionId, left.participants);
      sessions := sessions[sessionId := left];
      if left.kind == Private && left.participants == map[] {
        emptyPending := emptyPending + {sessionId};
      }
      r := Some(Departure(existingUser, ToClientSession(left, false)));
    }

    /** `getParticipantSnapshot`: the distinct users of a room and their number; an unknown room
        has none. */
    function GetParticipantSnapshot(sessionId: string): (r: Snapshot)
      reads this
      ensures sessionId !in sessions ==> r == Snapshot(0, {})
      ensures sessionId in sessions ==> r.participants == sessions[sessionId].participants.Values
      ensures r.participantCount == |r.participants|
      ensures sessionId in sessions ==> r.participantCount <= |sessions[sessionId].participants|
    {
      if sessionId !in sessions then Snapshot(0, {})
      else
        var view := ToClientSession(sessions[sessionId], false);
        Snapshot(view.participantCount, view.participants)
    }

    /** `getParticipantUserId`: the user behind a socket's entry in a room, if any. */
    function GetParticipantUserId(sessionId: string, socketId: string): (r: Option<string>)
      reads this
      ensures r.Some? <==> sessionId in sessions && socketId in sessions[sessionId].participants
      ensures r.Some? ==> r.value == sessions[sessionId].participants[socketId]
    {
      if sessionId in sessions && socketId in sessions[sessionId].participants
      then Some(sessions[sessionId].participants[socketId])
      else None
    }

    /** `getSession`: the client view of a room, if it exists. */
    function GetSession(sessionId: string, includeSensitive: bool): (r: Option<ClientSession>)
      reads this
      ensures r.Some? <==> sessionId in sessions
      ensures r.Some? ==> r.value == ToClientSession(sessions[sessionId], includeSensitive)
    {
      if sessionId in sessions then Some(ToClientSession(sessions[sessionId], includeSensitive)) else None
    }

    /** `removeUserFromAllSessions`: an empty id changes nothing; otherwise every entry of the
        user goes from every room, the result lists exactly those entries once each, and every
        private room left without entries starts its empty-grace timer. */
    method RemoveUserFromAllSessions(userId: string) returns (removed: seq<RemovedParticipant>)
      requires Valid()
      modifies this
      ensures Valid()
      ensures userId == "" ==> removed == [] && unchanged(this)
      ensures sessions.Keys == old(sessions).Keys
      ensures expiryPending == old(expiryPending)
      ensures forall id :: id in sessions ==>
                sessions[id] == old(sessions)[id].(participants := WithoutUser(old(sessions)[id].participants, userId))
      ensures userId != "" ==> forall id :: id in emptyPending <==>
                id in old(emptyPending) || (id in sessions && EmptyPrivate(sessions[id]))
      ensures forall x :: x in removed <==>
                && x.userId == userId && x.sessionId in old(sessions)
                && x.socketId in old(sessions)[x.sessionId].participants
                && old(sessions)[x.sessionId].participants[x.socketId] == userId
      ensures Distinct(removed)
    {
      removed := [];
      if userId == "" {
        assert forall id :: id in sessions ==> WithoutUser(sessions[id].participants, userId) == sessions[id].participants;
        return;
      }
      var cleared;
      cleared, removed := ClearUser(sessions, userId);
      ghost var emptied := set id | id in cleared && EmptyPrivate(cleared[id]);
      ClearUserKeepsWellFormed(sessions, cleared, userId);
      ClearUserKeepsTimers(sessions, cleared, userId, expiryPending, emptyPending, emptied);
      sessions := cleared;
      emptyPending := emptyPending + emptied;
    }

    /** `getSessionsList`: every room once, as its client view, general first and then the
        newest first. */
    method GetSessionsList() returns (list: seq<ClientSession>)
      requires Valid()
      ensures |list| == |sessions|
      ensures forall v :: v in list ==> v.id in sessions && v == ToClientSession(sessions[v.id], false)
      ensures forall id :: id in sessions ==> ToClientSession(sessions[id], false) in list
      ensures DistinctIds(list)
      ensures SortedForListing(list)
      ensures list != [] && list[0].id == GeneralSessionId
    {
      list := [];
      var remaining := sessions.Keys;
      while remaining != {}
        invariant remaining <= sessions.Keys
        invariant |list| + |remaining| == |sessions|
        invariant forall v :: v in list ==>
                    v.id in sessions && v.id !in remaining && v == ToClientSession(sessions[v.id], false)
        invariant forall id :: id in sessions && id !in remaining ==> ToClientSession(sessions[id], false) in list
        invariant DistinctIds(list) && SortedForListing(list)
        decreases remaining
      {
        var id :| id in remaining;
        list := InsertForListing(list, ToClientSession(sessions[id], false));
        remaining := remaining - {id};
      }
      var general := ToClientSession(sessions[GeneralSessionId], false);
      assert general in list;
      var g :| 0 <= g < |list| && list[g] == general;
      assert g == 0 || ListedBefore(list[0], list[g]);
    }

    /** `expireSession`: None for an unknown or permanent room, with nothing changed; otherwise
        the room and both its timers go and the entries it had are returned. */
    method ExpireSession(sessionId: string, reason: string) returns (r: Option<Expiry>)
      requires Valid()
      modifies this
      ensures Valid()
      ensures sessionId !in old(sessions) || old(sessions)[sessionId].persistent ==> r.None? && unchanged(this)
      ensures sessionId in old(sessions) && !old(sessions)[sessionId].persistent ==>
                var s := old(sessions)[sessionId];
                && r == Some(Expiry(reason, sessionId, s.participants, ToClientSession(s, false)))
                && sessions == old(sessions) - {sessionId}
                && expiryPending == old(expiryPending) - {sessionId}
                && emptyPending == old(emptyPending) - {sessionId}
    {
      if sessionId !in sessions || sessions[sessionId].persistent {
        return None;
      }
      var s := sessions[sessionId];
      RemoveRoomKeepsValid(sessions, expiryPending, emptyPending, sessionId);
      expiryPending := expiryPending - {sessionId};
      emptyPending := emptyPending - {sessionId};
      sessions := sessions - {sessionId};
      r := Some(Expiry(reason, sessionId, s.participants, ToClientSession(s, false)));
    }

    /** The duration timer of a room fires: a pending timer always finds its room. */
    method FireExpiryTimer(sessionId: string) returns (r: Option<Expiry>)
      requires Valid()
      requires sessionId in expiryPending
      modifies this
      ensures Valid()
      ensures sessionId in old(sessions)
      ensures r == Some(Expiry("duration-reached", sessionId, old(sessions)[sessionId].participants,
                               ToClientSession(old(sessions)[sessionId], false)))
      ensures sessions == old(sessions) - {sessionId}
      ensures expiryPending == old(expiryPending) - {sessionId}
      ensures emptyPending == old(emptyPending) - {sessionId}
    {
      r := ExpireSession(sessionId, "duration-reached");
    }

    /** The empty-grace timer of a room fires: the room is still there, and still empty. */
    method FireEmptyTimer(sessionId: string) returns (r: Option<Expiry>)
      requires Valid()
      requires sessionId in emptyPending
      modifies this
      ensures Valid()
      ensures sessionId in old(sessions) && old(sessions)[sessionId].participants == map[]
      ensures r == Some(Expiry("empty-session", sessionId, map[], ToClientSession(old(sessions)[sessionId], false)))
      ensures sessions == old(sessions) - {sessionId}
      ensures expiryPending == old(expiryPending) - {sessionId}
      ensures emptyPending == old(emptyPending) - {sessionId}
    {
      r := ExpireSession(sessionId, "empty-session");
    }

    /** `cleanupExpiredSessions` at clock `now`: exactly the rooms that are due are expired, each
        with reason "duration-reached"; the payloads the source hands to its expiry callback are
        returned. */
    method CleanupExpiredSessions(now: int) returns (expired: seq<Expiry>)
      requires Valid()
      modifies this
      ensures Valid()
      ensures forall id :: id in sessions <==> id in old(sessions) && !Due(old(sessions)[id], now)
      ensures forall id :: id in sessions ==> sessions[id] == old(sessions)[id]
      ensures forall id :: id in expiryPending <==> id in old(expiryPending) && id in sessions
      ensures forall id :: id in emptyPending <==> id in old(emptyPending) && id in sessions
      ensures forall e :: e in expired ==>
                e.sessionId in old(sessions) && Due(old(sessions)[e.sessionId], now) && e == DueExpiry(old(sessions), e.sessionId)
      ensures forall id :: id in old(sessions) && Due(old(sessions)[id], now) ==> DueExpiry(old(sessions), id) in expired
      ensures forall i, j :: 0 <= i < j < |expired| ==> expired[i].sessionId != expired[j].sessionId
    {
      expired := [];
      ghost var before := sessions;
      var remaining := sessions.Keys;
      while remaining != {}
        invariant Valid()
        invariant SweptExcept(before, remaining, now, old(expiryPending), old(emptyPending), expired)
        decreases remaining
      {
        var id :| id in remaining;
        expired := SweepOne(id, now, before, remaining, old(expiryPending), old(emptyPending), expired);
        remaining := remaining - {id};
      }
    }

    /** Where the sweep of `cleanupExpiredSessions` stands, on this manager's state. */
    ghost predicate SweptExcept(before: map<string, Session>, remaining: set<string>, now: int,
                                expiryBefore: set<string>, emptyBefore: set<string>, expired: seq<Expiry>)
      reads this
    {
      Swept(before, remaining, now, expiryBefore, emptyBefore, expired, sessions, expiryPending, emptyPending)
    }

    /** One step of the sweep: the room `id` is expired when it is due. */
    method SweepOne(id: string, now: int, ghost before: map<string, Session>, ghost remaining: set<string>,
                    ghost expiryBefore: set<string>, ghost emptyBefore: set<string>, expired: seq<Expiry>)
      returns (next: seq<Expiry>)
      requires Valid() && id in remaining
      requires SweptExcept(before, remaining, now, expiryBefore, emptyBefore, expired)
      modifies this
      ensures Valid()
      ensures SweptExcept(before, remaining - {id}, now, expiryBefore, emptyBefore, next)
    {
      var s := sessions[id];
      if !s.persistent && s.expiresAt.Some? && s.expiresAt.value <= now {
        SweepDueStep(before, remaining, now, expiryBefore, emptyBefore, expired, sessions, expiryPending, emptyPending, id);
        var payload := ExpireSession(id, "duration-reached");
        next := expired + [payload.value];
      } else {
        SweepKeepStep(before, remaining, now, expiryBefore, emptyBefore, expired, sessions, expiryPending, emptyPending, id);
        next := expired;
      }
    }
  }
}

/** The per-socket session events: `join-session`, `leave-session` and
    `update-score`. Each handler runs to completion before the next event
    of the server is handled. Room membership, broadcasts and the flush to
    the score collection are recorded, in order, in a ghost event log; so
    are the registry updates, so that the order of updates and broadcasts
    can be stated. */
module SessionEvents {
  import opened Wrappers
  import opened JsMaps
  import opened Domain
  import opened ConnectionRegistry
  import opened UserScores

  /** The authenticated user attached to the socket. */
  datatype User = User(id: Id, firstName: string, lastName: string)

  /** The body of an `update-score` event. */
  datatype ScoreUpdate = ScoreUpdate(sessionId: Id, score: int, sectionId: Id)

  datatype Payload =
    | UserJoined(userId: Id, username: string, timestamp: string)
    | UserLeft(userId: Id)
    | ScoreUpdated(sessionId: Id, score: int, sectionId: Id, userId: Id, timestamp: string)

  datatype Event =
    | PresenceSet(sessionId: Id, userId: Id, status: bool)       // updateUserSessionStatus
    | ScoreRecorded(input: ScoreInput)                           // updateSessionScore
    | ScoresFlushed(sessionId: Id, table: ScoreTable)            // writeBulkUserScoreForSession
    | RoomJoined(room: string)                                   // socket.join
    | RoomLeft(room: string)                                     // socket.leave
    | Broadcast(room: string, sender: SocketId, name: string, payload: Payload)  // socket.to(room).emit

  /** The socket.io room of a session. */
  function Room(sessionId: Id): string {
    "session:" + sessionId
  }

  /** Different sessions have different rooms. */
  lemma RoomInjective(a: Id, b: Id)
    requires Room(a) == Room(b)
    ensures a == b
  {
    var prefix := |"session:"|;
    assert a == Room(a)[prefix..];
    assert b == Room(b)[prefix..];
  }

  function Username(user: User): string {
    user.firstName + " " + user.lastName
  }

  /** The flush condition of `update-score`: the session has a non-empty
      score table that has no entry for the section. */
  predicate FlushDue(scores: map<Id, ScoreTable>, sessionId: Id, sectionId: Id) {
    && sessionId in scores
    && scores[sessionId].entries != map[]
    && sectionId !in scores[sessionId].entries
  }

  /** The registry's score tables after one `update-score`, as written. */
  function RecordAsWritten(scores: map<Id, ScoreTable>, input: ScoreInput): map<Id, ScoreTable>
    requires forall s | s in scores :: TableValid(scores[s])
  {
    scores[input.sessionId := ScoreUpdateAsWritten(GetOrNew(scores, input.sessionId), input)]
  }

  /** The registry's score tables after one `update-score`, with the
      section and user keys the table is declared with. */
  function RecordIntended(scores: map<Id, ScoreTable>, input: ScoreInput): map<Id, ScoreTable>
    requires forall s | s in scores :: TableValid(scores[s])
  {
    scores[input.sessionId := ScoreUpdateIntended(GetOrNew(scores, input.sessionId), input)]
  }

  /** As written, once a session has recorded a score, every later
      `update-score` for a section whose id differs from the session id
      flushes the whole table again: the section is never a key. */
  lemma AsWrittenFlushesAgain(scores: map<Id, ScoreTable>, input: ScoreInput, nextSection: Id)
    requires forall s | s in scores :: TableValid(scores[s])
    requires KeyedBySession(GetOrNew(scores, input.sessionId), input.sessionId)
    requires nextSection != input.sessionId
    ensures FlushDue(RecordAsWritten(scores, input), input.sessionId, nextSection)
    ensures KeyedBySession(RecordAsWritten(scores, input)[input.sessionId], input.sessionId)
  {
    var table := GetOrNew(scores, input.sessionId);
    AsWrittenKeysStaySessionId(table, input);
    var r := ScoreUpdateAsWritten(table, input);
    if input.sectionId in table.entries {
      assert r.entries.Keys == table.entries.Keys;
    } else {
      assert input.sessionId in r.entries;
    }
  }

  /** Two scores for the same section in a fresh registry, as written:
      the second flushes the first to the score collection, although the
      section has not changed. */
  lemma AsWrittenSecondScoreFlushes(sessionId: Id, sectionId: Id, userId: Id, score: int)
    requires sectionId != sessionId
    ensures var once := RecordAsWritten(map[], ScoreInput(sessionId, sectionId, userId, score));
            FlushDue(once, sessionId, sectionId)
  {
    var input := ScoreInput(sessionId, sectionId, userId, score);
    assert GetOrNew<JsMap<Id, int>>(map[], sessionId) == Empty();
    AsWrittenFlushesAgain(map[], input, sectionId);
  }

  /** With the intended keys, a score for a section already in the table
      never flushes: only a change of section does. */
  lemma IntendedFlushesOnSectionChange(scores: map<Id, ScoreTable>, input: ScoreInput, nextSection: Id)
    requires forall s | s in scores :: TableValid(scores[s])
    ensures !FlushDue(RecordIntended(scores, input), input.sessionId, input.sectionId)
    ensures FlushDue(RecordIntended(scores, input), input.sessionId, nextSection)
            <==> nextSection !in GetOrNew(scores, input.sessionId).entries && nextSection != input.sectionId
  {
    var r := ScoreUpdateIntended(GetOrNew(scores, input.sessionId), input);
    assert input.sectionId in r.entries;
  }

  class SessionEventHandler {
    const socket: Socket
    const user: User
    const manager: ConnectionManager
    const store: UserScoreStore
    ghost var events: seq<Event>

    ghost predicate Valid()
      reads this, manager, store
    {
      manager.Valid() && store.Valid()
    }

    constructor (socket: Socket, user: User, manager: ConnectionManager, store: UserScoreStore)
      ensures this.socket == socket && this.user == user
      ensures this.manager == manager && this.store == store
      ensures events == []
    {
      this.socket := socket;
      this.user := user;
      this.manager := manager;
      this.store := store;
      events := [];
    }

    /** `join-session`: the user becomes live in the session, the socket
        joins the session's room, and the others in the room are told. */
    method OnJoinSession(sessionId: Id, timestamp: string)
      requires Valid()
      modifies this, manager
      ensures Valid()
      ensures manager.sessions == old(manager.sessions)[sessionId := GetOrNew(old(manager.sessions), sessionId).Set(user.id, true)]
      ensures manager.connections == WithActiveSession(old(manager.connections), user.id, sessionId, true)
      ensures manager.sessionScores == old(manager.sessionScores)
      ensures user.id in manager.GetActiveSessionUsers(sessionId)
      ensures events == old(events) + [
                PresenceSet(sessionId, user.id, true),
                RoomJoined(Room(sessionId)),
                Broadcast(Room(sessionId), socket.id, "user-joined", UserJoined(user.id, Username(user), timestamp))]
    {
      manager.UpdateUserSessionStatus(sessionId, user.id, true);
      events := events + [
        PresenceSet(sessionId, user.id, true),
        RoomJoined(Room(sessionId)),
        Broadcast(Room(sessionId), socket.id, "user-joined", UserJoined(user.id, Username(user), timestamp))];
    }

    /** `leave-session`: the user is no longer live in the session, the
        socket leaves the room, and the others in the room are told. */
    method OnLeaveSession(sessionId: Id)
      requires Valid()
      modifies this, manager
      ensures Valid()
      ensures manager.sessions == old(manager.sessions)[sessionId := GetOrNew(old(manager.sessions), sessionId).Set(user.id, false)]
      ensures manager.connections == WithActiveSession(old(manager.connections), user.id, sessionId, false)
      ensures manager.sessionScores == old(manager.sessionScores)
      ensures user.id !in manager.GetActiveSessionUsers(sessionId)
      ensures events == old(events) + [
                PresenceSet(sessionId, user.id, false),
                RoomLeft(Room(sessionId)),
                Broadcast(Room(sessionId), socket.id, "user-left", UserLeft(user.id))]
    {
      manager.UpdateUserSessionStatus(sessionId, user.id, false);
      events := events + [
        PresenceSet(sessionId, user.id, false),
        RoomLeft(Room(sessionId)),
        Broadcast(Room(sessionId), socket.id, "user-left", UserLeft(user.id))];
    }

    /** The first step of `update-score`: when the session's table is
        non-empty and has no entry for the section, the whole table is
        written to the score collection. `flushed` is the event logged. */
    method FlushBeforeNewSection(sessionId: Id, sectionId: Id) returns (ghost flushed: seq<Event>)
      requires Valid()
      modifies store
      ensures Valid()
      ensures FlushDue(manager.sessionScores, sessionId, sectionId) ==>
                store.records == old(store.records) + Flatten(sessionId, manager.sessionScores[sessionId], old(store.nextId))
      ensures !FlushDue(manager.sessionScores, sessionId, sectionId) ==>
                store.records == old(store.records) && store.nextId == old(store.nextId)
      ensures flushed == if FlushDue(manager.sessionScores, sessionId, sectionId)
                         then [ScoresFlushed(sessionId, manager.sessionScores[sessionId])] else []
    {
      var sessionScore := manager.GetSessionScore(sessionId);
      var sessionSectionScore := manager.GetSessionSectionScore(sessionId, sectionId);
      flushed := [];
      if sessionScore.Some? && sessionScore.value.Size() != 0 && sessionSectionScore.None? {
        store.WriteBulkUserScoreForSession(sessionId, sessionScore.value);
        flushed := [ScoresFlushed(sessionId, sessionScore.value)];
      }
    }

    /** `update-score`: when the session's table is non-empty and has no
        entry for the section, the whole table is first written to the
        score collection; then the score is recorded in the registry and
        the others in the room are told. */
    method OnUpdateScore(data: ScoreUpdate, timestamp: string)
      requires Valid()
      modifies this, manager, store
      ensures Valid()
      ensures var input := ScoreInput(data.sessionId, data.sectionId, user.id, data.score);
              manager.sessionScores == RecordAsWritten(old(manager.sessionScores), input)
      ensures manager.sessions == old(manager.sessions) && manager.connections == old(manager.connections)
      ensures FlushDue(old(manager.sessionScores), data.sessionId, data.sectionId) ==>
                store.records == old(store.records)
                                 + Flatten(data.sessionId, old(manager.sessionScores)[data.sessionId], old(store.nextId))
      ensures !FlushDue(old(manager.sessionScores), data.sessionId, data.sectionId) ==>
                store.records == old(store.records) && store.nextId == old(store.nextId)
      ensures events == old(events)
                        + (if FlushDue(old(manager.sessionScores), data.sessionId, data.sectionId)
                           then [ScoresFlushed(data.sessionId, old(manager.sessionScores)[data.sessionId])] else [])
                        + [ScoreRecorded(ScoreInput(data.sessionId, data.sectionId, user.id, data.score)),
                           Broadcast(Room(data.sessionId), socket.id, "score-updated",
                                     ScoreUpdated(data.sessionId, data.score, data.sectionId, user.id, timestamp))]
    {
      ghost var flushed := FlushBeforeNewSection(data.sessionId, data.sectionId);
      var input := ScoreInput(data.sessionId, data.sectionId, user.id, data.score);
      manager.UpdateSessionScore(input);
      events := events + flushed + [ScoreRecorded(input),
                                    Broadcast(Room(data.sessionId), socket.id, "score-updated",
                                              ScoreUpdated(data.sessionId, data.score, data.sectionId, user.id, timestamp))];
    }
  }
}

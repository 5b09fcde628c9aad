/** The process-wide registry of live connections, per-session presence
    flags and in-memory per-session score tables. The singleton is modelled
    as an explicitly constructed object; socket I/O is reduced to the socket's
    identity, and `disconnect(true)` requests are kept in a ghost log. */
module ConnectionRegistry {
  import opened Wrappers
  import opened JsMaps
  import opened Domain

  type SocketId = nat

  /** A transport handle; `userId` is `socket.data.user.id`. */
  datatype Socket = Socket(id: SocketId, userId: Id)

  datatype Connection = Connection(socket: Socket, activeSession: Option<Id>)

  datatype ConnectionStats = ConnectionStats(totalConnections: nat, activeSessions: nat, totalUsers: nat)

  /** `m.get(sessionId) || new Map()`, for the presence maps and the score
      tables alike. */
  function GetOrNew<V>(m: map<Id, JsMap<Id, V>>, sessionId: Id): (r: JsMap<Id, V>)
    ensures sessionId !in m ==> r.keys == [] && r.entries == map[]
    ensures sessionId in m ==> r == m[sessionId]
  {
    if sessionId in m then m[sessionId] else Empty()
  }

  /** The keys of `keys` whose flag is `true`, in the order of `keys`. */
  function FlaggedKeys(keys: seq<Id>, flags: map<Id, bool>): (r: seq<Id>)
    requires forall k | k in keys :: k in flags
    ensures forall u | u in r :: u in keys && flags[u]
    ensures forall u | u in keys && flags[u] :: u in r
    ensures Distinct(keys) ==> Distinct(r)
  {
    if keys == [] then []
    else
      var rest := FlaggedKeys(keys[1..], flags);
      assert Distinct(keys) ==> keys[0] !in keys[1..];
      (if flags[keys[0]] then [keys[0]] else []) + rest
  }

  /** The socket of each of `users` (in order) that still has a connection
      entry and whose transport reports it connected. */
  function DisconnectTargets(users: seq<Id>, conns: map<Id, Connection>, connected: set<SocketId>): (r: seq<Socket>)
    ensures |r| <= |users|
  {
    if users == [] then []
    else
      var last := users[|users| - 1];
      DisconnectTargets(users[..|users| - 1], conns, connected)
      + (if last in conns && conns[last].socket.id in connected then [conns[last].socket] else [])
  }

  /** Only sockets of the given users that hold a connection entry and are
      still connected are asked to disconnect, and each of those is. */
  lemma {:induction false} DisconnectTargetsExactly(users: seq<Id>, conns: map<Id, Connection>, connected: set<SocketId>)
    requires forall u | u in conns :: conns[u].socket.userId == u
    ensures forall s | s in DisconnectTargets(users, conns, connected) ::
              s.userId in users && s.userId in conns && conns[s.userId].socket == s && s.id in connected
    ensures forall u | u in users && u in conns && conns[u].socket.id in connected ::
              conns[u].socket in DisconnectTargets(users, conns, connected)
  {
    if users != [] {
      var init := users[..|users| - 1];
      DisconnectTargetsExactly(init, conns, connected);
      forall u | u in users
        ensures u in init || u == users[|users| - 1]
      {
        var k :| 0 <= k < |users| && users[k] == u;
        if k < |users| - 1 { assert init[k] == u; }
      }
    }
  }

  /** The connection entries after `updateUserSessionStatus`: the user's
      connection, if any, gets `activeSession` set or cleared. */
  function WithActiveSession(conns: map<Id, Connection>, userId: Id, sessionId: Id, status: bool): (r: map<Id, Connection>)
    ensures r.Keys == conns.Keys
    ensures forall u | u in conns && u != userId :: r[u] == conns[u]
    ensures userId in conns ==> r[userId].socket == conns[userId].socket
    ensures userId in conns ==> r[userId].activeSession == (if status then Some(sessionId) else None)
  {
    if userId in conns
    then conns[userId := conns[userId].(activeSession := if status then Some(sessionId) else None)]
    else conns
  }

  /** JavaScript truthiness of a looked-up score: `undefined` and `0` are falsy. */
  predicate Truthy(score: Option<int>) {
    score.Some? && score.value != 0
  }

  /** The score table of `data.sessionId` after `updateSessionScore`, AS
      WRITTEN: the inner maps are stored under the session id (where the
      section id and the user id were meant), and the presence check reads
      the user id key. */
  function ScoreUpdateAsWritten(table: ScoreTable, data: ScoreInput): (r: ScoreTable)
    requires TableValid(table)
    ensures TableValid(r)
    ensures r.entries.Keys == table.entries.Keys + (if data.sectionId in table.entries then {} else {data.sessionId})
    ensures forall s | s in table.entries && s != data.sessionId && s != data.sectionId :: r.entries[s] == table.entries[s]
    // an unknown section: a one-entry map `sessionId -> score` is stored under the session id
    ensures data.sectionId !in table.entries ==>
              r.entries[data.sessionId].entries == map[data.sessionId := data.score]
    // a truthy score already held under the user id: nothing changes
    ensures data.sectionId in table.entries && Truthy(table.entries[data.sectionId].Get(data.userId)) ==>
              r == table
    // otherwise the section's map gets `sessionId -> score`, in place
    ensures data.sectionId in table.entries && !Truthy(table.entries[data.sectionId].Get(data.userId)) ==>
              && r.keys == table.keys
              && r.entries[data.sectionId].entries == table.entries[data.sectionId].entries[data.sessionId := data.score]
              && r.entries[data.sectionId].keys
                 == table.entries[data.sectionId].keys
                    + (if data.sessionId in table.entries[data.sectionId].entries then [] else [data.sessionId])
  {
    if data.sectionId in table.entries then
      var section := table.entries[data.sectionId];
      if Truthy(section.Get(data.userId)) then table
      else table.Set(data.sectionId, section.Set(data.sessionId, data.score))
    else
      table.Set(data.sessionId, Empty<Id, int>().Set(data.sessionId, data.score))
  }

  /** The branch work of `updateSessionScore` on the session's table, as
      written: the lookups and `set` calls of the source, in its order. */
  method ApplyScore(table: ScoreTable, data: ScoreInput) returns (sessionScore: ScoreTable)
    requires TableValid(table)
    ensures sessionScore == ScoreUpdateAsWritten(table, data)
  {
    sessionScore := table;
    var sectionScore := sessionScore.Get(data.sectionId);
    if sectionScore.None? {
      // a fresh inner map, stored under the session id; the user lookup in it finds nothing
      var inner := Empty<Id, int>();
      sessionScore := sessionScore.Set(data.sessionId, inner.Set(data.sessionId, data.score));
    } else {
      var userScore := sectionScore.value.Get(data.userId);
      if !Truthy(userScore) {
        sessionScore := sessionScore.Set(data.sectionId, sectionScore.value.Set(data.sessionId, data.score));
      }
    }
  }

  /** Every section key and every user key in the table equals `sessionId`:
      the only shape `ScoreUpdateAsWritten` can build from an empty table. */
  ghost predicate KeyedBySession(table: ScoreTable, sessionId: Id) {
    forall s | s in table.entries :: s == sessionId && forall u | u in table.entries[s].entries :: u == sessionId
  }

  lemma {:induction false} AsWrittenKeysStaySessionId(table: ScoreTable, data: ScoreInput)
    requires TableValid(table) && KeyedBySession(table, data.sessionId)
    ensures KeyedBySession(ScoreUpdateAsWritten(table, data), data.sessionId)
  {
    var r := ScoreUpdateAsWritten(table, data);
    if data.sectionId in table.entries {
      assert data.sectionId == data.sessionId;
    }
    forall s | s in r.entries
      ensures s == data.sessionId && forall u | u in r.entries[s].entries :: u == data.sessionId
    {
      if s in table.entries && s != data.sessionId {
        assert false;
      }
    }
  }

  /** As written, a score sent for a section whose id differs from the
      session id is never retrievable by that section id, nor under the
      user's id (when that too differs from the session id). */
  lemma {:induction false} AsWrittenSectionNeverRecorded(table: ScoreTable, data: ScoreInput)
    requires TableValid(table) && KeyedBySession(table, data.sessionId)
    requires data.sectionId != data.sessionId
    ensures data.sectionId !in ScoreUpdateAsWritten(table, data).entries
    ensures forall s | s in ScoreUpdateAsWritten(table, data).entries ::
              data.userId != data.sessionId ==> data.userId !in ScoreUpdateAsWritten(table, data).entries[s].entries
  {
    AsWrittenKeysStaySessionId(table, data);
  }

  /** As written, a truthy score is not kept. The guard reads the user id
      key while the write goes to the session id key, so a second score for
      the same section and user replaces the first. */
  lemma AsWrittenOverwritesTruthy(sessionId: Id, sectionId: Id, userId: Id, first: int, second: int)
    requires sectionId != sessionId && first != 0
    ensures var once := ScoreUpdateAsWritten(Empty(), ScoreInput(sessionId, sectionId, userId, first));
            && sessionId in once.entries
            && Truthy(once.entries[sessionId].Get(sessionId))
            && var twice := ScoreUpdateAsWritten(once, ScoreInput(sessionId, sectionId, userId, second));
            && sessionId in twice.entries
            && twice.entries[sessionId].Get(sessionId) == Some(second)
  {
  }

  /** The evidently intended update: the inner maps keyed by section id and
      by user id; an existing truthy score is still not overwritten. */
  function ScoreUpdateIntended(table: ScoreTable, data: ScoreInput): (r: ScoreTable)
    requires TableValid(table)
    ensures TableValid(r)
    ensures r.entries.Keys == table.entries.Keys + {data.sectionId}
    ensures forall s | s in table.entries && s != data.sectionId :: r.entries[s] == table.entries[s]
    ensures data.userId in r.entries[data.sectionId].entries
    ensures r.entries[data.sectionId].entries[data.userId]
            == if data.sectionId in table.entries && Truthy(table.entries[data.sectionId].Get(data.userId))
               then table.entries[data.sectionId].entries[data.userId]
               else data.score
  {
    var section := if data.sectionId in table.entries then table.entries[data.sectionId] else Empty();
    if Truthy(section.Get(data.userId)) then table
    else table.Set(data.sectionId, section.Set(data.userId, data.score))
  }

  /** The loop of `clearSession`: for each user in turn, a connection entry
      is deleted, after its socket is told to disconnect when the transport
      still reports it connected. */
  method DropUsers(users: seq<Id>, conns: map<Id, Connection>, connected: set<SocketId>)
    returns (remaining: map<Id, Connection>, requested: seq<Socket>)
    requires Distinct(users)
    requires forall u | u in conns :: conns[u].socket.userId == u
    ensures remaining == conns - (set u | u in users)
    ensures requested == DisconnectTargets(users, conns, connected)
  {
    remaining, requested := conns, [];
    var i := 0;
    while i < |users|
      invariant 0 <= i <= |users|
      invariant remaining == conns - (set u | u in users[..i])
      invariant requested == DisconnectTargets(users[..i], conns, connected)
    {
      var userId := users[i];
      assert users[..i + 1][..i] == users[..i];
      assert users[..i + 1] == users[..i] + [userId];
      if userId in remaining {
        var connection := remaining[userId];
        if connection.socket.id in connected {
          requested := requested + [connection.socket];
        }
        remaining := remaining - {userId};
      }
      i := i + 1;
    }
    assert users[..i] == users;
  }

  class ConnectionManager {
    var connections: map<Id, Connection>
    var sessions: map<Id, JsMap<Id, bool>>   // session id -> user id -> live in this session
    var sessionScores: map<Id, ScoreTable>  // session id -> section id -> user id -> score
    ghost var disconnected: seq<Socket>      // `disconnect(true)` requests, in order

    /** Each connection is filed under its socket's user id; every nested
        JavaScript map is well formed. */
    ghost predicate Valid()
      reads this
    {
      && (forall u | u in connections :: connections[u].socket.userId == u)
      && (forall s | s in sessions :: sessions[s].Valid())
      && (forall s | s in sessionScores :: TableValid(sessionScores[s]))
    }

    constructor ()
      ensures Valid()
      ensures connections == map[] && sessions == map[] && sessionScores == map[]
      ensures disconnected == []
    {
      connections := map[];
      sessions := map[];
      sessionScores := map[];
      disconnected := [];
    }

    /** `addConnection`: file a fresh connection (no active session) under
        the socket's user id, replacing any earlier one. */
    method AddConnection(socket: Socket)
      requires Valid()
      modifies this
      ensures Valid()
      ensures connections == old(connections)[socket.userId := Connection(socket, None)]
      ensures sessions == old(sessions) && sessionScores == old(sessionScores)
      ensures disconnected == old(disconnected)
    {
      connections := connections[socket.userId := Connection(socket, None)];
    }

    /** `removeConnection`: drop the user's entry, if there is one. */
    method RemoveConnection(userId: Id)
      requires Valid()
      modifies this
      ensures Valid()
      ensures connections == old(connections) - {userId}
      ensures userId !in old(connections) ==> connections == old(connections)
      ensures sessions == old(sessions) && sessionScores == old(sessionScores)
      ensures disconnected == old(disconnected)
    {
      if userId in connections {
        connections := connections - {userId};
      }
    }

    /** `getActiveSessionUsers`: the users whose presence flag in the session
        is true, in presence-map order; none for an unknown session. */
    function GetActiveSessionUsers(sessionId: Id): (users: seq<Id>)
      requires Valid()
      reads this
      ensures sessionId !in sessions ==> users == []
      ensures forall u | u in users :: sessionId in sessions && sessions[sessionId].Get(u) == Some(true)
      ensures forall u | sessionId in sessions && sessions[sessionId].Get(u) == Some(true) :: u in users
      ensures Distinct(users)
    {
      if sessionId in sessions
      then FlaggedKeys(sessions[sessionId].keys, sessions[sessionId].entries)
      else []
    }

    /** `updateUserSessionStatus` */
    method UpdateUserSessionStatus(sessionId: Id, userId: Id, status: bool)
      requires Valid()
      modifies this
      ensures Valid()
      ensures sessions == old(sessions)[sessionId := GetOrNew(old(sessions), sessionId).Set(userId, status)]
      ensures sessions[sessionId].Get(userId) == Some(status)
      ensures forall u | u != userId :: sessions[sessionId].Get(u) == GetOrNew(old(sessions), sessionId).Get(u)
      ensures connections == WithActiveSession(old(connections), userId, sessionId, status)
      ensures sessionScores == old(sessionScores) && disconnected == old(disconnected)
    {
      var session := GetOrNew(sessions, sessionId);
      session := session.Set(userId, status);
      var conns := connections;
      if userId in conns {
        var connection := conns[userId];
        conns := conns[userId := connection.(activeSession := if status then Some(sessionId) else None)];
      }
      assert conns == WithActiveSession(connections, userId, sessionId, status);
      sessions, connections := sessions[sessionId := session], conns;
    }

    /** `getSessionScore`: the session's score table, if it has one. */
    function GetSessionScore(sessionId: Id): (r: Option<ScoreTable>)
      reads this
      ensures r.Some? <==> sessionId in sessionScores
      ensures r.Some? ==> r.value == sessionScores[sessionId]
    {
      if sessionId in sessionScores then Some(sessionScores[sessionId]) else None
    }

    /** `getSessionSectionScore`: undefined unless both keys are present. */
    function GetSessionSectionScore(sessionId: Id, sectionId: Id): (r: Option<JsMap<Id, int>>)
      reads this
      ensures r.Some? <==> sessionId in sessionScores && sectionId in sessionScores[sessionId].entries
      ensures r.Some? ==> r.value == sessionScores[sessionId].entries[sectionId]
    {
      match GetSessionScore(sessionId)
      case None => None
      case Some(table) => table.Get(sectionId)
    }

    /** `updateSessionScore`, as written (see `ScoreUpdateAsWritten`). */
    method UpdateSessionScore(data: ScoreInput)
      requires Valid()
      modifies this
      ensures Valid()
      ensures sessionScores == old(sessionScores)[data.sessionId := ScoreUpdateAsWritten(GetOrNew(old(sessionScores), data.sessionId), data)]
      ensures data.sessionId in sessionScores
      ensures connections == old(connections) && sessions == old(sessions)
      ensures disconnected == old(disconnected)
    {
      var sessionScore := ApplyScore(GetOrNew(sessionScores, data.sessionId), data);
      sessionScores := sessionScores[data.sessionId := sessionScore];
    }

    /** `getConnectionStats`: since every connection is filed under its own
        socket's user id, the number of distinct users equals the number of
        connections. */
    function GetConnectionStats(): (r: ConnectionStats)
      requires Valid()
      reads this
      ensures r.totalConnections == |connections|
      ensures r.activeSessions == |sessions|
      ensures r.totalUsers == r.totalConnections
    {
      var users := set u | u in connections :: connections[u].socket.userId;
      assert users == connections.Keys;
      ConnectionStats(|connections|, |sessions|, |users|)
    }

    /** `clearSession`: every user with a presence entry in the session loses
        its connection entry (its socket is told to disconnect when the
        transport still reports it connected); then the session's score table
        and presence map are deleted. `connected` is the set of sockets the
        transport reports connected. */
    method ClearSession(sessionId: Id, connected: set<SocketId>)
      requires Valid()
      modifies this
      ensures Valid()
      ensures sessions == old(sessions) - {sessionId}
      ensures sessionScores == old(sessionScores) - {sessionId}
      ensures connections == old(connections) - GetOrNew(old(sessions), sessionId).entries.Keys
      ensures disconnected == old(disconnected)
                              + DisconnectTargets(GetOrNew(old(sessions), sessionId).keys, old(connections), connected)
    {
      var presence := GetOrNew(sessions, sessionId);
      var requested;
      connections, requested := DropUsers(presence.keys, connections, connected);
      disconnected := disconnected + requested;
      assert (set u | u in presence.keys) == presence.entries.Keys;
      sessionScores := sessionScores - {sessionId};
      sessions := sessions - {sessionId};
    }
  }
}

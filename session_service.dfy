/** The "sessions" collection: creating a one-member session, listing the
    sessions of a classroom that can still take users, reading a session
    that has not ended, and adding users to a session. The collection is a
    sequence of documents in the order queries return them; each document
    is keyed by its own `id`. */
module Sessions {
  import opened Wrappers
  import opened Domain

  /** No two documents share an id. */
  ghost predicate UniqueIds(docs: seq<Session>) {
    forall i, j | 0 <= i < j < |docs| :: docs[i].id != docs[j].id
  }

  /** `sessionCollection.doc(id).get()`: the document with that id, if any. */
  function Lookup(docs: seq<Session>, id: Id): (r: Option<Session>)
    ensures r.Some? ==> r.value in docs && r.value.id == id
    ensures r.None? ==> forall s | s in docs :: s.id != id
  {
    if docs == [] then None
    else if docs[0].id == id then Some(docs[0])
    else Lookup(docs[1..], id)
  }

  /* ---------- createSession ---------- */

  /** The document `createSession` writes for a classroom and its first user. */
  function NewSession(id: Id, classroom: Classroom, userId: Id): Session {
    Session(id, Active, [Member(userId)], classroom.maxUsers, Open, classroom.id)
  }

  /* ---------- getAvailableSessions ---------- */

  /** The query's three equality filters and the capacity filter. */
  predicate IsAvailable(s: Session, classroom: Classroom) {
    && s.classroomId == classroom.id
    && s.status == Active
    && s.visibility == Open
    && |s.users| < classroom.maxUsers
  }

  /** `getAvailableSessions`: the available sessions, in query order. */
  function Available(docs: seq<Session>, classroom: Classroom): (r: seq<Session>)
    ensures |r| <= |docs|
    ensures forall s | s in r :: s in docs && IsAvailable(s, classroom)
    ensures forall s | s in docs && IsAvailable(s, classroom) :: s in r
  {
    if docs == [] then []
    else
      var last := docs[|docs| - 1];
      var init := docs[..|docs| - 1];
      assert forall s | s in docs :: s in init || s == last by {
        assert docs == init + [last];
      }
      Available(init, classroom) + (if IsAvailable(last, classroom) then [last] else [])
  }

  /** Available sessions keep their query order: a session listed before
      another in the result is listed before it in the collection. */
  lemma {:induction false} AvailableKeepsOrder(docs: seq<Session>, classroom: Classroom, i: nat, j: nat)
    requires UniqueIds(docs)
    requires i < j < |Available(docs, classroom)|
    ensures exists p, q | 0 <= p < q < |docs| :: docs[p] == Available(docs, classroom)[i] && docs[q] == Available(docs, classroom)[j]
  {
    var init := docs[..|docs| - 1];
    var last := docs[|docs| - 1];
    var a := Available(docs, classroom);
    assert UniqueIds(init);
    if j < |Available(init, classroom)| {
      AvailableKeepsOrder(init, classroom, i, j);
      var p, q :| 0 <= p < q < |init| && init[p] == a[i] && init[q] == a[j];
      assert docs[p] == a[i] && docs[q] == a[j];
    } else {
      assert a[j] == last;
      assert a[i] in Available(init, classroom);
      var p :| 0 <= p < |init| && init[p] == a[i];
      assert docs[p] == a[i] && docs[|docs| - 1] == a[j];
    }
  }

  /* ---------- getActiveSession ---------- */

  /** `getActiveSession`: the session unless it is absent or has ended. */
  function ActiveSession(docs: seq<Session>, sessionId: Id): (r: Option<Session>)
    ensures r.Some? ==> r.value in docs
    ensures r.Some? ==> r.value.id == sessionId
    ensures r.Some? ==> r.value.status == Active
    ensures r.None? <==> Lookup(docs, sessionId).None? || Lookup(docs, sessionId).value.status == Ended
  {
    var found := Lookup(docs, sessionId);
    if found.None? || found.value.status.Ended? then None else Some(found.value)
  }

  /** A fresh session created for a classroom is found again by its id, and
      it is listed as available exactly when the classroom admits more than
      one user. */
  lemma CreatedSessionFound(docs: seq<Session>, classroom: Classroom, userId: Id, newId: Id)
    requires forall s | s in docs :: s.id != newId
    ensures ActiveSession(docs + [NewSession(newId, classroom, userId)], newId) == Some(NewSession(newId, classroom, userId))
    ensures NewSession(newId, classroom, userId) in Available(docs + [NewSession(newId, classroom, userId)], classroom)
            <==> 1 < classroom.maxUsers
  {
    LookupAppendFresh(docs, NewSession(newId, classroom, userId));
  }

  lemma {:induction false} LookupAppendFresh(docs: seq<Session>, s: Session)
    requires forall d | d in docs :: d.id != s.id
    ensures Lookup(docs + [s], s.id) == Some(s)
  {
    if docs != [] {
      assert (docs + [s])[1..] == docs[1..] + [s];
      LookupAppendFresh(docs[1..], s);
    }
  }

  /* ---------- updateSessionUsers ---------- */

  datatype SessionError = SessionNotExists | SessionFull {
    /** The message of the error `updateSessionUsers` throws. */
    function Message(): string {
      match this
      case SessionNotExists => "Failed to add user, Session not exists"
      case SessionFull => "Session is full"
    }
  }

  /** `userIds.filter(...)`: the ids that are not members yet, in input
      order, repeated ids kept. */
  function Missing(users: seq<Member>, userIds: seq<Id>): (r: seq<Id>)
    ensures |r| <= |userIds|
    ensures forall u | u in r :: u in userIds && !IsMember(users, u)
    ensures forall u | u in userIds && !IsMember(users, u) :: u in r
    ensures |userIds| == 1 ==> r == if IsMember(users, userIds[0]) then [] else userIds
  {
    if userIds == [] then []
    else
      var last := userIds[|userIds| - 1];
      var init := userIds[..|userIds| - 1];
      assert forall u | u in userIds :: u in init || u == last by {
        assert userIds == init + [last];
      }
      Missing(users, init) + (if IsMember(users, last) then [] else [last])
  }

  /** The filter keeps repeats: an id that is not a member occurs in the
      result as often as it is given, a member not at all. */
  lemma {:induction false} MissingCount(users: seq<Member>, userIds: seq<Id>, u: Id)
    ensures multiset(Missing(users, userIds))[u] == if IsMember(users, u) then 0 else multiset(userIds)[u]
    decreases |userIds|
  {
    if userIds != [] {
      var init := userIds[..|userIds| - 1];
      var last := userIds[|userIds| - 1];
      assert userIds == init + [last];
      MissingCount(users, init, u);
    }
  }

  /** The filter keeps input order: filtering a concatenation filters each
      part in turn. */
  lemma {:induction false} MissingAppend(users: seq<Member>, a: seq<Id>, b: seq<Id>)
    ensures Missing(users, a + b) == Missing(users, a) + Missing(users, b)
    decreases |b|
  {
    if b == [] {
      assert a + b == a;
    } else {
      var init := b[..|b| - 1];
      var last := b[|b| - 1];
      var tail := if IsMember(users, last) then [] else [last];
      calc {
        Missing(users, a + b);
      == { assert (a + b)[..|a + b| - 1] == a + init; assert (a + b)[|a + b| - 1] == last; }
        Missing(users, a + init) + tail;
      == { MissingAppend(users, a, init); }
        Missing(users, a) + Missing(users, init) + tail;
      ==
        Missing(users, a) + (Missing(users, init) + tail);
      }
    }
  }

  /** `missingUsersIds.map((userId) => ({ id: userId }))` */
  function AsMembers(ids: seq<Id>): (r: seq<Member>)
    ensures |r| == |ids|
    ensures forall k | 0 <= k < |r| :: r[k].id == ids[k]
  {
    if ids == [] then [] else [Member(ids[0])] + AsMembers(ids[1..])
  }

  /** `sessionCollection.doc(s.id).set(s)` on a stored document: that
      document is replaced in place. */
  function Replace(docs: seq<Session>, s: Session): (r: seq<Session>)
    ensures |r| == |docs|
    ensures forall k | 0 <= k < |docs| :: r[k] == if docs[k].id == s.id then s else docs[k]
  {
    if docs == [] then []
    else [if docs[0].id == s.id then s else docs[0]] + Replace(docs[1..], s)
  }

  /** The collection after `updateSessionUsers`, or the error it throws. */
  function UsersUpdate(docs: seq<Session>, sessionId: Id, userIds: seq<Id>): Result<seq<Session>, SessionError> {
    match ActiveSession(docs, sessionId)
    case None => Err(SessionNotExists)
    case Some(s) =>
      var missing := Missing(s.users, userIds);
      if |missing| == 0 then Ok(docs)
      else if |missing| + |s.users| >= s.maxUsers then Err(SessionFull)
      else Ok(Replace(docs, s.(users := s.users + AsMembers(missing))))
  }

  lemma {:induction false} LookupReplace(docs: seq<Session>, s: Session, id: Id)
    ensures Lookup(Replace(docs, s), id)
            == if id == s.id && Lookup(docs, s.id).Some? then Some(s) else Lookup(docs, id)
  {
    if docs != [] {
      var r := Replace(docs, s);
      assert r[1..] == Replace(docs[1..], s);
      if r[0].id != id {
        LookupReplace(docs[1..], s, id);
      }
    }
  }

  /** After the users are added, the old members keep their places, each
      appended entry is a given id that was not a member, and every given id
      is a member. */
  lemma {:induction false} AppendedAreMembers(users: seq<Member>, userIds: seq<Id>)
    ensures var t := users + AsMembers(Missing(users, userIds));
            && t[..|users|] == users
            && (forall k | |users| <= k < |t| :: t[k].id in userIds && !IsMember(users, t[k].id))
            && (forall u | u in userIds :: IsMember(t, u))
  {
    var missing := Missing(users, userIds);
    var added := AsMembers(missing);
    var t := users + added;
    assert t[..|users|] == users;
    forall k | |users| <= k < |t|
      ensures t[k].id in userIds && !IsMember(users, t[k].id)
    {
      assert t[k] == added[k - |users|];
      assert missing[k - |users|] in missing;
    }
    forall u | u in userIds
      ensures IsMember(users + added, u)
    {
      if !IsMember(users, u) {
        var k :| 0 <= k < |missing| && missing[k] == u;
        assert added[k] == Member(u);
        assert (users + added)[|users| + k] == Member(u);
      }
    }
  }

  /** `updateSessionUsers` fails with "Session not exists" exactly when the
      session is absent or has ended. */
  lemma UsersUpdateNotExists(docs: seq<Session>, sessionId: Id, userIds: seq<Id>)
    ensures UsersUpdate(docs, sessionId, userIds) == Err(SessionNotExists) <==> ActiveSession(docs, sessionId).None?
  {
  }

  /** When every given user is already a member, nothing is written. */
  lemma UsersUpdateNoWrite(docs: seq<Session>, sessionId: Id, userIds: seq<Id>)
    requires ActiveSession(docs, sessionId).Some?
    requires forall u | u in userIds :: IsMember(ActiveSession(docs, sessionId).value.users, u)
    ensures UsersUpdate(docs, sessionId, userIds) == Ok(docs)
  {
    NothingMissing(ActiveSession(docs, sessionId).value.users, userIds);
  }

  lemma {:induction false} NothingMissing(users: seq<Member>, userIds: seq<Id>)
    requires forall u | u in userIds :: IsMember(users, u)
    ensures Missing(users, userIds) == []
  {
    if userIds != [] {
      var init := userIds[..|userIds| - 1];
      assert forall u | u in init :: u in userIds;
      assert userIds[|userIds| - 1] in userIds;
      NothingMissing(users, init);
    }
  }

  /** What a successful write leaves behind: the session keeps its members
      in order and gets the missing ids appended in input order, its other
      fields and the other documents are unchanged, every given id is a
      member, and the session holds fewer users than its capacity. */
  lemma {:induction false} UsersUpdateWrites(docs: seq<Session>, sessionId: Id, userIds: seq<Id>)
    requires UsersUpdate(docs, sessionId, userIds).Ok?
    ensures var d := UsersUpdate(docs, sessionId, userIds).value;
            var s := ActiveSession(docs, sessionId).value;
            && ActiveSession(d, sessionId).Some?
            && var t := ActiveSession(d, sessionId).value;
            && t == s.(users := t.users)
            && t.users == s.users + AsMembers(Missing(s.users, userIds))
            && t.users[..|s.users|] == s.users
            && (forall k | |s.users| <= k < |t.users| :: t.users[k].id in userIds && !IsMember(s.users, t.users[k].id))
            && (forall u | u in userIds :: IsMember(t.users, u))
            && (d == docs || |t.users| < t.maxUsers)
            && |d| == |docs|
            && (forall k | 0 <= k < |docs| && docs[k].id != sessionId :: d[k] == docs[k])
  {
    var s := ActiveSession(docs, sessionId).value;
    var missing := Missing(s.users, userIds);
    AppendedAreMembers(s.users, userIds);
    if |missing| != 0 {
      LookupReplace(docs, s.(users := s.users + AsMembers(missing)), sessionId);
    } else {
      assert s.users + AsMembers(missing) == s.users;
    }
  }

  /** Re-running a successful update changes nothing (a re-join is
      idempotent). */
  lemma UsersUpdateIdempotent(docs: seq<Session>, sessionId: Id, userIds: seq<Id>)
    requires UsersUpdate(docs, sessionId, userIds).Ok?
    ensures var d := UsersUpdate(docs, sessionId, userIds).value;
            UsersUpdate(d, sessionId, userIds) == Ok(d)
  {
    var d := UsersUpdate(docs, sessionId, userIds).value;
    UsersUpdateWrites(docs, sessionId, userIds);
    UsersUpdateNoWrite(d, sessionId, userIds);
  }

  /** As written, the capacity test counts reaching the capacity as full:
      a session for two that holds one user refuses a second. */
  lemma AsWrittenSessionNeverFills()
    ensures var docs := [Session("s", Active, [Member("a")], 2, Open, "c")];
            && UsersUpdate(docs, "s", ["b"]) == Err(SessionFull)
            && UsersUpdateIntended(docs, "s", ["b"])
               == Ok([Session("s", Active, [Member("a"), Member("b")], 2, Open, "c")])
  {
    var docs := [Session("s", Active, [Member("a")], 2, Open, "c")];
    assert Missing([Member("a")], ["b"]) == ["b"] by {
      assert Missing([Member("a")], []) == [];
      assert !IsMember([Member("a")], "b");
    }
    assert AsMembers(["b"]) == [Member("b")];
    var s := docs[0];
    assert ActiveSession(docs, "s") == Some(s);
    var t := s.(users := s.users + [Member("b")]);
    assert t.users == [Member("a"), Member("b")];
    assert Replace(docs, t) == [t] by {
      assert Replace(docs, t)[0] == t;
    }
  }

  /** As written, for every input: an update is refused as full exactly when
      the session exists, some given id is missing, and the additions would
      bring the session to its capacity or past it. So an addition that
      would make the session exactly full is refused. */
  lemma AsWrittenCapacity(docs: seq<Session>, sessionId: Id, userIds: seq<Id>)
    ensures UsersUpdate(docs, sessionId, userIds) == Err(SessionFull)
            <==> && ActiveSession(docs, sessionId).Some?
                 && var s := ActiveSession(docs, sessionId).value;
                 && Missing(s.users, userIds) != []
                 && |s.users| + |Missing(s.users, userIds)| >= s.maxUsers
  {
  }

  /** `updateSessionUsers` with the capacity test the session's `maxUsers`
      evidently means: a session may fill up to, not only below, it. */
  function UsersUpdateIntended(docs: seq<Session>, sessionId: Id, userIds: seq<Id>): Result<seq<Session>, SessionError> {
    match ActiveSession(docs, sessionId)
    case None => Err(SessionNotExists)
    case Some(s) =>
      var missing := Missing(s.users, userIds);
      if |missing| == 0 then Ok(docs)
      else if |missing| + |s.users| > s.maxUsers then Err(SessionFull)
      else Ok(Replace(docs, s.(users := s.users + AsMembers(missing))))
  }

  /** With the intended test, an update is refused as full exactly when the
      added users would take the session past its capacity, and a write never
      does. */
  lemma IntendedCapacity(docs: seq<Session>, sessionId: Id, userIds: seq<Id>)
    ensures UsersUpdateIntended(docs, sessionId, userIds) == Err(SessionFull)
            <==> && ActiveSession(docs, sessionId).Some?
                 && var s := ActiveSession(docs, sessionId).value;
                 && Missing(s.users, userIds) != []
                 && |s.users| + |Missing(s.users, userIds)| > s.maxUsers
    ensures UsersUpdateIntended(docs, sessionId, userIds).Ok? && UsersUpdateIntended(docs, sessionId, userIds).value != docs ==>
              var t := ActiveSession(UsersUpdateIntended(docs, sessionId, userIds).value, sessionId);
              t.Some? && |t.value.users| <= t.value.maxUsers
  {
    var r := UsersUpdateIntended(docs, sessionId, userIds);
    if r.Ok? && r.value != docs {
      var s := ActiveSession(docs, sessionId).value;
      var t := s.(users := s.users + AsMembers(Missing(s.users, userIds)));
      LookupReplace(docs, t, sessionId);
    }
  }

  /** Replacing a stored document by one with the same id keeps ids unique. */
  lemma ReplaceKeepsIds(docs: seq<Session>, s: Session)
    requires UniqueIds(docs)
    requires Lookup(docs, s.id).Some?
    ensures UniqueIds(Replace(docs, s))
  {
    var r := Replace(docs, s);
    forall i, j | 0 <= i < j < |r|
      ensures r[i].id != r[j].id
    {
      assert r[i].id == docs[i].id && r[j].id == docs[j].id;
    }
  }

  class SessionService {
    var docs: seq<Session>  // the "sessions" collection, in query order

    ghost predicate Valid()
      reads this
    {
      UniqueIds(docs)
    }

    constructor (docs: seq<Session>)
      requires UniqueIds(docs)
      ensures Valid() && this.docs == docs
    {
      this.docs := docs;
    }

    /** `createSession`: a fresh document id, an active open session whose
        only member is the user, with the classroom's capacity. */
    method CreateSession(classroom: Classroom, userId: Id, newId: Id) returns (session: Session)
      requires Valid()
      requires forall s | s in docs :: s.id != newId
      modifies this
      ensures Valid()
      ensures session.id == newId && session.status == Active && session.visibility == Open
      ensures session.users == [Member(userId)]
      ensures session.maxUsers == classroom.maxUsers && session.classroomId == classroom.id
      ensures docs == old(docs) + [session]
    {
      session := NewSession(newId, classroom, userId);
      docs := docs + [session];
    }

    /** `updateSessionUsers`: read the active session, add the missing ids,
        refuse when the session is absent, ended or would not stay below its
        capacity. */
    method UpdateSessionUsers(sessionId: Id, userIds: seq<Id>) returns (r: Result<(), SessionError>)
      requires Valid()
      modifies this
      ensures Valid()
      ensures r.Ok? ==> UsersUpdate(old(docs), sessionId, userIds) == Ok(docs)
      ensures r.Err? ==> UsersUpdate(old(docs), sessionId, userIds) == Err(r.error) && docs == old(docs)
    {
      var sessionData := ActiveSession(docs, sessionId);
      if sessionData.None? {
        return Err(SessionNotExists);
      }
      var users := sessionData.value.users;
      var missingUsersIds := Missing(users, userIds);
      if |missingUsersIds| == 0 {
        return Ok(());
      }
      if |missingUsersIds| + |users| >= sessionData.value.maxUsers {
        return Err(SessionFull);
      }
      var updated := sessionData.value.(users := users + AsMembers(missingUsersIds));
      ReplaceKeepsIds(docs, updated);
      docs := Replace(docs, updated);
      r := Ok(());
    }
  }
}

/** Joining a classroom: the classroom must exist, its join window must be
    open at the current instant and it must be open to everyone; the user
    is then placed in an available session of the classroom, preferring one
    that already lists the user, or in a new session when none is
    available. Times are integer milliseconds since the epoch. */
module Classrooms {
  import opened Wrappers
  import opened Domain
  import opened Sessions
  import opened UserScores

  datatype JoinError = NoClassroom | NotStarted | AlreadyEnded | Private {
    /** The message of the error `joinClassroom` throws. */
    function Message(): string {
      match this
      case NoClassroom => "No classroom found for this id"
      case NotStarted => "classroom has not started yet"
      case AlreadyEnded => "classroom already ended"
      case Private => "classroom is private, you cannot join!"
    }
  }

  /** The end of the join window: `duration` minutes after the start. */
  function EndTime(classroom: Classroom): int {
    classroom.startTime + classroom.duration * 60000
  }

  /** `isClassroomValid`: the checks in their order, each failure thrown as
      an error; `true` when all pass. */
  function ValidateClassroom(classroom: Classroom, now: int): (r: Result<bool, JoinError>)
    ensures r == Err(NotStarted) <==> now < classroom.startTime
    ensures r == Err(AlreadyEnded) <==> classroom.startTime <= now && now > EndTime(classroom)
    ensures r == Err(Private)
            <==> classroom.startTime <= now <= EndTime(classroom) && classroom.visibility != Open
    ensures r.Ok? <==> classroom.startTime <= now <= EndTime(classroom) && classroom.visibility == Open
    ensures r.Ok? ==> r.value
  {
    if now < classroom.startTime then Err(NotStarted)
    else if now > EndTime(classroom) then Err(AlreadyEnded)
    else if classroom.visibility != Open then Err(Private)
    else Ok(true)
  }

  /** Both ends of the join window admit an open classroom whose duration
      is not negative. */
  lemma JoinWindowInclusive(classroom: Classroom)
    requires classroom.visibility == Open && classroom.duration >= 0
    ensures ValidateClassroom(classroom, classroom.startTime) == Ok(true)
    ensures ValidateClassroom(classroom, EndTime(classroom)) == Ok(true)
    ensures ValidateClassroom(classroom, classroom.startTime - 1) == Err(NotStarted)
    ensures ValidateClassroom(classroom, EndTime(classroom) + 1) == Err(AlreadyEnded)
  {
  }

  /** `existingSessions.find(...)`: the first session listing the user. */
  function FindMember(sessions: seq<Session>, userId: Id): (r: Option<nat>)
    ensures r.Some? ==> r.value < |sessions| && IsMember(sessions[r.value].users, userId)
    ensures r.Some? ==> forall k | 0 <= k < r.value :: !IsMember(sessions[k].users, userId)
    ensures r.None? ==> forall s | s in sessions :: !IsMember(s.users, userId)
  {
    if sessions == [] then None
    else if IsMember(sessions[0].users, userId) then Some(0)
    else match FindMember(sessions[1..], userId)
      case None => None
      case Some(i) => Some(i + 1)
  }

  /** `existingUserSession || existingSessions?.[0]` */
  function SelectSession(available: seq<Session>, userId: Id): Option<Session> {
    match FindMember(available, userId)
    case Some(i) => Some(available[i])
    case None => if available == [] then None else Some(available[0])
  }

  /** The selection rule: nothing exactly when nothing is available;
      otherwise the first available session that lists the user, and the
      first available session when none does. */
  lemma SelectSessionRule(available: seq<Session>, userId: Id)
    ensures SelectSession(available, userId).None? <==> available == []
    ensures SelectSession(available, userId).Some? ==> SelectSession(available, userId).value in available
    ensures (exists s | s in available :: IsMember(s.users, userId)) ==>
              exists i | 0 <= i < |available| ::
                && SelectSession(available, userId) == Some(available[i])
                && IsMember(available[i].users, userId)
                && forall k | 0 <= k < i :: !IsMember(available[k].users, userId)
    ensures available != [] && (forall s | s in available :: !IsMember(s.users, userId)) ==>
              SelectSession(available, userId) == Some(available[0])
  {
    if (exists s | s in available :: IsMember(s.users, userId)) {
      var i := FindMember(available, userId).value;
      assert SelectSession(available, userId) == Some(available[i]);
    }
  }

  datatype JoinResult = JoinResult(session: Session, scores: SessionScores)

  /** `joinClassroom`. The classroom collection is `classrooms`; `now` is
      the current instant and `newId` the document id a created session
      would get. Selecting an existing session never changes it. */
  method JoinClassroom(
    classrooms: map<Id, Classroom>, sessions: SessionService, scores: UserScoreStore,
    classroomId: Id, userId: Id, now: int, newId: Id)
    returns (r: Result<JoinResult, JoinError>)
    requires sessions.Valid()
    requires forall s | s in sessions.docs :: s.id != newId
    modifies sessions
    ensures sessions.Valid()
    ensures classroomId !in classrooms ==> r == Err(NoClassroom)
    ensures classroomId in classrooms && ValidateClassroom(classrooms[classroomId], now).Err? ==>
              r == Err(ValidateClassroom(classrooms[classroomId], now).error)
    ensures r.Err? ==> sessions.docs == old(sessions.docs)
    ensures r.Ok? <==> classroomId in classrooms && ValidateClassroom(classrooms[classroomId], now).Ok?
    ensures r.Ok? ==>
              var classroom := classrooms[classroomId];
              match SelectSession(Available(old(sessions.docs), classroom), userId)
              case Some(s) => r.value.session == s && sessions.docs == old(sessions.docs)
              case None =>
                && r.value.session == NewSession(newId, classroom, userId)
                && sessions.docs == old(sessions.docs) + [r.value.session]
    ensures r.Ok? ==> r.value.scores == ScoresForSession(scores.records, r.value.session.id)
  {
    if classroomId !in classrooms {
      return Err(NoClassroom);
    }
    var classroom := classrooms[classroomId];
    var valid := ValidateClassroom(classroom, now);
    if valid.Err? {
      return Err(valid.error);
    }
    var existingSessions := Available(sessions.docs, classroom);
    var session := SelectSession(existingSessions, userId);
    var chosen: Session;
    if session.None? {
      chosen := sessions.CreateSession(classroom, userId, newId);
    } else {
      chosen := session.value;
    }
    var sessionScores := ScoresForSession(scores.records, chosen.id);
    r := Ok(JoinResult(chosen, sessionScores));
  }

  /* ---------- getSectionsForClassroomId ---------- */

  /** The stored sections among the ids, in id order, missing ids skipped
      and repeated ids kept: `db.getAll` on the references followed by
      `filter(snap => snap.exists)`. */
  function SectionsByIds(sections: map<Id, Section>, ids: seq<Id>): (r: seq<Section>)
    ensures |r| <= |ids|
    ensures forall x | x in r :: exists id | id in ids && id in sections :: sections[id] == x
    ensures forall id | id in ids && id in sections :: sections[id] in r
    ensures |ids| == 1 ==> r == if ids[0] in sections then [sections[ids[0]]] else []
  {
    if ids == [] then []
    else
      var init := ids[..|ids| - 1];
      var last := ids[|ids| - 1];
      assert ids == init + [last];
      assert forall id | id in ids :: id in init || id == last;
      assert forall id | id in init :: id in ids;
      var front := SectionsByIds(sections, init);
      var tail := if last in sections then [sections[last]] else [];
      assert forall x | x in tail :: last in ids && last in sections && sections[last] == x;
      assert |ids| == 1 ==> front == [];
      assert forall x | x in front + tail :: x in front || x in tail;
      assert forall x | x in front :: x in front + tail;
      assert last in sections ==> sections[last] in front + tail;
      front + tail
  }

  /** The result follows the order of the ids: reading a concatenation reads
      each part in turn. */
  lemma {:induction false} SectionsByIdsAppend(sections: map<Id, Section>, a: seq<Id>, b: seq<Id>)
    ensures SectionsByIds(sections, a + b) == SectionsByIds(sections, a) + SectionsByIds(sections, b)
    decreases |b|
  {
    if b == [] {
      assert a + b == a;
    } else {
      var init := b[..|b| - 1];
      assert (a + b)[..|a + b| - 1] == a + init;
      assert (a + b)[|a + b| - 1] == b[|b| - 1];
      SectionsByIdsAppend(sections, a, init);
    }
  }

  /** When every id is stored, the result holds one section per id, at the
      id's own position. */
  lemma {:induction false} SectionsByIdsAllStored(sections: map<Id, Section>, ids: seq<Id>)
    requires forall id | id in ids :: id in sections
    ensures |SectionsByIds(sections, ids)| == |ids|
    ensures forall k | 0 <= k < |ids| :: SectionsByIds(sections, ids)[k] == sections[ids[k]]
    decreases |ids|
  {
    if ids != [] {
      var init := ids[..|ids| - 1];
      var last := ids[|ids| - 1];
      assert forall id | id in init :: id in ids;
      SectionsByIdsAllStored(sections, init);
      assert last in ids;
      var front := SectionsByIds(sections, init);
      assert SectionsByIds(sections, ids) == front + [sections[last]];
      forall k | 0 <= k < |ids|
        ensures SectionsByIds(sections, ids)[k] == sections[ids[k]]
      {
        if k < |init| {
          assert ids[k] == init[k];
        }
      }
    }
  }

  /** A failed read. `db.getAll` rejects a call without document references. */
  datatype ReadError = NoDocumentReferences

  /** `getSectionsByIds`: the read fails for an empty id list, since
      `db.getAll(...[])` rejects; otherwise the stored sections among the
      ids. */
  function GetSectionsByIds(sections: map<Id, Section>, ids: seq<Id>): (r: Result<seq<Section>, ReadError>)
    ensures r.Err? <==> ids == []
    ensures r.Ok? ==> r.value == SectionsByIds(sections, ids)
  {
    if ids == [] then Err(NoDocumentReferences) else Ok(SectionsByIds(sections, ids))
  }

  /** `getSectionsForClassroomId`: null for an unknown classroom, the
      rejected read for a classroom without sections, otherwise the
      classroom's stored sections. */
  function SectionsForClassroomId(classrooms: map<Id, Classroom>, sections: map<Id, Section>, classroomId: Id)
    : (r: Result<Option<seq<Section>>, ReadError>)
    ensures r == Ok(None) <==> classroomId !in classrooms
    ensures r.Err? <==> classroomId in classrooms && classrooms[classroomId].sections == []
    ensures r.Ok? && r.value.Some? ==> forall id | id in classrooms[classroomId].sections && id in sections :: sections[id] in r.value.value
    ensures r.Ok? && r.value.Some? ==>
              forall x | x in r.value.value :: exists id | id in classrooms[classroomId].sections && id in sections :: sections[id] == x
  {
    if classroomId !in classrooms then Ok(None)
    else
      match GetSectionsByIds(sections, classrooms[classroomId].sections)
      case Err(e) => Err(e)
      case Ok(found) => Ok(Some(found))
  }
}

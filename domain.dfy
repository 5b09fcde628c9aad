/** The records the services exchange: classrooms, sessions and their
    members, sections, and per-user score records. Dates are integer
    milliseconds since the Unix epoch; JavaScript numbers that hold counts or
    scores are integers. */
module Domain {
  import opened JsMaps

  /** Document ids of users, sessions, sections and classrooms. */
  type Id = string

  datatype Visibility = Open | Restricted

  datatype SessionStatus = Active | Ended

  datatype ClassroomStatus = ClassroomActive | ClassroomInactive

  datatype SectionKind = Game | Video

  datatype Section = Section(id: Id, name: string, kind: SectionKind)

  datatype Classroom = Classroom(
    id: Id,
    name: string,
    startTime: int,   // milliseconds since the epoch
    duration: int,    // minutes
    status: ClassroomStatus,
    sections: seq<Id>,
    visibility: Visibility,
    maxUsers: int)

  /** One entry of a session's membership list (`{ id: userId }`). */
  datatype Member = Member(id: Id)

  datatype Session = Session(
    id: Id,
    status: SessionStatus,
    users: seq<Member>,
    maxUsers: int,
    visibility: Visibility,
    classroomId: Id)

  /** `users.find((user) => user.id === userId)` finds something. */
  predicate IsMember(users: seq<Member>, userId: Id) {
    Member(userId) in users
  }

  /** A stored score record; `id` is the document id. */
  datatype UserScoreRecord = UserScoreRecord(id: nat, sessionId: Id, sectionId: Id, userId: Id, score: int)

  /** A score record before it is given a document id. */
  datatype ScoreInput = ScoreInput(sessionId: Id, sectionId: Id, userId: Id, score: int)

  /** `{ sectionId: { userId: score } }` as returned to clients. */
  type SessionScores = map<Id, map<Id, int>>

  /** An in-memory score table of one session: section id -> user id -> score. */
  type ScoreTable = JsMap<Id, JsMap<Id, int>>

  ghost predicate TableValid(t: ScoreTable) {
    t.Valid() && forall s | s in t.entries :: t.entries[s].Valid()
  }
}

# Classroom session coordination, modelled in Dafny

The backend lets users join time-boxed classrooms. A user who joins is placed in a
*session* of the classroom: a session already listing the user, else the first
session with room, else a new one. While the session runs, a process-wide
connection registry keeps track of:
- which users are live in which session;
- the scores users send per section.

The registry persists those scores to the `userScores` collection when a new
section starts. Around this sit:
- a registry of scheduled cron tasks and the cron patterns they are scheduled with;
- the token extraction shared by the HTTP and socket middleware.

This project models that core and proves what each operation does.

| module (file) | models |
|---|---|
| `ConnectionRegistry` (connection_manager.dfy) | `ConnectionManager`: connections, presence maps, in-memory score tables |
| `SessionEvents` (session_handlers.dfy) | the `join-session`, `leave-session` and `update-score` socket handlers |
| `Sessions` (session_service.dfy) | `SessionService` over the `sessions` collection |
| `Classrooms` (classroom_service.dfy) | `joinClassroom`, `isClassroomValid`, `getSectionsForClassroomId` |
| `UserScores` (user_score_service.dfy) | `UserScoreService` over the `userScores` collection |
| `CronTasks` (cron_service.dfy) | `CronTaskService`, the task registry |
| `AuthTokens` (auth_utils.dfy) | `extractToken`, `validateAuthToken` |
| `CronPatterns` (cron_utils.dfy) | `timestampToCron`, `createEndOfDayCronPattern` |
| `JsMaps`, `Domain`, `Wrappers` | JavaScript `Map` (insertion-ordered), the record types, Option/Result |

Modelling choices:
- **Registries are classes.** State the source updates in place is a `class` whose methods carry `modifies` clauses. This covers the connection manager, the two collections and the cron registry.
- **JavaScript maps.** A `Map` whose iteration order is observable is a `JsMap`: a key sequence plus a Dafny `map`. This covers presence maps, score tables and the cron registry. Outer maps whose order is never observed are plain `map`s.
- **Collections.** A Firestore collection is a sequence of documents. For the `userScores` collection, the sequence order stands for query order, and new records come last (see "## Left out").
  - A document id the code draws from `collection.doc()` is an explicit parameter (`newId`) for sessions.
  - For score records it is a counter (`nextId`), so created ids are always fresh.
- **Side effects as ghost logs.** Socket effects are appended, in order, to a ghost event log: joining and leaving rooms, broadcasts, and the flush to the score collection. So are `disconnect(true)` requests, the start and stop of cron tasks, and console lines.
- **Time.** Times are integer milliseconds since the epoch, and "now" is a parameter.

## Model

| member | source | states |
|---|---|---|
| ConnectionRegistry.ConnectionManager.constructor | websocket/services/connectionManager.ts:15-19 | the three maps start empty |
| ConnectionRegistry.ConnectionManager.AddConnection | websocket/services/connectionManager.ts:29-34 | the socket's user id maps to a fresh connection with no active session, replacing any earlier entry; nothing else changes |
| ConnectionRegistry.ConnectionManager.RemoveConnection | websocket/services/connectionManager.ts:37-42 | only that user's entry goes; a no-op for an absent user |
| ConnectionRegistry.FlaggedKeys | websocket/services/connectionManager.ts:45-47 | the filter keeps exactly the keys whose flag is true, without duplicates |
| ConnectionRegistry.ConnectionManager.GetActiveSessionUsers | websocket/services/connectionManager.ts:44-48 | exactly the users whose presence flag is true, each once; empty for an unknown session |
| ConnectionRegistry.WithActiveSession | websocket/services/connectionManager.ts:63-66 | only the user's connection changes: `activeSession` becomes the session when live and is cleared otherwise, whatever it was |
| ConnectionRegistry.ConnectionManager.UpdateUserSessionStatus | websocket/services/connectionManager.ts:50-67 | presence map created if needed, the user's flag set, other users' flags untouched; connection updated as `WithActiveSession`; scores unchanged |
| ConnectionRegistry.ConnectionManager.GetSessionScore | websocket/services/connectionManager.ts:69-71 | a table exactly when the session has one |
| ConnectionRegistry.ConnectionManager.GetSessionSectionScore | websocket/services/connectionManager.ts:73-75 | a map exactly when both the session and the section key are present |
| ConnectionRegistry.ScoreUpdateAsWritten | websocket/services/connectionManager.ts:81-97 | an unknown section stores `{sessionId: score}` under the session id; a truthy score under the user id leaves the table unchanged; otherwise the section's map gets `sessionId -> score` in place; other sections are untouched and the table stays well formed |
| ConnectionRegistry.AsWrittenKeysStaySessionId | websocket/services/connectionManager.ts:87-97 | a table whose every key is the session id keeps that shape after any update |
| ConnectionRegistry.AsWrittenSectionNeverRecorded | websocket/services/connectionManager.ts:87-97 | for a section id different from the session id, the section is never a key and the user never an inner key |
| ConnectionRegistry.AsWrittenOverwritesTruthy | websocket/services/connectionManager.ts:87-97 | as written, a truthy score is replaced: after one score the map under the session id holds it, and a second score for the same section and user replaces it |
| ConnectionRegistry.ScoreUpdateIntended | websocket/services/connectionManager.ts:87-97 | corrected keys: the section holds the user's score, a truthy score already there is kept, other sections are untouched |
| ConnectionRegistry.ApplyScore | websocket/services/connectionManager.ts:87-97 | the source's lookups and `set` calls on the session's table, in order, yield exactly `ScoreUpdateAsWritten` of that table |
| ConnectionRegistry.ConnectionManager.UpdateSessionScore | websocket/services/connectionManager.ts:78-98 | the session's table becomes `ScoreUpdateAsWritten` of the old one; the session then has a table; the other maps are unchanged |
| ConnectionRegistry.ConnectionManager.GetConnectionStats | websocket/services/connectionManager.ts:101-113 | connection count, presence-map count, and distinct users equal to connections |
| ConnectionRegistry.DisconnectTargetsExactly | websocket/services/connectionManager.ts:117-122 | disconnect is requested for exactly the session's users with a connection entry whose socket is still connected |
| ConnectionRegistry.DropUsers | websocket/services/connectionManager.ts:117-125 | the loop removes exactly the session's users from the connections and requests exactly `DisconnectTargets` |
| ConnectionRegistry.ConnectionManager.ClearSession | websocket/services/connectionManager.ts:115-128 | no presence map or score table is left for the session; its users lose their connections; others are kept; disconnect requests are logged in order |
| SessionEvents.RoomInjective | websocket/handlers/session.ts:13 | different sessions have different rooms |
| SessionEvents.SessionEventHandler.OnJoinSession | websocket/handlers/session.ts:9-19 | the presence flag is set true, so the user is among the active users, before the room is joined and `user-joined` is broadcast |
| SessionEvents.SessionEventHandler.OnLeaveSession | websocket/handlers/session.ts:22-28 | the presence flag is set false, so the user is not among the active users, before the room is left and `user-left` is broadcast |
| SessionEvents.SessionEventHandler.FlushBeforeNewSection | websocket/handlers/session.ts:34-46 | the store gains `Flatten` of the session's table, with fresh ids, exactly when `FlushDue` holds (the table exists, is non-empty and lacks the section), and is untouched otherwise; only the store may change |
| SessionEvents.SessionEventHandler.OnUpdateScore | websocket/handlers/session.ts:31-55 | the whole table is flushed exactly when it exists, is non-empty and lacks the section, and before the registry update; the broadcast comes last and carries the caller's id |
| SessionEvents.FlushDue | websocket/handlers/session.ts:42 | the flush test `sessionScore && sessionScore.size && !sessionSectionScore`; `FlushBeforeNewSection` and `OnUpdateScore` prove that the store gains `Flatten` of the table exactly when it holds |
| SessionEvents.RecordAsWritten | websocket/handlers/session.ts:48 | the registry's tables after `updateSessionScore`; `OnUpdateScore` proves the registry ends in it, and `AsWrittenFlushesAgain` proves the next new section flushes again |
| SessionEvents.AsWrittenFlushesAgain | websocket/handlers/session.ts:42-48 | as written, after any update the next score for a section other than the session id flushes again |
| SessionEvents.AsWrittenSecondScoreFlushes | websocket/handlers/session.ts:42-48 | as written, the second score for one section of a fresh session already triggers a flush |
| SessionEvents.IntendedFlushesOnSectionChange | websocket/handlers/session.ts:42-48 | with corrected keys, a flush happens only for a section not yet in the table |
| Sessions.Lookup | services/sessionService.ts:49-52 | the document found has the id; none exactly when no document has it |
| Sessions.SessionService.CreateSession | services/sessionService.ts:10-31 | an active, open session with the user as sole member, the classroom's capacity and id; it is stored |
| Sessions.CreatedSessionFound | services/sessionService.ts:15-29 | the created session is then read back by its id, and it is available exactly when capacity exceeds one |
| Sessions.Available | services/sessionService.ts:33-45 | exactly the stored sessions of the classroom that are active, open and below capacity |
| Sessions.AvailableKeepsOrder | services/sessionService.ts:40-42 | available sessions keep their query order |
| Sessions.ActiveSession | services/sessionService.ts:47-58 | none exactly when the session is absent or ended, otherwise the active stored session |
| Sessions.Missing | services/sessionService.ts:73-75 | exactly the given ids that are not members yet; a single id is kept exactly when it is not a member |
| Sessions.MissingCount | services/sessionService.ts:73-75 | repeats are kept: a non-member id occurs as often as it is given, a member never |
| Sessions.MissingAppend | services/sessionService.ts:73-75 | input order is kept: filtering a concatenation filters each part in turn |
| Sessions.Replace | services/sessionService.ts:94-97 | only the document with that id is replaced, the others stay in place |
| Sessions.LookupReplace | services/sessionService.ts:94-97 | after the write the session reads back as written and other ids read as before |
| Sessions.ReplaceKeepsIds | services/sessionService.ts:94-97 | the write keeps document ids unique |
| Sessions.AppendedAreMembers | services/sessionService.ts:87-91 | after appending, the old members keep their places, each appended entry is a given id that was not a member, and every given id is a member |
| Sessions.UsersUpdate | services/sessionService.ts:60-102 | the result of `updateSessionUsers`; `UsersUpdateNotExists`, `UsersUpdateNoWrite`, `UsersUpdateWrites`, `AsWrittenCapacity` and `UsersUpdateIdempotent` state its error cases, its no-op, its write and its repeat |
| Sessions.UsersUpdateNotExists | services/sessionService.ts:66-70 | "Session not exists" exactly for an absent or ended session |
| Sessions.UsersUpdateNoWrite | services/sessionService.ts:72-80 | when every given user is a member, nothing is written |
| Sessions.UsersUpdateWrites | services/sessionService.ts:83-97 | a write sets the users to the old users followed by the missing ids as members, in input order; every id is then a member; the session stays below capacity; nothing else changes |
| Sessions.UsersUpdateIdempotent | services/sessionService.ts:72-97 | repeating a successful update writes nothing |
| Sessions.AsWrittenCapacity | services/sessionService.ts:83-85 | as written, "full" exactly when the session exists, some id is missing, and the additions would reach or pass capacity |
| Sessions.AsWrittenSessionNeverFills | services/sessionService.ts:83-85 | as written, a session for two holding one user refuses a second; the corrected test accepts them |
| Sessions.IntendedCapacity | services/sessionService.ts:83-85 | corrected test: "full" exactly when the additions would pass capacity, and a write stays within capacity |
| Sessions.SessionService.UpdateSessionUsers | services/sessionService.ts:60-102 | the collection becomes `UsersUpdate` of the old one; on an error it is unchanged |
| Classrooms.ValidateClassroom | services/classroomService.ts:59-81 | checks in order not started, already ended, private; both ends of the window inclusive; `true` otherwise |
| Classrooms.JoinWindowInclusive | services/classroomService.ts:68-75 | start and end instants admit an open classroom; one millisecond outside does not |
| Classrooms.FindMember | services/classroomService.ts:26-28 | the first session listing the user, none when no session does |
| Classrooms.SelectSession | services/classroomService.ts:26-33 | the available session that lists the user, else the first available one; `SelectSessionRule` states for all inputs which session it picks |
| Classrooms.SelectSessionRule | services/classroomService.ts:26-36 | nothing exactly when nothing is available; else the first available session with the user, else the first available |
| Classrooms.JoinClassroom | services/classroomService.ts:13-45 | the errors in order; a new session only when none is available; a selected session unchanged; the result pairs it with its scores |
| Classrooms.SectionsByIds | services/sectionService.ts:10-18 | exactly the stored sections among the ids; a single id gives its section when stored, nothing otherwise |
| Classrooms.SectionsByIdsAppend | services/sectionService.ts:11-17 | id order is kept: reading a concatenation reads each part in turn |
| Classrooms.SectionsByIdsAllStored | services/sectionService.ts:11-17 | when every id is stored, one section per id at the id's own position, repeats included |
| Classrooms.GetSectionsByIds | services/sectionService.ts:10-18 | the read fails exactly for an empty id list; otherwise it gives `SectionsByIds` |
| Classrooms.SectionsForClassroomId | services/classroomService.ts:83-93 | null exactly for an unknown classroom; the failed read exactly for a classroom without sections; otherwise the classroom's stored sections |
| UserScores.MatchingMembers | services/userScoreService.ts:17-19 | the query returns exactly the session's records |
| UserScores.FoldLookup | services/userScoreService.ts:23-30 | the reduce leaves for each pair the last record's score, falling back to the start value |
| UserScores.FoldSections | services/userScoreService.ts:23-30 | the reduce has a key for exactly the sections some record carries |
| UserScores.ScoresForSession | services/userScoreService.ts:16-31 | `getScoresForSession`; `MatchingMembers`, `ScoresForSessionLastWins` and `OtherSessionIgnored` state that each pair reads the score of its last record in the session |
| UserScores.ScoresForSessionLastWins | services/userScoreService.ts:16-31 | each pair reads the last matching record's score; a section key exactly per matching section id; `{}` when nothing matches |
| UserScores.OtherSessionIgnored | services/userScoreService.ts:17-19 | a record of another session changes nothing |
| UserScores.RecordsForSectionsCount | services/userScoreService.ts:44-58 | one record per (section, user) entry: the count is the sum of the inner map sizes |
| UserScores.RecordsForSectionsIds | services/userScoreService.ts:47-49 | the batch gets consecutive fresh document ids |
| UserScores.RecordsForSectionsSession | services/userScoreService.ts:48-54 | every batch record carries the given session id |
| UserScores.Flatten | services/userScoreService.ts:44-58 | the batch of `writeBulkUserScoreForSession`; `RecordsForSectionsCount`, `RecordsForSectionsIds`, `RecordsForSectionsSession`, `FlattenLastScore` and `FlattenReadBack` state its size, ids, session and contents |
| UserScores.FlattenLastScore | services/userScoreService.ts:44-58 | each entry's section, user and score are in the batch, and no other pair is |
| UserScores.FlattenLookup | services/userScoreService.ts:44-58 | reading the batch back gives each entry's score and nothing else |
| UserScores.FlattenReadBack | services/userScoreService.ts:33-61 | round trip: the batch reads back as the table without its empty sections |
| UserScores.FlushReadBack | services/userScoreService.ts:33-61 | after a flush, each table entry reads back with its score, whatever was stored before |
| UserScores.AddSectionRecords | services/userScoreService.ts:46-56 | the inner loop appends one record per user of the section, in map order |
| UserScores.BuildBatch | services/userScoreService.ts:44-58 | the outer loop builds exactly `Flatten` of the table |
| UserScores.UserScoreStore.WriteBulkUserScoreForSession | services/userScoreService.ts:33-61 | the batch is appended after all records, ids stay unique |
| UserScores.FirstMatch | services/userScoreService.ts:66-79 | the first record with the session, section and user, none when there is none |
| UserScores.Upsert | services/userScoreService.ts:63-83 | no match: a record with a fresh id is created; otherwise the first match gets the new score and keeps its id and fields, others unchanged |
| UserScores.UpsertReadBack | services/userScoreService.ts:63-83 | with at most one record for the triple, the session then reads back the new score |
| UserScores.UpsertShadowedByLaterDuplicate | services/userScoreService.ts:79-82 | with two records for the triple, the update changes the first while reads return the second |
| UserScores.UserScoreStore.WriteUserScoreForSession | services/userScoreService.ts:63-83 | the collection and the returned record are those of `Upsert`; ids stay unique |
| CronTasks.Schedule | services/cronService.ts:21-31 | the registry stays well formed: one task per id, stored under its own name |
| CronTasks.ScheduleFirstWins | services/cronService.ts:21-31 | the id is present afterwards; a second schedule of an id changes nothing, whatever its expression and job |
| CronTasks.ScheduleAppends | services/cronService.ts:26-31 | a new id is listed after the earlier ones, whose tasks are kept |
| CronTasks.RemoveUndoesSchedule | services/cronService.ts:26-44 | removing a just-scheduled new id restores the registry, order included |
| CronTasks.CronTaskService.ScheduleTask | services/cronService.ts:16-33 | registry as `Schedule`; a present id only warns, a new one is started, stored and logged |
| CronTasks.CronTaskService.RemoveTask | services/cronService.ts:39-48 | exactly that id is removed after its task is stopped; an absent id only warns |
| CronTasks.CronTaskService.TaskExists | services/cronService.ts:55-57 | true exactly for a listed id |
| CronTasks.CronTaskService.ListTasks | services/cronService.ts:63-65 | every registered id once, in insertion order |
| AuthTokens.ValidateAuthToken | services/authUtils.ts:9-17 | null, undefined and "" are invalid with no data; any other token gets the validator's own answer |
| AuthTokens.ValidatorOnlyForTokens | services/authUtils.ts:12-16 | only a non-empty token can make two validators disagree |
| AuthTokens.ValidityCarriesData | services/authService.ts:95-108 | with the service's validator, valid exactly when data is present, which is the decoded payload |
| AuthTokens.IndexOf | services/authUtils.ts:36 | the first occurrence of the pattern, none when there is none |
| AuthTokens.ReplaceFirst | services/authUtils.ts:36 | only the first occurrence is replaced; without one the string is returned unchanged |
| AuthTokens.StringSourceUnchanged | services/authUtils.ts:27-29 | a string argument is the token, "" included |
| AuthTokens.ExtractToken | services/authUtils.ts:24-47 | `extractToken`; `StringSourceUnchanged`, `ExtractPrecedence`, `BearerHeaderRoundTrip`, `UnprefixedHeaderKept` and `NonStringHeaderFallsThrough` state each kind of source |
| AuthTokens.ExtractPrecedence | services/authUtils.ts:31-46 | a string `authorization` wins over a string `token`; null or an object with neither gives undefined |
| AuthTokens.BearerHeaderRoundTrip | services/authUtils.ts:33-37 | "Bearer t" gives t, whatever the other fields hold |
| AuthTokens.UnprefixedHeaderKept | services/authUtils.ts:36 | a header without "Bearer " is taken whole |
| AuthTokens.DoubledBearerKeepsOne | services/authUtils.ts:36 | "Bearer Bearer x" gives "Bearer x" |
| AuthTokens.InnerBearerRemoved | services/authUtils.ts:36 | "Bearer " is removed where it first stands, not only as a prefix |
| AuthTokens.NonStringHeaderFallsThrough | services/authUtils.ts:33-43 | a non-string `authorization` falls through to a string `token` |
| CronPatterns.UtcParts | js/utils/cronUtils.ts:9-16 | invalid exactly outside the `Date` range; otherwise minute 0..59 from the whole minutes, hour 0..23 from the whole hours, day 1..31, month 1..12, weekday 0..6 stepping from Thursday at the epoch |
| CronPatterns.YearAndDayCivil | js/utils/cronUtils.ts:14-15 | the year walk agrees with the reference day count of whole years |
| CronPatterns.MonthAndDayCivil | js/utils/cronUtils.ts:14-15 | the month walk agrees with the reference day count of whole months |
| CronPatterns.CalendarCycle | js/utils/cronUtils.ts:14-15 | leap years and day counts repeat every 400 years, 146097 days |
| CronPatterns.CivilDateUnique | js/utils/cronUtils.ts:14-15 | within a year, a day count names one date only |
| CronPatterns.TimeOfDay | js/utils/cronUtils.ts:12-13 | an instant is its whole days, then the hour, the minute and the milliseconds left |
| CronPatterns.UtcPartsCivil | js/utils/cronUtils.ts:9-16 | day and month form a real date of the instant's year whose reference day count is the instant's whole days; the week day follows that count; hour and minute are what is left of the day |
| CronPatterns.TimestampToCron | js/utils/cronUtils.ts:8-20 | `timestampToCron`; `CronFields`, `CronReadBack` and `UtcPartsCivil` state that its five fields read back as the instant's UTC minute, hour, civil day, month and weekday |
| CronPatterns.EndOfDayCron | js/utils/cronUtils.ts:27-37 | `createEndOfDayCronPattern`; `EndOfDayMatchesDay` states that it is "59 23" followed by the day, month and weekday fields of `TimestampToCron` |
| CronPatterns.DecimalRoundTrip | js/utils/cronUtils.ts:19 | fields read back to their values and start with 0 only for zero |
| CronPatterns.CronFields | js/utils/cronUtils.ts:12-19 | five space-separated fields: minute, hour, day, month, weekday |
| CronPatterns.CronReadBack | js/utils/cronUtils.ts:12-19 | each field of a valid instant's pattern reads back as its UTC value |
| CronPatterns.EndOfDayMatchesDay | js/utils/cronUtils.ts:27-37 | begins "59 23", and its last three fields are those of `timestampToCron` |
| CronPatterns.MinuteDeterminesHourAndDay | js/utils/cronUtils.ts:12-14 | the hour and the day depend only on the minute |
| CronPatterns.SameMinuteSamePattern | js/utils/cronUtils.ts:8-20 | valid instants in the same UTC minute give the same patterns |
| CronPatterns.EpochPattern | js/utils/cronUtils.ts:8-20 | instant 0 gives "0 0 1 1 4" and "59 23 1 1 4" |
| CronPatterns.LeapDayPattern | js/utils/cronUtils.ts:8-20 | 1972-02-29 12:30 UTC gives "30 12 29 2 2" and "59 23 29 2 2" |
| CronPatterns.InvalidDatePattern | js/utils/cronUtils.ts:9-19 | outside the `Date` range every calendar field is `NaN` |

Where the code and the written design disagree, the model follows the code:
- **Clearing the active session.** `updateUserSessionStatus(..., false)` clears a connection's active session whatever session it names, not only when it names this session.
- **Score updates.** The in-memory score update is not a last-write-wins upsert, nor does it keep the first score. Its inner maps are keyed by the session id, and its guard reads the user id key while the write goes to the session id key. So a truthy score stored under the session id is overwritten (`AsWrittenOverwritesTruthy`). Only the corrected update, `ScoreUpdateIntended`, keeps a truthy score (see Findings).
- **When a flush happens.** As the code stands, every score after the first re-flushes the whole table, not only the first score of a new section (see Findings).
- **Joining does not add the user.** `joinClassroom` never adds the user to the chosen session's member list; `UsersUpdate` is the only place that does.
- **Duplicates.** Repeated ids in `updateSessionUsers` are kept in `missing` and appended twice.
- **Capacity.** A write stays strictly below `maxUsers`, not at most `maxUsers`.
- **Bookings.** There is no booking ledger or reserved capacity in the code, so none is modelled.

Also a consequence of the code, proved in `UpsertShadowedByLaterDuplicate`: `writeUserScoreForSession` updates the *first* record for a (session, section, user) triple, while `getScoresForSession` reports the *last*. A bulk flush can create such duplicates.

## Findings

| source | as written | input that shows it | evidently intended | confidence | as-written member | corrected member |
|---|---|---|---|---|---|---|
| websocket/services/connectionManager.ts:87-97 | the new inner map is stored under `scoreData.sessionId`, and so is the score inside it | session "s", section "q", user "u", score 5 on an empty registry gives `{ s: { s: 5 } }`: `getSessionSectionScore("s", "q")` stays undefined, so the next `update-score` for "q" flushes the table again | the section map stored under `sectionId`, the score under `userId` | high, not executed | ConnectionRegistry.AsWrittenSectionNeverRecorded | ConnectionRegistry.ScoreUpdateIntended |
| services/sessionService.ts:83-85 | refuses when `missing + users >= maxUsers` | session with `maxUsers` 2 holding user "a"; adding "b" fails with "Session is full" | refuse only when the session would exceed `maxUsers` (`>`), so it can fill up | medium, not executed | Sessions.AsWrittenSessionNeverFills | Sessions.IntendedCapacity |

The registry class and the handlers keep the as-written score update, because that is the behaviour of the code:
- `SessionEvents.AsWrittenFlushesAgain` and `AsWrittenSecondScoreFlushes` show its effect on the flush rule.
- `SessionEvents.IntendedFlushesOnSectionChange` shows that the corrected update (`RecordIntended`) flushes only on a change of section.

Likewise `Sessions.SessionService.UpdateSessionUsers` keeps the as-written capacity test, which `Sessions.AsWrittenCapacity` states for all inputs; `UsersUpdateIntended` is the corrected rule.

## Left out

- **Firestore** is reduced to sequences of documents. This leaves out:
  - network failures, retries and the `try`/`catch` logging of `updateSessionUsers`;
  - batch atomicity beyond "appended at once";
  - real document-id generation (a parameter or a counter instead).
- **Socket.io I/O.** Rooms, `emit` and `disconnect` are ghost events, and whether a socket is still connected is a parameter of `ClearSession`. The ISO timestamps of broadcasts are parameters.
- **Concurrency.** Each handler and service call runs to completion. The interleaving of the `await`s (for example another event between the flush and the registry update in `update-score`) is not modelled.
- **The `getInstance` singleton** is an explicitly constructed `ConnectionManager`; `CronTaskService`'s static map is one `CronTaskService` object.
- **Score values.** Scores are integers: fractional and NaN scores are not modelled. Truthiness of a stored score is "present and not 0".
- **Cron execution.** `node-cron` running the jobs, and its rejection of malformed expressions, are left out. A job is known only by an identifier.
- **Token validator.** JWT verification (`AuthService.validateToken`'s `verifyAsync`) is a function parameter. Header values that are arrays are kept only as "not a string".
- **Timestamps and time zones.** `createEndOfDayCronPattern`'s Firestore `Timestamp` is an integer millisecond instant, as for `timestampToCron`. `isClassroomValid` adds the duration in minutes to the start instant, leaving out local-time `setMinutes` and DST effects.
- **Calendar.** The calendar uses the 400-year Gregorian cycle: day and month are computed within one cycle starting on 1 January 1970. Instants beyond the `Date` range give `NaN` fields, as `Date` does.
- **Classrooms and sections not modelled.** Classrooms and sections are maps by id. The only failure of `db.getAll` modelled is its rejection of an empty reference list. `getClassroomById` is a map lookup. `createClassroom`, `getAllClassrooms` and the empty `leaveClassroom` are not modelled: they only write or list documents.
- **`archiveUserScores`** delegates to `archiveCollectionData`, which is not part of this model.
- CreateSession: appends the new session after all older ones, and the model takes that sequence to be query order. `createSession` draws a random id with `doc()`, and Firestore returns an equality-only query in document-id order. So a new session can come before older ones in `getAvailableSessions`. That order decides which session `existingSessions?.[0]` gives a later joiner. `JoinClassroom` and `SelectSessionRule` pick "first" in the assumed creation order, not in Firestore's id order.
- OnUpdateScore: when `writeBulkUserScoreForSession` rejects, the handler stops there. The registry update and the `score-updated` broadcast do not happen. The model's flush always succeeds, so it does not capture this path.
- FlushReadBack: holds only because the model appends new records after all older ones. Firestore returns an unordered query in document-id order, and `collection.doc()` draws random ids. So after a second flush of the same session, section and user, an older record may come later in the query and win the last-wins read. The model takes query order to be creation order; `ScoresForSessionLastWins` and `UpsertShadowedByLaterDuplicate` read "last" in that order too.
- **The glue.** Not modelled: `cronTasks.ts`, `server.ts`, the controllers, routes and middleware, and the booking and user services. They only wire the modelled operations to Express, socket.io and Firestore, or call members not present in the code.

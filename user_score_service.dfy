/** The "userScores" collection and the three operations on it: reading a
    session's scores back as `{ sectionId: { userId: score } }`, writing a
    whole in-memory score table as one batch, and the single-record upsert.
    The collection is a sequence of records in the order its queries return
    them; generated document ids are drawn from a counter, so every created
    record gets an id no other record has. */
module UserScores {
  import opened Wrappers
  import opened JsMaps
  import opened Domain

  /* ---------- getScoresForSession ---------- */

  /** The records of one session, in collection order
      (`where("sessionId", "==", sessionId)`). */
  function Matching(records: seq<UserScoreRecord>, sessionId: Id): seq<UserScoreRecord> {
    if records == [] then []
    else
      var last := records[|records| - 1];
      Matching(records[..|records| - 1], sessionId) + (if last.sessionId == sessionId then [last] else [])
  }

  /** One step of the `reduce`: the record's score is filed under its
      section and user, keeping the section's other users. */
  function Put(agg: SessionScores, x: UserScoreRecord): SessionScores {
    agg[x.sectionId := (if x.sectionId in agg then agg[x.sectionId] else map[])[x.userId := x.score]]
  }

  /** `docs.reduce(Put, agg)` */
  function Fold(agg: SessionScores, docs: seq<UserScoreRecord>): SessionScores {
    if docs == [] then agg else Put(Fold(agg, docs[..|docs| - 1]), docs[|docs| - 1])
  }

  /** `getScoresForSession`: `{}` when nothing matches, otherwise the fold
      of the matching records. */
  function ScoresForSession(records: seq<UserScoreRecord>, sessionId: Id): SessionScores {
    var docs := Matching(records, sessionId);
    if docs == [] then map[] else Fold(map[], docs)
  }

  /** `scores[sectionId]?.[userId]` */
  function Lookup(scores: SessionScores, sectionId: Id, userId: Id): (r: Option<int>)
    ensures r.Some? <==> sectionId in scores && userId in scores[sectionId]
  {
    if sectionId in scores && userId in scores[sectionId] then Some(scores[sectionId][userId]) else None
  }

  /** Reference definition: the score of the last record for the pair. */
  function LastScore(docs: seq<UserScoreRecord>, sectionId: Id, userId: Id): Option<int> {
    if docs == [] then None
    else
      var last := docs[|docs| - 1];
      if last.sectionId == sectionId && last.userId == userId then Some(last.score)
      else LastScore(docs[..|docs| - 1], sectionId, userId)
  }

  lemma {:induction false} FoldLookup(agg: SessionScores, docs: seq<UserScoreRecord>, sectionId: Id, userId: Id)
    ensures Lookup(Fold(agg, docs), sectionId, userId)
            == if LastScore(docs, sectionId, userId).Some? then LastScore(docs, sectionId, userId)
               else Lookup(agg, sectionId, userId)
  {
    if docs != [] {
      FoldLookup(agg, docs[..|docs| - 1], sectionId, userId);
    }
  }

  /** Every section the fold files has at least one user. */
  lemma {:induction false} FoldSectionsNonEmpty(agg: SessionScores, docs: seq<UserScoreRecord>)
    requires forall s | s in agg :: agg[s] != map[]
    ensures forall s | s in Fold(agg, docs) :: Fold(agg, docs)[s] != map[]
  {
    if docs != [] {
      FoldSectionsNonEmpty(agg, docs[..|docs| - 1]);
      var x := docs[|docs| - 1];
      assert x.userId in Fold(agg, docs)[x.sectionId];
    }
  }

  /** The fold's section keys are the starting keys plus the records'
      section ids. */
  lemma {:induction false} FoldSections(agg: SessionScores, docs: seq<UserScoreRecord>)
    ensures forall s :: s in Fold(agg, docs) <==> s in agg || exists x | x in docs :: x.sectionId == s
  {
    if docs != [] {
      var init := docs[..|docs| - 1];
      FoldSections(agg, init);
      forall x
        ensures x in docs <==> x in init || x == docs[|docs| - 1]
      {
        InInitOrLast(docs, x);
      }
    }
  }

  /** `x` occurs in a sequence exactly when it is its last element or occurs before it. */
  lemma InInitOrLast<T>(s: seq<T>, x: T)
    requires s != []
    ensures x in s <==> x in s[..|s| - 1] || x == s[|s| - 1]
  {
    assert s == s[..|s| - 1] + [s[|s| - 1]];
  }

  /** The filter keeps exactly the session's records. */
  lemma {:induction false} MatchingMembers(records: seq<UserScoreRecord>, sessionId: Id, x: UserScoreRecord)
    ensures x in Matching(records, sessionId) <==> x in records && x.sessionId == sessionId
  {
    if records != [] {
      MatchingMembers(records[..|records| - 1], sessionId, x);
      InInitOrLast(records, x);
    }
  }

  lemma MatchingSnoc(s: seq<UserScoreRecord>, x: UserScoreRecord, sessionId: Id)
    ensures Matching(s + [x], sessionId) == Matching(s, sessionId) + (if x.sessionId == sessionId then [x] else [])
  {
    assert (s + [x])[..|s|] == s;
  }

  lemma {:induction false} MatchingAppend(a: seq<UserScoreRecord>, b: seq<UserScoreRecord>, sessionId: Id)
    ensures Matching(a + b, sessionId) == Matching(a, sessionId) + Matching(b, sessionId)
  {
    if b == [] {
      assert a + b == a;
    } else {
      var init, x := b[..|b| - 1], b[|b| - 1];
      assert b == init + [x];
      assert a + b == (a + init) + [x];
      MatchingAppend(a, init, sessionId);
      MatchingSnoc(a + init, x, sessionId);
      MatchingSnoc(init, x, sessionId);
    }
  }

  lemma {:induction false} LastScoreAppend(a: seq<UserScoreRecord>, b: seq<UserScoreRecord>, sectionId: Id, userId: Id)
    ensures LastScore(a + b, sectionId, userId)
            == if LastScore(b, sectionId, userId).Some? then LastScore(b, sectionId, userId) else LastScore(a, sectionId, userId)
  {
    if b == [] {
      assert a + b == a;
    } else {
      LastScoreAppend(a, b[..|b| - 1], sectionId, userId);
      assert (a + b)[..|a + b| - 1] == a + b[..|b| - 1];
    }
  }

  /** `getScoresForSession` returns, for every section and user, the score of
      the LAST record of the session for that pair, and has a section key
      exactly for each section id some record of the session carries (so it
      is `{}` when no record matches). */
  lemma {:induction false} ScoresForSessionLastWins(records: seq<UserScoreRecord>, sessionId: Id, sectionId: Id, userId: Id)
    ensures Lookup(ScoresForSession(records, sessionId), sectionId, userId)
            == LastScore(Matching(records, sessionId), sectionId, userId)
    ensures sectionId in ScoresForSession(records, sessionId)
            <==> exists x | x in records :: x.sessionId == sessionId && x.sectionId == sectionId
  {
    var docs := Matching(records, sessionId);
    FoldLookup(map[], docs, sectionId, userId);
    FoldSections(map[], docs);
    forall x
      ensures x in docs <==> x in records && x.sessionId == sessionId
    {
      MatchingMembers(records, sessionId, x);
    }
    if docs == [] {
      assert Fold(map[], docs) == map[];
    }
  }

  /** A record of another session does not change what a session reads. */
  lemma {:induction false} OtherSessionIgnored(records: seq<UserScoreRecord>, x: UserScoreRecord, sessionId: Id)
    requires x.sessionId != sessionId
    ensures ScoresForSession(records + [x], sessionId) == ScoresForSession(records, sessionId)
  {
    MatchingSnoc(records, x, sessionId);
    assert Matching(records, sessionId) + [] == Matching(records, sessionId);
  }

  /* ---------- writeBulkUserScoreForSession ---------- */

  /** The records created for one section's users, in the inner map's
      order, with consecutive fresh ids from `firstId`. */
  function RecordsForUsers(sessionId: Id, sectionId: Id, users: JsMap<Id, int>, userKeys: seq<Id>, firstId: nat)
    : (r: seq<UserScoreRecord>)
    requires forall u | u in userKeys :: u in users.entries
    ensures |r| == |userKeys|
  {
    if userKeys == [] then []
    else
      var n := |userKeys| - 1;
      RecordsForUsers(sessionId, sectionId, users, userKeys[..n], firstId)
      + [UserScoreRecord(firstId + n, sessionId, sectionId, userKeys[n], users.entries[userKeys[n]])]
  }

  /** The records created for the given sections, in order. */
  function RecordsForSections(sessionId: Id, table: ScoreTable, sectionKeys: seq<Id>, firstId: nat)
    : seq<UserScoreRecord>
    requires TableValid(table)
    requires forall s | s in sectionKeys :: s in table.entries
  {
    if sectionKeys == [] then []
    else
      var n := |sectionKeys| - 1;
      var prev := RecordsForSections(sessionId, table, sectionKeys[..n], firstId);
      var users := table.entries[sectionKeys[n]];
      prev + RecordsForUsers(sessionId, sectionKeys[n], users, users.keys, firstId + |prev|)
  }

  /** The records of one section carry consecutive ids from `firstId`. */
  lemma {:induction false} RecordsForUsersIds(sessionId: Id, sectionId: Id, users: JsMap<Id, int>, userKeys: seq<Id>, firstId: nat)
    requires forall u | u in userKeys :: u in users.entries
    ensures forall k | 0 <= k < |userKeys| :: RecordsForUsers(sessionId, sectionId, users, userKeys, firstId)[k].id == firstId + k
  {
    if userKeys != [] {
      RecordsForUsersIds(sessionId, sectionId, users, userKeys[..|userKeys| - 1], firstId);
    }
  }

  /** The batch's records carry consecutive ids from `firstId`: the fresh
      document ids differ from each other and from every earlier one. */
  lemma {:induction false} RecordsForSectionsIds(sessionId: Id, table: ScoreTable, sectionKeys: seq<Id>, firstId: nat)
    requires TableValid(table)
    requires forall s | s in sectionKeys :: s in table.entries
    ensures forall k | 0 <= k < |RecordsForSections(sessionId, table, sectionKeys, firstId)| ::
              RecordsForSections(sessionId, table, sectionKeys, firstId)[k].id == firstId + k
  {
    if sectionKeys != [] {
      var n := |sectionKeys| - 1;
      var prev := RecordsForSections(sessionId, table, sectionKeys[..n], firstId);
      var users := table.entries[sectionKeys[n]];
      var cur := RecordsForUsers(sessionId, sectionKeys[n], users, users.keys, firstId + |prev|);
      RecordsForSectionsIds(sessionId, table, sectionKeys[..n], firstId);
      RecordsForUsersIds(sessionId, sectionKeys[n], users, users.keys, firstId + |prev|);
      var r := prev + cur;
      assert RecordsForSections(sessionId, table, sectionKeys, firstId) == r;
      forall k | 0 <= k < |r|
        ensures r[k].id == firstId + k
      {
        if k < |prev| {
          assert r[k] == prev[k];
        } else {
          assert r[k] == cur[k - |prev|];
          assert cur[k - |prev|].id == firstId + |prev| + (k - |prev|);
        }
      }
    }
  }

  /** The batch `writeBulkUserScoreForSession` creates for a score table. */
  function Flatten(sessionId: Id, table: ScoreTable, firstId: nat): seq<UserScoreRecord>
    requires TableValid(table)
  {
    RecordsForSections(sessionId, table, table.keys, firstId)
  }

  /** Reference count: the sum of the inner maps' sizes. */
  function EntryCount(table: ScoreTable, sectionKeys: seq<Id>): nat
    requires forall s | s in sectionKeys :: s in table.entries
  {
    if sectionKeys == [] then 0
    else |table.entries[sectionKeys[0]].entries| + EntryCount(table, sectionKeys[1..])
  }

  lemma {:induction false} EntryCountSnoc(table: ScoreTable, sectionKeys: seq<Id>)
    requires sectionKeys != []
    requires forall s | s in sectionKeys :: s in table.entries
    ensures EntryCount(table, sectionKeys)
            == EntryCount(table, sectionKeys[..|sectionKeys| - 1]) + |table.entries[sectionKeys[|sectionKeys| - 1]].entries|
  {
    if |sectionKeys| > 1 {
      EntryCountSnoc(table, sectionKeys[1..]);
      assert sectionKeys[1..][..|sectionKeys[1..]| - 1] == sectionKeys[..|sectionKeys| - 1][1..];
    }
  }

  /** The keys of a well-formed JavaScript map are as many as its entries. */
  lemma {:induction false} KeysCount<V>(m: JsMap<Id, V>)
    requires m.Valid()
    ensures |m.keys| == |m.entries|
    decreases |m.keys|
  {
    if m.keys != [] {
      var k := m.keys[0];
      var rest := JsMap(m.keys[1..], m.entries - {k});
      assert k !in m.keys[1..];
      assert rest.Valid();
      KeysCount(rest);
    }
  }

  /** One record per (section, user) entry: the batch is as long as the sum
      of the inner maps' sizes. */
  lemma {:induction false} RecordsForSectionsCount(sessionId: Id, table: ScoreTable, sectionKeys: seq<Id>, firstId: nat)
    requires TableValid(table)
    requires forall s | s in sectionKeys :: s in table.entries
    ensures |RecordsForSections(sessionId, table, sectionKeys, firstId)| == EntryCount(table, sectionKeys)
  {
    if sectionKeys != [] {
      var n := |sectionKeys| - 1;
      RecordsForSectionsCount(sessionId, table, sectionKeys[..n], firstId);
      EntryCountSnoc(table, sectionKeys);
      KeysCount(table.entries[sectionKeys[n]]);
    }
  }

  lemma {:induction false} RecordsForUsersLastScore(
    sessionId: Id, sectionId: Id, users: JsMap<Id, int>, userKeys: seq<Id>, firstId: nat, sec: Id, user: Id)
    requires forall u | u in userKeys :: u in users.entries
    ensures LastScore(RecordsForUsers(sessionId, sectionId, users, userKeys, firstId), sec, user)
            == if sec == sectionId && user in userKeys then Some(users.entries[user]) else None
  {
    if userKeys != [] {
      var n := |userKeys| - 1;
      RecordsForUsersLastScore(sessionId, sectionId, users, userKeys[..n], firstId, sec, user);
      InInitOrLast(userKeys, user);
    }
  }

  lemma SectionLastScore(sessionId: Id, sectionId: Id, users: JsMap<Id, int>, firstId: nat, sec: Id, user: Id)
    requires users.Valid()
    ensures LastScore(RecordsForUsers(sessionId, sectionId, users, users.keys, firstId), sec, user)
            == if sec == sectionId && user in users.entries then Some(users.entries[user]) else None
  {
    RecordsForUsersLastScore(sessionId, sectionId, users, users.keys, firstId, sec, user);
  }

  lemma {:induction false} RecordsForSectionsLastScore(
    sessionId: Id, table: ScoreTable, sectionKeys: seq<Id>, firstId: nat, sec: Id, user: Id)
    requires TableValid(table)
    requires forall s | s in sectionKeys :: s in table.entries
    ensures LastScore(RecordsForSections(sessionId, table, sectionKeys, firstId), sec, user)
            == if sec in sectionKeys && user in table.entries[sec].entries
               then Some(table.entries[sec].entries[user]) else None
  {
    if sectionKeys != [] {
      var n := |sectionKeys| - 1;
      var prev := RecordsForSections(sessionId, table, sectionKeys[..n], firstId);
      var users := table.entries[sectionKeys[n]];
      var cur := RecordsForUsers(sessionId, sectionKeys[n], users, users.keys, firstId + |prev|);
      assert RecordsForSections(sessionId, table, sectionKeys, firstId) == prev + cur;
      RecordsForSectionsLastScore(sessionId, table, sectionKeys[..n], firstId, sec, user);
      SectionLastScore(sessionId, sectionKeys[n], users, firstId + |prev|, sec, user);
      assert LastScore(prev, sec, user)
             == if sec in sectionKeys[..|sectionKeys| - 1] && user in table.entries[sec].entries
                then Some(table.entries[sec].entries[user]) else None;
      assert LastScore(cur, sec, user)
             == if sec == sectionKeys[n] && user in table.entries[sectionKeys[n]].entries
                then Some(table.entries[sectionKeys[n]].entries[user]) else None;
      SectionsStep(prev, cur, table, sectionKeys, sec, user);
    }
  }

  lemma SectionsStep(prev: seq<UserScoreRecord>, cur: seq<UserScoreRecord>, table: ScoreTable, sectionKeys: seq<Id>, sec: Id, user: Id)
    requires sectionKeys != []
    requires forall s | s in sectionKeys :: s in table.entries
    requires LastScore(prev, sec, user)
             == if sec in sectionKeys[..|sectionKeys| - 1] && user in table.entries[sec].entries
                then Some(table.entries[sec].entries[user]) else None
    requires var last := sectionKeys[|sectionKeys| - 1];
             LastScore(cur, sec, user)
             == if sec == last && user in table.entries[last].entries
                then Some(table.entries[last].entries[user]) else None
    ensures LastScore(prev + cur, sec, user)
            == if sec in sectionKeys && user in table.entries[sec].entries
               then Some(table.entries[sec].entries[user]) else None
  {
    LastScoreAppend(prev, cur, sec, user);
    InInitOrLast(sectionKeys, sec);
  }

  /** The batch for a table carries, for every (section, user) entry of the
      table, that entry's score, and for no other pair any score. */
  lemma FlattenLastScore(sessionId: Id, table: ScoreTable, firstId: nat, sec: Id, user: Id)
    requires TableValid(table)
    ensures LastScore(Flatten(sessionId, table, firstId), sec, user)
            == if sec in table.entries && user in table.entries[sec].entries
               then Some(table.entries[sec].entries[user]) else None
  {
    RecordsForSectionsLastScore(sessionId, table, table.keys, firstId, sec, user);
  }

  /** The scores a table holds, as `getScoresForSession` would present them:
      sections without users have no key. */
  function NonEmptySections(table: ScoreTable): SessionScores {
    map s | s in table.entries && table.entries[s].entries != map[] :: table.entries[s].entries
  }

  /** Round trip: writing a table into an otherwise empty collection and
      reading the session back gives the table's scores. */
  lemma {:induction false} RecordsForUsersSession(sessionId: Id, sectionId: Id, users: JsMap<Id, int>, userKeys: seq<Id>, firstId: nat)
    requires forall u | u in userKeys :: u in users.entries
    ensures forall x | x in RecordsForUsers(sessionId, sectionId, users, userKeys, firstId) :: x.sessionId == sessionId
  {
    if userKeys != [] {
      RecordsForUsersSession(sessionId, sectionId, users, userKeys[..|userKeys| - 1], firstId);
    }
  }

  /** Every record of the batch belongs to the flushed session. */
  lemma {:induction false} RecordsForSectionsSession(sessionId: Id, table: ScoreTable, sectionKeys: seq<Id>, firstId: nat)
    requires TableValid(table)
    requires forall s | s in sectionKeys :: s in table.entries
    ensures forall x | x in RecordsForSections(sessionId, table, sectionKeys, firstId) :: x.sessionId == sessionId
  {
    if sectionKeys != [] {
      var n := |sectionKeys| - 1;
      var prev := RecordsForSections(sessionId, table, sectionKeys[..n], firstId);
      var users := table.entries[sectionKeys[n]];
      RecordsForSectionsSession(sessionId, table, sectionKeys[..n], firstId);
      RecordsForUsersSession(sessionId, sectionKeys[n], users, users.keys, firstId + |prev|);
    }
  }

  /** Reading a batch back finds exactly the table's entries. */
  lemma FlattenLookup(sessionId: Id, table: ScoreTable, firstId: nat, sec: Id, user: Id)
    requires TableValid(table)
    ensures Lookup(ScoresForSession(Flatten(sessionId, table, firstId), sessionId), sec, user)
            == if sec in table.entries && user in table.entries[sec].entries
               then Some(table.entries[sec].entries[user]) else None
  {
    var docs := Flatten(sessionId, table, firstId);
    RecordsForSectionsSession(sessionId, table, table.keys, firstId);
    MatchingAllSame(docs, sessionId);
    ScoresForSessionLastWins(docs, sessionId, sec, user);
    FlattenLastScore(sessionId, table, firstId, sec, user);
  }

  /** No section of what `getScoresForSession` returns is empty. */
  lemma ScoresSectionsNonEmpty(records: seq<UserScoreRecord>, sessionId: Id)
    ensures forall s | s in ScoresForSession(records, sessionId) :: ScoresForSession(records, sessionId)[s] != map[]
  {
    FoldSectionsNonEmpty(map[], Matching(records, sessionId));
  }

  /** Two score maps without empty sections are equal when every lookup agrees. */
  lemma LookupExtensional(a: SessionScores, b: SessionScores)
    requires forall s | s in a :: a[s] != map[]
    requires forall s | s in b :: b[s] != map[]
    requires forall sec, user :: Lookup(a, sec, user) == Lookup(b, sec, user)
    ensures a == b
  {
    forall sec
      ensures sec in a <==> sec in b
    {
      if sec in a {
        var user :| user in a[sec];
        assert Lookup(a, sec, user).Some?;
      }
      if sec in b {
        var user :| user in b[sec];
        assert Lookup(b, sec, user).Some?;
      }
    }
    forall sec | sec in a
      ensures a[sec] == b[sec]
    {
      forall user
        ensures user in a[sec] <==> user in b[sec]
      {
        assert Lookup(a, sec, user) == Lookup(b, sec, user);
      }
      forall user | user in a[sec]
        ensures a[sec][user] == b[sec][user]
      {
        assert Lookup(a, sec, user) == Lookup(b, sec, user);
      }
    }
  }

  /** Round trip: writing a table into an otherwise empty collection and
      reading the session back gives the table's scores. */
  lemma FlattenReadBack(sessionId: Id, table: ScoreTable, firstId: nat)
    requires TableValid(table)
    ensures ScoresForSession(Flatten(sessionId, table, firstId), sessionId) == NonEmptySections(table)
  {
    var r := ScoresForSession(Flatten(sessionId, table, firstId), sessionId);
    var n := NonEmptySections(table);
    ScoresSectionsNonEmpty(Flatten(sessionId, table, firstId), sessionId);
    forall sec, user
      ensures Lookup(r, sec, user) == Lookup(n, sec, user)
    {
      FlattenLookup(sessionId, table, firstId, sec, user);
    }
    LookupExtensional(r, n);
  }

  lemma {:induction false} MatchingAllSame(docs: seq<UserScoreRecord>, sessionId: Id)
    requires forall x | x in docs :: x.sessionId == sessionId
    ensures Matching(docs, sessionId) == docs
  {
    if docs != [] {
      MatchingAllSame(docs[..|docs| - 1], sessionId);
    }
  }

  /** After a flush, reading the session back yields the table's score for
      every (section, user) entry of the table, whatever was stored before:
      the batch is written after all earlier records. */
  lemma {:induction false} FlushReadBack(records: seq<UserScoreRecord>, sessionId: Id, table: ScoreTable, firstId: nat, sec: Id, user: Id)
    requires TableValid(table)
    requires sec in table.entries && user in table.entries[sec].entries
    ensures Lookup(ScoresForSession(records + Flatten(sessionId, table, firstId), sessionId), sec, user)
            == Some(table.entries[sec].entries[user])
  {
    var batch := Flatten(sessionId, table, firstId);
    RecordsForSectionsSession(sessionId, table, table.keys, firstId);
    MatchingAppend(records, batch, sessionId);
    MatchingAllSame(batch, sessionId);
    ScoresForSessionLastWins(records + batch, sessionId, sec, user);
    LastScoreAppend(Matching(records, sessionId), batch, sec, user);
    FlattenLastScore(sessionId, table, firstId, sec, user);
  }

  lemma RecordsForUsersSnoc(sessionId: Id, sectionId: Id, users: JsMap<Id, int>, firstId: nat, j: nat)
    requires users.Valid() && j < |users.keys|
    ensures RecordsForUsers(sessionId, sectionId, users, users.keys[..j + 1], firstId)
            == RecordsForUsers(sessionId, sectionId, users, users.keys[..j], firstId)
               + [UserScoreRecord(firstId + j, sessionId, sectionId, users.keys[j], users.entries[users.keys[j]])]
  {
    assert users.keys[..j + 1][..j] == users.keys[..j];
  }

  lemma {:induction false} RecordsForSectionsSnoc(sessionId: Id, table: ScoreTable, firstId: nat, i: nat, prev: seq<UserScoreRecord>)
    requires TableValid(table) && i < |table.keys|
    requires prev == RecordsForSections(sessionId, table, table.keys[..i], firstId)
    ensures RecordsForSections(sessionId, table, table.keys[..i + 1], firstId)
            == prev + RecordsForUsers(sessionId, table.keys[i], table.entries[table.keys[i]], table.entries[table.keys[i]].keys,
                                      firstId + |prev|)
  {
    var keys := table.keys[..i + 1];
    assert keys[..i] == table.keys[..i];
    assert keys[i] == table.keys[i];
  }

  /** The outer `forEach` of `writeBulkUserScoreForSession` that fills the
      batch: one record per (section, user) entry, in map order. */
  method BuildBatch(sessionId: Id, table: ScoreTable, firstId: nat) returns (batch: seq<UserScoreRecord>)
    requires TableValid(table)
    ensures batch == Flatten(sessionId, table, firstId)
  {
    batch := [];
    var i := 0;
    assert table.keys[..0] == [];
    while i < |table.keys|
      invariant 0 <= i <= |table.keys|
      invariant batch == RecordsForSections(sessionId, table, table.keys[..i], firstId)
    {
      var sectionId := table.keys[i];
      ghost var prev := batch;
      batch := AddSectionRecords(batch, sessionId, sectionId, table.entries[sectionId], firstId);
      RecordsForSectionsSnoc(sessionId, table, firstId, i, prev);
      i := i + 1;
    }
    assert table.keys[..i] == table.keys;
  }

  /** The inner `forEach`: a record for each user of one section, each
      with the next fresh document id. */
  method AddSectionRecords(batch: seq<UserScoreRecord>, sessionId: Id, sectionId: Id, userScores: JsMap<Id, int>, firstId: nat)
    returns (r: seq<UserScoreRecord>)
    requires userScores.Valid()
    ensures r == batch + RecordsForUsers(sessionId, sectionId, userScores, userScores.keys, firstId + |batch|)
  {
    r := batch;
    var j := 0;
    assert userScores.keys[..0] == [];
    while j < |userScores.keys|
      invariant 0 <= j <= |userScores.keys|
      invariant r == batch + RecordsForUsers(sessionId, sectionId, userScores, userScores.keys[..j], firstId + |batch|)
    {
      var userId := userScores.keys[j];
      RecordsForUsersSnoc(sessionId, sectionId, userScores, firstId + |batch|, j);
      r := r + [UserScoreRecord(firstId + |r|, sessionId, sectionId, userId, userScores.entries[userId])];
      j := j + 1;
    }
    assert userScores.keys[..j] == userScores.keys;
  }

  /* ---------- writeUserScoreForSession ---------- */

  predicate SameTriple(x: UserScoreRecord, input: ScoreInput) {
    x.sessionId == input.sessionId && x.sectionId == input.sectionId && x.userId == input.userId
  }

  /** The position of the first record for the input's (session, section,
      user) triple (`userScoreQuery.docs[0]`). */
  function FirstMatch(records: seq<UserScoreRecord>, input: ScoreInput): (r: Option<nat>)
    ensures r.Some? ==> r.value < |records| && SameTriple(records[r.value], input)
    ensures r.Some? ==> forall k | 0 <= k < r.value :: !SameTriple(records[k], input)
    ensures r.None? ==> forall k | 0 <= k < |records| :: !SameTriple(records[k], input)
  {
    if records == [] then None
    else if SameTriple(records[0], input) then Some(0)
    else match FirstMatch(records[1..], input)
      case None => None
      case Some(i) => Some(i + 1)
  }

  datatype Upserted = Upserted(records: seq<UserScoreRecord>, written: UserScoreRecord, nextId: nat)

  /** The collection after `writeUserScoreForSession`: a new record with a
      fresh id when nothing matches the triple; otherwise the first match
      gets the new score and keeps its id and other fields. */
  function Upsert(records: seq<UserScoreRecord>, input: ScoreInput, nextId: nat): (u: Upserted)
    ensures FirstMatch(records, input).None? ==>
              && u.written == UserScoreRecord(nextId, input.sessionId, input.sectionId, input.userId, input.score)
              && u.records == records + [u.written] && u.nextId == nextId + 1
    ensures FirstMatch(records, input).Some? ==>
              var i := FirstMatch(records, input).value;
              && u.written == records[i].(score := input.score)
              && |u.records| == |records| && u.records[i] == u.written && u.nextId == nextId
              && forall k | 0 <= k < |records| && k != i :: u.records[k] == records[k]
  {
    match FirstMatch(records, input)
    case None =>
      var created := UserScoreRecord(nextId, input.sessionId, input.sectionId, input.userId, input.score);
      Upserted(records + [created], created, nextId + 1)
    case Some(i) =>
      var updated := records[i].(score := input.score);
      Upserted(records[i := updated], updated, nextId)
  }

  /** When at most one record exists for the triple, reading the session
      back after the upsert yields the new score. */
  lemma UpsertReadBack(records: seq<UserScoreRecord>, input: ScoreInput, nextId: nat)
    requires forall i, j | 0 <= i < j < |records| :: !(SameTriple(records[i], input) && SameTriple(records[j], input))
    ensures Lookup(ScoresForSession(Upsert(records, input, nextId).records, input.sessionId), input.sectionId, input.userId)
            == Some(input.score)
  {
    var u := Upsert(records, input, nextId);
    ScoresForSessionLastWins(u.records, input.sessionId, input.sectionId, input.userId);
    match FirstMatch(records, input)
    case None =>
      MatchingSnoc(records, u.written, input.sessionId);
    case Some(i) =>
      var a, b := records[..i], records[i + 1..];
      assert u.records == a + [u.written] + b;
      forall x | x in b
        ensures !SameTriple(x, input)
      {
        var k :| 0 <= k < |b| && b[k] == x;
        assert records[i + 1 + k] == x;
      }
      UpsertReadBackSplit(a, u.written, b, input);
  }

  lemma UpsertReadBackSplit(a: seq<UserScoreRecord>, w: UserScoreRecord, b: seq<UserScoreRecord>, input: ScoreInput)
    requires SameTriple(w, input)
    requires forall x | x in b :: !SameTriple(x, input)
    ensures LastScore(Matching(a + [w] + b, input.sessionId), input.sectionId, input.userId) == Some(w.score)
  {
    var mb := Matching(b, input.sessionId);
    MatchingAppend(a + [w], b, input.sessionId);
    MatchingSnoc(a, w, input.sessionId);
    forall x | x in mb
      ensures x.sessionId == input.sessionId && !SameTriple(x, input)
    {
      MatchingMembers(b, input.sessionId, x);
    }
    NoTripleNoScore(mb, input);
    LastScoreAppend(Matching(a, input.sessionId) + [w], mb, input.sectionId, input.userId);
  }

  lemma {:induction false} NoTripleNoScore(docs: seq<UserScoreRecord>, input: ScoreInput)
    requires forall x | x in docs :: x.sessionId == input.sessionId
    requires forall x | x in docs :: !SameTriple(x, input)
    ensures LastScore(docs, input.sectionId, input.userId).None?
  {
    if docs != [] {
      var init := docs[..|docs| - 1];
      assert forall x | x in init :: x in docs;
      assert docs[|docs| - 1] in docs;
      NoTripleNoScore(init, input);
    }
  }

  /** When two records already exist for the triple, the upsert changes the
      first while reads take the last: the new score is not what a later
      `getScoresForSession` returns (if the two scores differ). */
  lemma UpsertShadowedByLaterDuplicate(first: UserScoreRecord, second: UserScoreRecord, input: ScoreInput, nextId: nat)
    requires SameTriple(first, input) && SameTriple(second, input)
    requires second.score != input.score
    ensures Lookup(ScoresForSession(Upsert([first, second], input, nextId).records, input.sessionId), input.sectionId, input.userId)
            == Some(second.score)
  {
    var u := Upsert([first, second], input, nextId);
    assert u.records == [first.(score := input.score), second];
    ScoresForSessionLastWins(u.records, input.sessionId, input.sectionId, input.userId);
    assert Matching(u.records, input.sessionId) == u.records by {
      MatchingAllSame(u.records, input.sessionId);
    }
  }

  /* ---------- the collection ---------- */

  class UserScoreStore {
    var records: seq<UserScoreRecord>  // the "userScores" collection, in query order
    var nextId: nat                    // every id below it has been handed out

    /** Document ids are unique and all were handed out. */
    ghost predicate Valid()
      reads this
    {
      && (forall k | 0 <= k < |records| :: records[k].id < nextId)
      && (forall i, j | 0 <= i < j < |records| :: records[i].id != records[j].id)
    }

    constructor ()
      ensures Valid() && records == [] && nextId == 0
    {
      records, nextId := [], 0;
    }

    /** `writeBulkUserScoreForSession`: one batch, committed at once, with
        a record for every (section, user) entry of the table. */
    method WriteBulkUserScoreForSession(sessionId: Id, sectionUserScores: ScoreTable)
      requires Valid() && TableValid(sectionUserScores)
      modifies this
      ensures Valid()
      ensures records == old(records) + Flatten(sessionId, sectionUserScores, old(nextId))
      ensures nextId == old(nextId) + |Flatten(sessionId, sectionUserScores, old(nextId))|
    {
      var batch := BuildBatch(sessionId, sectionUserScores, nextId);
      RecordsForSectionsIds(sessionId, sectionUserScores, sectionUserScores.keys, nextId);
      assert batch == RecordsForSections(sessionId, sectionUserScores, sectionUserScores.keys, nextId);
      ghost var before := records;
      records := records + batch;
      nextId := nextId + |batch|;
      forall k | |before| <= k < |records|
        ensures records[k].id == old(nextId) + (k - |before|)
      {
        assert records[k] == batch[k - |before|];
      }
    }

    /** `writeUserScoreForSession` */
    method WriteUserScoreForSession(userScore: ScoreInput) returns (written: UserScoreRecord)
      requires Valid()
      modifies this
      ensures Valid()
      ensures records == Upsert(old(records), userScore, old(nextId)).records
      ensures nextId == Upsert(old(records), userScore, old(nextId)).nextId
      ensures written == Upsert(old(records), userScore, old(nextId)).written
    {
      var found := FirstMatch(records, userScore);
      if found.None? {
        written := UserScoreRecord(nextId, userScore.sessionId, userScore.sectionId, userScore.userId, userScore.score);
        records := records + [written];
        nextId := nextId + 1;
      } else {
        written := records[found.value].(score := userScore.score);
        records := records[found.value := written];
      }
    }
  }
}

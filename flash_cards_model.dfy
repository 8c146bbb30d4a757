/** The flash-card store and the operations on it: the model object that runs
    a drill session, and the two routines that bring the word list into the
    `words` table. */
module FlashCardsModel {
  import opened Tables
  import opened WordSync
  import opened Reports

  /** The store file with its three tables. A session's rowid is its position
      in `sessions` plus one: rows are only ever appended. */
  class Database {
    var words: map<int, WordRow>
    var sessions: seq<string>
    var scores: seq<ScoreRow>

    /** An existing store file with the given contents. */
    constructor (words: map<int, WordRow>, sessions: seq<string>, scores: seq<ScoreRow>)
      ensures this.words == words && this.sessions == sessions && this.scores == scores
    {
      this.words := words;
      this.sessions := sessions;
      this.scores := scores;
    }
  }

  /** The object the drill loop talks to; it is bound to one store. */
  class FlashCardsModel {
    const db: Database

    constructor (db: Database)
      ensures this.db == db
    {
      this.db := db;
    }

    /** Start a session dated `now` and return the rowid of the row with the
        latest date, which is what the lookup after the insert reads back. */
    method NewSessionAsWritten(now: string) returns (rowid: int)
      modifies db
      ensures db.sessions == old(db.sessions) + [now]
      ensures db.words == old(db.words) && db.scores == old(db.scores)
      ensures 1 <= rowid <= |db.sessions|
      ensures forall k :: 0 <= k < |db.sessions| ==> !TextLess(db.sessions[rowid - 1], db.sessions[k])
    {
      db.sessions := db.sessions + [now];
      rowid := MaxDateRow(db.sessions);
    }

    /** Start a session dated `now` and return the rowid of the row just
        inserted: one more than every rowid in use before. */
    method NewSession(now: string) returns (rowid: int)
      modifies db
      ensures db.sessions == old(db.sessions) + [now]
      ensures db.words == old(db.words) && db.scores == old(db.scores)
      ensures rowid == |db.sessions| && db.sessions[rowid - 1] == now
      ensures rowid > |old(db.sessions)|
    {
      db.sessions := db.sessions + [now];
      rowid := |db.sessions|;
    }

    /** Some `(id, word)` pair of the `words` table, or nothing when the table
        is empty. Which pair is picked is left open. */
    method GetRandomWord() returns (r: Option<(int, string)>)
      ensures r.None? <==> db.words == map[]
      ensures r.Some? ==> r.value.0 in db.words && db.words[r.value.0].word == r.value.1
    {
      if db.words == map[] {
        return None;
      }
      SomeWordIn(db.words);
      var wordId :| wordId in db.words;
      r := Some((wordId, db.words[wordId].word));
    }

    /** Record one attempt: exactly one score row is appended. */
    method ScoreWord(sessionId: int, wordId: int, success: bool)
      modifies db
      ensures db.scores == old(db.scores) + [ScoreRow(sessionId, wordId, if success then 1 else 0)]
      ensures db.words == old(db.words) && db.sessions == old(db.sessions)
    {
      db.scores := db.scores + [ScoreRow(sessionId, wordId, if success then 1 else 0)];
    }

    /** The fraction of the session's attempts that were correct; an error
        when the session has no attempts. */
    function GetSessionScore(sessionId: int): (r: Result<real>)
      reads db
      ensures r.Err? <==> forall i :: 0 <= i < |db.scores| ==> db.scores[i].sessionRowid != sessionId
      ensures r.Err? ==> r.error == NoAttempts
      ensures r.Ok? ==>
                |RowsOf(db.scores, sessionId)| > 0 &&
                r.value == |CorrectRowsOf(db.scores, sessionId)| as real / |RowsOf(db.scores, sessionId)| as real
      ensures r.Ok? ==> 0.0 <= r.value <= 1.0
    {
      SessionRowsCounted(db.scores, sessionId);
      var count := Attempts(db.scores, sessionId);
      var correct := CorrectSum(db.scores, sessionId);
      if count == 0 then Err(NoAttempts)
      else Ok(correct as real / count as real)
    }

    /** The `(word_id, word)` pairs of the session's incorrect attempts, one
        per attempt whose word is in the `words` table, in no promised order. */
    method GetIncorrectWords(sessionId: int) returns (incorrect: seq<(int, string)>)
      ensures forall e :: multiset(incorrect)[e] == MissCount(db.scores, db.words, sessionId, e)
    {
      incorrect := [];
      var i := 0;
      while i < |db.scores|
        invariant 0 <= i <= |db.scores|
        invariant incorrect == IncorrectJoin(db.scores[..i], db.words, sessionId)
      {
        var row := db.scores[i];
        if row.sessionRowid == sessionId && row.correct == 0 && row.wordId in db.words {
          incorrect := incorrect + [(row.wordId, db.words[row.wordId].word)];
        }
        assert db.scores[..i + 1][..i] == db.scores[..i];
        i := i + 1;
      }
      assert db.scores[..i] == db.scores;
      forall e {
        IncorrectJoinCounts(db.scores, db.words, sessionId, e);
      }
    }
  }

  /** Drop and recreate the three tables, then insert every record. A repeated
      id breaks the primary key: the inserts are rolled back, the recreated
      tables stay empty and the error is reported. */
  method EraseAndRecreateTables(db: Database, records: seq<Record>) returns (outcome: Outcome)
    modifies db
    ensures db.sessions == [] && db.scores == []
    ensures outcome.Pass? <==> DistinctNumbers(records)
    ensures LoadWords(records).Ok? ==> outcome == Pass && db.words == LoadWords(records).value
    ensures LoadWords(records).Err? ==> outcome == Fail(LoadWords(records).error) && db.words == map[]
  {
    db.words := map[];
    db.sessions := [];
    db.scores := [];
    LoadWordsFailsIffDuplicate(records);
    var i := 0;
    while i < |records|
      invariant 0 <= i <= |records|
      invariant db.sessions == [] && db.scores == []
      invariant LoadWords(records[..i]) == Ok(db.words)
    {
      var rec := records[i];
      assert records[..i + 1][..i] == records[..i];
      if rec.number in db.words {
        db.words := map[];
        LoadWordsErrSticks(records, i + 1);
        return Fail(DuplicateId(rec.number));
      }
      db.words := db.words[rec.number := WordRow(rec.level, rec.word)];
      i := i + 1;
    }
    assert records[..i] == records;
    outcome := Pass;
  }

  /** Bring the `words` table in line with the records: insert unknown ids,
      rewrite the text of known ids whose text changed, and report how many
      records were checked, updated and added. Sessions and scores are not
      touched. */
  method UpdateWordList(db: Database, records: seq<Record>) returns (checked: nat, updated: nat, added: nat)
    modifies db
    ensures SyncState(db.words, checked, updated, added) == Sync(old(db.words), records)
    ensures db.sessions == old(db.sessions) && db.scores == old(db.scores)
    ensures checked == |records| && added == |Numbers(records) - old(db.words).Keys|
    ensures DistinctNumbers(records) ==> updated == |Rewrites(old(db.words), records)|
  {
    checked, updated, added := 0, 0, 0;
    var i := 0;
    while i < |records|
      invariant 0 <= i <= |records|
      invariant SyncState(db.words, checked, updated, added) == Sync(old(db.words), records[..i])
      invariant db.sessions == old(db.sessions) && db.scores == old(db.scores)
    {
      var rec := records[i];
      checked := checked + 1;
      if rec.number in db.words {
        var row := db.words[rec.number];
        if row.word != rec.word {
          db.words := db.words[rec.number := row.(word := rec.word)];
          updated := updated + 1;
        }
      } else {
        db.words := db.words[rec.number := WordRow(rec.level, rec.word)];
        added := added + 1;
      }
      assert records[..i + 1][..i] == records[..i];
      i := i + 1;
    }
    assert records[..i] == records;
    SyncCounters(old(db.words), records);
    SyncAddedCountsNewIds(old(db.words), records);
    if DistinctNumbers(records) {
      SyncUpdatedCountsRewrites(old(db.words), records);
    }
  }

  /** The store keeps a session dated "2024-11-03T01:30:00.250000"; the clock,
      set back an hour at the end of daylight saving time, now reads
      "2024-11-03T01:10:00.250000". The lookup after the insert names row 1,
      not the new row 2. */
  lemma NewSessionAsWrittenMissesNewRow(older: string, now: string)
    requires older == "2024-11-03T01:30:00.250000" && now == "2024-11-03T01:10:00.250000"
    ensures MaxDateRow([older, now]) == 1
  {
    assert now[14] == '1' && older[14] == '3';
    assert older[..14] == now[..14];
    TextLessPrefix(now, older, 14);
    NewSessionAsWrittenMissesWhenClockIsBehind([older], now, 0);
  }

  /** Whenever the clock reads earlier than some stored date, the lookup
      after the insert does not name the new row. */
  lemma NewSessionAsWrittenMissesWhenClockIsBehind(sessions: seq<string>, now: string, k: int)
    requires 0 <= k < |sessions| && TextLess(now, sessions[k])
    ensures MaxDateRow(sessions + [now]) != |sessions| + 1
  {
    var all := sessions + [now];
    assert all[k] == sessions[k] && all[|sessions|] == now;
  }

  /** Two sessions started in a row get distinct rowids, the second larger. */
  method TwoSessionsGetIncreasingIds(model: FlashCardsModel, first: string, second: string) returns (a: int, b: int)
    modifies model.db
    ensures a < b
  {
    a := model.NewSession(first);
    b := model.NewSession(second);
  }
}

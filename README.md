# Flash-card drill store, modelled in Dafny

This project models the data layer of a small flash-card drill utility. The utility keeps
three relational tables:

- `words(_id, level, word)`, with `_id` as the primary key;
- `sessions(date)`, one row per drill run, identified by its rowid;
- `scores(session_rowid, word_id, correct)`, one row per question asked.

Two routines load a word list into `words`:

- `update_word_list` is a non-destructive upsert by id. It keeps three counters: checked,
  updated and added.
- `erase_and_recreate_tables` drops all three tables, recreates them and bulk-inserts every
  record.

A `FlashCardsModel` object runs a drill. It starts a session, picks a random word and records
each right or wrong answer. At the end it reports the session's accuracy and the words that
were missed.

The tables are the fields of a `Database` class. A session's rowid is its position in
`sessions` plus one. The model object holds that database, and its methods change it in place.
The two loaders are module-level methods over the same database object. Each loader's loop is
proved against a specification function on the table's value:

- `WordSync.Sync` for the upsert;
- `WordSync.LoadWords` for the bulk insert.

The properties of those functions are lemmas. The read-only queries are a function
(`GetSessionScore`) and two read-only methods (`GetRandomWord`, and `GetIncorrectWords`, which
has a loop). Their contracts count index sets of matching score rows (`RowsOf`,
`CorrectRowsOf`, and `MissedRowsOf` through `MissCount`). The `IncorrectJoin` function, which
follows the query row by row, appears only in the loop invariant of `GetIncorrectWords`.

The counters of `update_word_list` mean what their names say. `checked` is the number of
records and `added` the number of ids new to the table. When the Numbers are distinct,
`updated` is the number of records whose id held a different text. The counters are not
idempotent, however. When two records share a Number but differ in text, every later run
rewrites that row twice, and reports two updates each time (`WordSync.SyncConflictingDuplicatesUpdateAgain`).

Files:

- `tables.dfy` (module `Tables`): the row types, the errors, and the text order used to compare
  dates (the store's binary collation).
- `word_sync.dfy` (module `WordSync`): the upsert and the bulk load as functions, with their
  lemmas.
- `reports.dfy` (module `Reports`): `COUNT`, `SUM`, the incorrect-words join and the
  `MAX(date)` lookup, with their lemmas.
- `flash_cards_model.dfy` (module `FlashCardsModel`): the `Database` and `FlashCardsModel`
  classes, the two loader methods, and the counterexample for the session-id finding.

On these edge and error paths the model follows the code:

- `get_incorrect_words` keeps one entry per incorrect attempt, duplicates included. It does not
  deduplicate by word.
- `get_random_word` on an empty table does not raise a dedicated error. The code indexes the
  `None` that `fetchone()` returns. The model returns `None`.
- `get_session_score` on a session with no rows fails in `float(None)`, because `SUM` over no
  rows is NULL. It fails before any division is reached. The model returns `Err(NoAttempts)`.
- `new_session` returns the rowid of the row with the latest date, not the rowid of the row it
  inserted. See "## Findings".

`erase_and_recreate_tables` and a repeated `Number` interact as follows. The `DROP`/`CREATE`
statements run and commit before the first `INSERT` opens a transaction. The failing insert
raises, and the connection's context manager rolls back the inserts already made. The model
therefore leaves all three tables empty and reports `DuplicateId` for the first record whose id
is already present.

## Model

| member | source | states |
|---|---|---|
| `Tables.TextLessIrreflexive` | src/flash_cards_model.py:19 | no date is later than itself under the text order that `MAX(date)` uses |
| `Tables.TextLessTransitive` | src/flash_cards_model.py:19 | the date order is transitive, so one latest date dominates all others |
| `Tables.TextLessTotal` | src/flash_cards_model.py:19 | any two different dates are ordered one way or the other |
| `Tables.TextLessPrefix` | src/flash_cards_model.py:19 | dates that share a prefix compare as their remainders do (used on ISO timestamps of one day) |
| `WordSync.SyncKeys` | src/flash_cards_model.py:167-181 | after a sync, the table's ids are the old ids plus the id of every record; nothing is deleted |
| `WordSync.SyncCounters` | src/flash_cards_model.py:161-181 | `checked` is the number of records, `updated + added <= checked`, and the table grows by exactly `added` rows |
| `WordSync.SyncAddedCountsNewIds` | src/flash_cards_model.py:170-181 | `added` equals the number of record ids that were not in the table before |
| `WordSync.SyncUpdatedCountsRewrites` | src/flash_cards_model.py:170-175 | with distinct Numbers, `updated` equals the number of records whose id was in the table with a different text |
| `WordSync.SyncLastTextWins` | src/flash_cards_model.py:167-181 | every record's id is present afterwards and holds the text of the last record with that id |
| `WordSync.SyncKeepsLevels` | src/flash_cards_model.py:172-175 | an id already in the table keeps its level, whatever its records say |
| `WordSync.SyncNewLevelFromFirst` | src/flash_cards_model.py:179-181 | an id new to the table gets the level of its first record |
| `WordSync.SyncLeavesOthers` | src/flash_cards_model.py:167-181 | an id no record mentions is neither added, removed nor changed |
| `WordSync.SyncAgreeingIsNoop` | src/flash_cards_model.py:172-178 | when every record matches its row's text, the table is unchanged and both `updated` and `added` stay 0 |
| `WordSync.SyncIdempotentWords` | src/flash_cards_model.py:167-181 | a second sync over the same records leaves the table as the first left it and adds nothing |
| `WordSync.SyncIdempotent` | src/flash_cards_model.py:172-178 | if records sharing an id share a text, the second sync also reports `updated = 0` and `added = 0` |
| `WordSync.SyncConflictingDuplicatesUpdateAgain` | src/flash_cards_model.py:172-175 | with two records for id 1 whose texts differ, the second sync reports 2 updates |
| `WordSync.LoadWordsFailsIffDuplicate` | src/flash_cards_model.py:120-149 | the bulk load fails with the primary-key error exactly when two records share a Number, names a shared id, and on success holds exactly the record ids |
| `WordSync.LoadWordsErrSticks` | src/flash_cards_model.py:148-149 | once a prefix of the records fails to load, the whole load fails with the same error |
| `WordSync.LoadWordsVerbatim` | src/flash_cards_model.py:148-149 | on success every record's id maps to that record's level and text verbatim |
| `WordSync.SyncOfEmptyIsLoad` | src/flash_cards_model.py:148-181 | on an empty table, a sync of distinct records builds the same table as the bulk load, with `added` equal to the record count and `updated = 0` |
| `Reports.AttemptsCountsRows` | src/flash_cards_model.py:84-86 | `COUNT(*)` for a session equals the number of score rows carrying that session's rowid |
| `Reports.CorrectSumCountsCorrectRows` | src/flash_cards_model.py:88-90 | `SUM(correct)` for a session equals the number of its rows with `correct = 1` |
| `Reports.SessionRowsCounted` | src/flash_cards_model.py:84-92 | the count is 0 exactly when no row has the session's rowid; the correct count never exceeds it; their ratio lies in [0, 1] |
| `Reports.RecordingAddsOneAttempt` | src/flash_cards_model.py:61-73 | appending a score row adds one attempt to its session and none to any other, and one correct row exactly when it succeeded |
| `Reports.IncorrectJoinCounts` | src/flash_cards_model.py:103-108 | the join yields a pair as often as its word has incorrect rows in the session, if the pair is the word's current entry, and never otherwise |
| `Reports.IncorrectJoinMembers` | src/flash_cards_model.py:103-108 | a pair is listed iff its word exists with that text and has at least one incorrect row in the session; a word always answered correctly is never listed |
| `Reports.MaxDateRow` | src/flash_cards_model.py:19 | `SELECT ROWID, MAX(date)` names a row that exists and whose date no other row's date exceeds |
| `Reports.MaxDateRowIsLatest` | src/flash_cards_model.py:19 | every session's date is equal to, or earlier than, the date of the row the lookup names |
| `Reports.MaxDateRowKeepsEarlierOnTie` | src/flash_cards_model.py:42-44 | a new date equal to a stored date is not the one named: the lookup returns an older rowid |
| `FlashCardsModel.FlashCardsModel.constructor` | src/flash_cards_model.py:29-32 | the model is bound to the given store |
| `FlashCardsModel.FlashCardsModel.NewSessionAsWritten` | src/flash_cards_model.py:34-49 | appends exactly one session row dated `now`, changes no other table, and returns the rowid of a row with the latest date |
| `FlashCardsModel.FlashCardsModel.NewSession` | src/flash_cards_model.py:34-49 | appends exactly one session row dated `now`, changes no other table, and returns that row's rowid, which is larger than every earlier one |
| `FlashCardsModel.FlashCardsModel.GetRandomWord` | src/flash_cards_model.py:51-59 | returns nothing exactly when `words` is empty, otherwise some `(id, word)` pair that is a row of `words`; changes nothing |
| `FlashCardsModel.FlashCardsModel.ScoreWord` | src/flash_cards_model.py:61-73 | appends exactly the row `(session_id, word_id, 1 if success else 0)` to `scores` and changes nothing else |
| `FlashCardsModel.FlashCardsModel.GetSessionScore` | src/flash_cards_model.py:75-92 | an error exactly when the session has no score rows, otherwise (rows with `correct = 1`) / (rows of the session), a value in [0, 1] |
| `FlashCardsModel.FlashCardsModel.GetIncorrectWords` | src/flash_cards_model.py:94-108 | each `(id, word)` pair occurs once per incorrect attempt of the session at a word that is in `words` with that text, and no other pair occurs |
| `FlashCardsModel.EraseAndRecreateTables` | src/flash_cards_model.py:112-152 | sessions and scores end empty; succeeds iff the Numbers are distinct, and then `words` is the bulk load of the records; otherwise `words` is empty and the primary-key error is returned |
| `FlashCardsModel.UpdateWordList` | src/flash_cards_model.py:154-187 | the new table and the three counters are those of `Sync` over the old table; `checked` is the record count, `added` the number of new ids, and with distinct Numbers `updated` the number of text rewrites; sessions and scores are unchanged |
| `FlashCardsModel.NewSessionAsWrittenMissesNewRow` | src/flash_cards_model.py:42-44 | with a stored session at 01:30 and the clock set back to 01:10, the lookup returns rowid 1, not the new row 2 |
| `FlashCardsModel.NewSessionAsWrittenMissesWhenClockIsBehind` | src/flash_cards_model.py:42-44 | whenever the new date is earlier than some stored date, the lookup does not return the new row |
| `FlashCardsModel.TwoSessionsGetIncreasingIds` | src/flash_cards_model.py:34-49 | two sessions started in a row get distinct rowids, the second larger |

## Left out

- The SQLite connection, cursor and commit calls. The tables are plain fields, and every write is visible at once.
- CSV opening, BOM-tolerant decoding and `DictReader` parsing. The loaders take an already parsed sequence of `(Number, Level, Word)` records, so a missing file or a missing field is not modelled.
- The SQL text built with `str.format`. The model assumes every text reaches the table verbatim. A word containing `"` breaks that assumption. So does a word that the `UPDATE ... SET word="..."` statement would resolve as an identifier: any column name or rowid alias (`rowid`, `oid`, `_rowid_`), in any case. Neither case is modelled.
- The uniform distribution of `ORDER BY RANDOM()`. `GetRandomWord` makes a nondeterministic choice of a row.
- `datetime.now()`. The session date is the parameter `now`.
- Reports.MaxDateRow: among rows with equal dates it keeps the first, as the store's `max` does. Its contract promises only that the row has a latest date, because the store does not document which row it picks on a tie.
- Float division and the percentage formatting. The score is an exact `real`.
- The console loop `test()` and every `print`. `UpdateWordList` returns its three counters instead of printing them.
- The unused `ctypes.wintypes` import, and the `db_file` argument, which the constructor ignores.
- The order of the pairs `get_incorrect_words` returns, which the query does not promise. The contracts speak of counts (a multiset), not positions.
- The 64-bit range of SQLite integers. Ids, levels and rowids are unbounded.
- Referential integrity. As in the source, a score row may name a session or word that does not exist.

## Findings

| source | as written | input that shows it | evidently intended | confidence | as-written member | corrected member |
|---|---|---|---|---|---|---|
| src/flash_cards_model.py:42-49 | after inserting the session, `new_session` reads back `SELECT ROWID, MAX(date)` and returns that rowid | stored session dated `2024-11-03T01:30:00.250000`; the local clock, set back at the end of daylight saving time, gives `2024-11-03T01:10:00.250000`; rowid 1 is returned instead of the new row 2, and the drill's scores go to the old session. A new date equal to a stored one also names the older row | return the rowid of the row just inserted, as the docstring says ("the rowID for the new session") | not executed; follows from the query's meaning whenever the clock reads earlier than a stored date | `FlashCardsModel.FlashCardsModel.NewSessionAsWritten` (counterexample: `FlashCardsModel.NewSessionAsWrittenMissesNewRow`, general case: `FlashCardsModel.NewSessionAsWrittenMissesWhenClockIsBehind`, tie: `Reports.MaxDateRowKeepsEarlierOnTie`) | `FlashCardsModel.FlashCardsModel.NewSession` (property also in `FlashCardsModel.TwoSessionsGetIncreasingIds`) |

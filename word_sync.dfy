/** The two ways the word list reaches the `words` table, as functions on the
    table's value: the upsert of `update_word_list` and the bulk insert of
    `erase_and_recreate_tables`. */
module WordSync {
  import opened Tables

  /** The `words` table together with the three counters of `update_word_list`. */
  datatype SyncState = SyncState(words: map<int, WordRow>, checked: nat, updated: nat, added: nat)

  /** One pass of the loop body: count the record; an unknown id is inserted
      with its level and text; a known id whose text differs gets the new text
      and keeps its level; a known id with the same text is left alone. */
  function SyncRecord(st: SyncState, rec: Record): SyncState
  {
    if rec.number in st.words then
      if st.words[rec.number].word != rec.word then
        SyncState(st.words[rec.number := st.words[rec.number].(word := rec.word)],
                  st.checked + 1, st.updated + 1, st.added)
      else
        st.(checked := st.checked + 1)
    else
      SyncState(st.words[rec.number := WordRow(rec.level, rec.word)],
                st.checked + 1, st.updated, st.added + 1)
  }

  /** `update_word_list` run over `records`, starting from the table `words`
      with every counter at zero. */
  function Sync(words: map<int, WordRow>, records: seq<Record>): SyncState
    decreases |records|
  {
    if |records| == 0 then SyncState(words, 0, 0, 0)
    else SyncRecord(Sync(words, records[..|records| - 1]), records[|records| - 1])
  }

  /** The records after position `k` do not mention the id of record `k`. */
  ghost predicate LastOccurrence(records: seq<Record>, k: int)
    requires 0 <= k < |records|
  {
    forall j :: k < j < |records| ==> records[j].number != records[k].number
  }

  /** The records before position `k` do not mention the id of record `k`. */
  ghost predicate FirstOccurrence(records: seq<Record>, k: int)
    requires 0 <= k < |records|
  {
    forall j :: 0 <= j < k ==> records[j].number != records[k].number
  }

  /** Records that share a Number also share a Word. */
  ghost predicate ConsistentTexts(records: seq<Record>)
  {
    forall j, k :: 0 <= j < |records| && 0 <= k < |records| && records[j].number == records[k].number ==>
      records[j].word == records[k].word
  }

  /** Every record already sits in `words` with the same text. */
  ghost predicate Agrees(words: map<int, WordRow>, records: seq<Record>)
  {
    forall k :: 0 <= k < |records| ==> records[k].number in words && words[records[k].number].word == records[k].word
  }

  lemma PrefixOfSnoc(records: seq<Record>)
    requires |records| > 0
    ensures Numbers(records) == Numbers(records[..|records| - 1]) + {records[|records| - 1].number}
  {
    var p := records[..|records| - 1];
    forall x | x in Numbers(records) ensures x in Numbers(p) + {records[|records| - 1].number} {
      var k :| 0 <= k < |records| && records[k].number == x;
      if k < |p| { assert p[k] == records[k]; }
    }
  }

  /** The ids of the table afterwards are the ids before plus every record's id. */
  lemma {:induction false} SyncKeys(words: map<int, WordRow>, records: seq<Record>)
    ensures Sync(words, records).words.Keys == words.Keys + Numbers(records)
    decreases |records|
  {
    if |records| > 0 {
      SyncKeys(words, records[..|records| - 1]);
      PrefixOfSnoc(records);
    }
  }

  /** Counter accounting: every record is checked; each record is an update,
      an insert or neither; the table grows by exactly the inserts. */
  lemma {:induction false} SyncCounters(words: map<int, WordRow>, records: seq<Record>)
    ensures Sync(words, records).checked == |records|
    ensures Sync(words, records).updated + Sync(words, records).added <= Sync(words, records).checked
    ensures |Sync(words, records).words| == |words| + Sync(words, records).added
    decreases |records|
  {
    if |records| > 0 {
      SyncCounters(words, records[..|records| - 1]);
    }
  }

  /** `added` is the number of ids the records bring that the table lacked. */
  lemma SyncAddedCountsNewIds(words: map<int, WordRow>, records: seq<Record>)
    ensures Sync(words, records).added == |Numbers(records) - words.Keys|
  {
    var after := Sync(words, records).words;
    SyncKeys(words, records);
    SyncCounters(words, records);
    var newIds := Numbers(records) - words.Keys;
    assert after.Keys == words.Keys + newIds;
    assert words.Keys * newIds == {};
    assert |after.Keys| == |words.Keys| + |newIds|;
  }

  /** Positions of the records whose id is in `words` with a different text. */
  ghost function Rewrites(words: map<int, WordRow>, records: seq<Record>): set<int>
  {
    set k | 0 <= k < |records| && records[k].number in words && words[records[k].number].word != records[k].word
  }

  /** With distinct ids, `updated` is the number of records whose id was in
      the table with a different text: one per rewrite. */
  lemma {:induction false} SyncUpdatedCountsRewrites(words: map<int, WordRow>, records: seq<Record>)
    requires DistinctNumbers(records)
    ensures Sync(words, records).updated == |Rewrites(words, records)|
    decreases |records|
  {
    if |records| > 0 {
      var n := |records| - 1;
      var p := records[..n];
      var rec := records[n];
      assert forall k :: 0 <= k < n ==> p[k] == records[k];
      assert DistinctNumbers(p);
      SyncUpdatedCountsRewrites(words, p);
      assert rec.number !in Numbers(p) by {
        forall j | 0 <= j < n ensures p[j].number != rec.number { assert p[j] == records[j]; }
      }
      SyncLeavesOthers(words, p, rec.number);
      var a, b := Rewrites(words, records), Rewrites(words, p);
      var extra: set<int> := if rec.number in words && words[rec.number].word != rec.word then {n} else {};
      assert n !in b;
      forall k | k in a ensures k in b + extra {
        if k < n { assert p[k] == records[k]; }
      }
      forall k | k in b + extra ensures k in a {
        if k < n { assert p[k] == records[k]; }
      }
      assert a == b + extra;
    }
  }

  /** After the run, the id of every record is present and holds the text of
      the last record with that id. */
  lemma {:induction false} SyncLastTextWins(words: map<int, WordRow>, records: seq<Record>, k: int)
    requires 0 <= k < |records| && LastOccurrence(records, k)
    ensures records[k].number in Sync(words, records).words
    ensures Sync(words, records).words[records[k].number].word == records[k].word
    decreases |records|
  {
    var n := |records| - 1;
    if k < n {
      var p := records[..n];
      assert p[k] == records[k];
      SyncLastTextWins(words, p, k);
    }
  }

  /** An id that was already in the table keeps its level. */
  lemma {:induction false} SyncKeepsLevels(words: map<int, WordRow>, records: seq<Record>, id: int)
    requires id in words
    ensures id in Sync(words, records).words
    ensures Sync(words, records).words[id].level == words[id].level
    decreases |records|
  {
    if |records| > 0 {
      SyncKeepsLevels(words, records[..|records| - 1], id);
    }
  }

  /** An id that was not in the table gets the level of its first record. */
  lemma {:induction false} SyncNewLevelFromFirst(words: map<int, WordRow>, records: seq<Record>, k: int)
    requires 0 <= k < |records| && FirstOccurrence(records, k) && records[k].number !in words
    ensures records[k].number in Sync(words, records).words
    ensures Sync(words, records).words[records[k].number].level == records[k].level
    decreases |records|
  {
    var n := |records| - 1;
    var id := records[k].number;
    if k < n {
      var p := records[..n];
      assert p[k] == records[k];
      SyncNewLevelFromFirst(words, p, k);
    } else {
      var p := records[..n];
      SyncKeys(words, p);
      assert id !in Numbers(p) by {
        forall j | 0 <= j < |p| ensures p[j].number != id { assert p[j] == records[j]; }
      }
    }
  }

  /** An id that no record mentions is left exactly as it was. */
  lemma {:induction false} SyncLeavesOthers(words: map<int, WordRow>, records: seq<Record>, id: int)
    requires id !in Numbers(records)
    ensures id in Sync(words, records).words <==> id in words
    ensures id in words ==> Sync(words, records).words[id] == words[id]
    decreases |records|
  {
    if |records| > 0 {
      PrefixOfSnoc(records);
      SyncLeavesOthers(words, records[..|records| - 1], id);
    }
  }

  /** A run in which every record matches the table changes nothing and
      counts neither an update nor an insert. */
  lemma {:induction false} SyncAgreeingIsNoop(words: map<int, WordRow>, records: seq<Record>)
    requires Agrees(words, records)
    ensures Sync(words, records) == SyncState(words, |records|, 0, 0)
    decreases |records|
  {
    if |records| > 0 {
      var p := records[..|records| - 1];
      forall k | 0 <= k < |p| ensures p[k].number in words && words[p[k].number].word == p[k].word {
        assert p[k] == records[k];
      }
      SyncAgreeingIsNoop(words, p);
    }
  }

  /** Running the sync a second time over the same records leaves the table
      as the first run left it, and inserts nothing. */
  lemma SyncIdempotentWords(words: map<int, WordRow>, records: seq<Record>)
    ensures Sync(Sync(words, records).words, records).words == Sync(words, records).words
    ensures Sync(Sync(words, records).words, records).added == 0
  {
    var w1 := Sync(words, records).words;
    var w2 := Sync(w1, records).words;
    SyncKeys(words, records);
    SyncKeys(w1, records);
    assert w2.Keys == w1.Keys;
    forall id | id in w1 ensures w2[id] == w1[id] {
      SyncKeepsLevels(w1, records, id);
      if id in Numbers(records) {
        var k := LastIndexOf(records, id);
        SyncLastTextWins(words, records, k);
        SyncLastTextWins(w1, records, k);
      } else {
        SyncLeavesOthers(w1, records, id);
      }
    }
    SyncCounters(w1, records);
  }

  /** When records that share an id share a text, the second run also
      reports no update. */
  lemma SyncIdempotent(words: map<int, WordRow>, records: seq<Record>)
    requires ConsistentTexts(records)
    ensures Sync(Sync(words, records).words, records)
         == SyncState(Sync(words, records).words, |records|, 0, 0)
  {
    var w1 := Sync(words, records).words;
    forall k | 0 <= k < |records| ensures records[k].number in w1 && w1[records[k].number].word == records[k].word {
      var last := LastIndexOf(records, records[k].number);
      SyncLastTextWins(words, records, last);
    }
    SyncAgreeingIsNoop(w1, records);
  }

  /** Two records with id 1 and different texts: the second run re-applies
      both texts and reports two updates. */
  lemma SyncConflictingDuplicatesUpdateAgain()
    ensures var records := [Record(1, 1, "a"), Record(1, 1, "b")];
            Sync(Sync(map[], records).words, records).updated == 2
  {
    var records := [Record(1, 1, "a"), Record(1, 1, "b")];
    assert records[..1] == [Record(1, 1, "a")];
    assert records[..1][..0] == [];
    assert Sync(map[], records).words == map[1 := WordRow(1, "b")];
  }

  /** The position of the last record with the given id. */
  function LastIndexOf(records: seq<Record>, id: int): (k: int)
    requires id in Numbers(records)
    ensures 0 <= k < |records| && records[k].number == id && LastOccurrence(records, k)
    decreases |records|
  {
    var n := |records| - 1;
    if records[n].number == id then n
    else
      assert id in Numbers(records[..n]) by {
        var j :| 0 <= j < |records| && records[j].number == id;
        assert records[..n][j] == records[j];
      }
      LastIndexOf(records[..n], id)
  }

  /** The bulk insert of `erase_and_recreate_tables` into an empty `words`
      table: the first record whose id is already present stops the load with
      the primary-key error. */
  function LoadWords(records: seq<Record>): Result<map<int, WordRow>>
    decreases |records|
  {
    if |records| == 0 then Ok(map[])
    else
      var rec := records[|records| - 1];
      match LoadWords(records[..|records| - 1])
      case Err(e) => Err(e)
      case Ok(m) =>
        if rec.number in m then Err(DuplicateId(rec.number))
        else Ok(m[rec.number := WordRow(rec.level, rec.word)])
  }

  /** The load fails exactly when two records share an id, and then it names
      an id that is shared. */
  lemma {:induction false} LoadWordsFailsIffDuplicate(records: seq<Record>)
    ensures LoadWords(records).Err? <==> !DistinctNumbers(records)
    ensures LoadWords(records).Err? ==> LoadWords(records).error.DuplicateId?
    ensures LoadWords(records).Err? ==>
      exists j, k :: 0 <= j < k < |records| && records[j].number == records[k].number == LoadWords(records).error.id
    ensures LoadWords(records).Ok? ==> LoadWords(records).value.Keys == Numbers(records)
    decreases |records|
  {
    if |records| > 0 {
      var n := |records| - 1;
      var p := records[..n];
      LoadWordsFailsIffDuplicate(p);
      PrefixOfSnoc(records);
      assert forall j :: 0 <= j < n ==> p[j] == records[j];
      if LoadWords(p).Err? {
        var j, k :| 0 <= j < k < |p| && p[j].number == p[k].number == LoadWords(p).error.id;
        assert records[j] == p[j] && records[k] == p[k];
      } else if records[n].number in LoadWords(p).value {
        var j :| 0 <= j < |p| && p[j].number == records[n].number;
        assert records[j].number == records[n].number;
      } else {
        assert DistinctNumbers(records) by {
          forall j, k | 0 <= j < k < |records| ensures records[j].number != records[k].number {
            if k == n {
              assert records[j].number in Numbers(p) by { assert p[j] == records[j]; }
            } else {
              assert p[j] == records[j] && p[k] == records[k];
            }
          }
        }
      }
    }
  }

  /** Once a prefix of the records fails to load, the whole list fails with
      the same error. */
  lemma {:induction false} LoadWordsErrSticks(records: seq<Record>, i: int)
    requires 0 <= i <= |records| && LoadWords(records[..i]).Err?
    ensures LoadWords(records) == LoadWords(records[..i])
    decreases |records| - i
  {
    if i < |records| {
      assert records[..i + 1][..i] == records[..i];
      LoadWordsErrSticks(records, i + 1);
    } else {
      assert records[..i] == records;
    }
  }

  /** A successful load holds every record verbatim: its id, level and text. */
  lemma {:induction false} LoadWordsVerbatim(records: seq<Record>, k: int)
    requires LoadWords(records).Ok? && 0 <= k < |records|
    ensures records[k].number in LoadWords(records).value
    ensures LoadWords(records).value[records[k].number] == WordRow(records[k].level, records[k].word)
    decreases |records|
  {
    var n := |records| - 1;
    if k < n {
      var p := records[..n];
      assert p[k] == records[k];
      LoadWordsVerbatim(p, k);
    }
  }

  /** On an empty table, a sync of distinct records builds the same table as
      the bulk load, inserting every record and updating none. */
  lemma {:induction false} SyncOfEmptyIsLoad(records: seq<Record>)
    requires DistinctNumbers(records)
    ensures LoadWords(records).Ok?
    ensures Sync(map[], records) == SyncState(LoadWords(records).value, |records|, 0, |records|)
    decreases |records|
  {
    LoadWordsFailsIffDuplicate(records);
    if |records| > 0 {
      var n := |records| - 1;
      var p := records[..n];
      assert DistinctNumbers(p) by {
        forall j, k | 0 <= j < k < |p| ensures p[j].number != p[k].number {
          assert p[j] == records[j] && p[k] == records[k];
        }
      }
      SyncOfEmptyIsLoad(p);
    }
  }
}

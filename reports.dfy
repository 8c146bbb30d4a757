/** The read-only queries over the `scores`, `words` and `sessions` tables:
    the two aggregates of `get_session_score`, the join of
    `get_incorrect_words`, and the `MAX(date)` lookup of `new_session`. */
module Reports {
  import opened Tables

  /** `SELECT COUNT(*) FROM scores WHERE session_rowid = s`. */
  function Attempts(scores: seq<ScoreRow>, s: int): nat
    decreases |scores|
  {
    if |scores| == 0 then 0
    else Attempts(scores[..|scores| - 1], s) + (if scores[|scores| - 1].sessionRowid == s then 1 else 0)
  }

  /** `SELECT SUM(correct) FROM scores WHERE session_rowid = s` (zero standing
      in for the NULL of an empty sum). */
  function CorrectSum(scores: seq<ScoreRow>, s: int): int
    decreases |scores|
  {
    if |scores| == 0 then 0
    else CorrectSum(scores[..|scores| - 1], s) + (if scores[|scores| - 1].sessionRowid == s then scores[|scores| - 1].correct else 0)
  }

  /** Positions of the score rows of session `s`. */
  ghost function RowsOf(scores: seq<ScoreRow>, s: int): set<int>
  {
    set i | 0 <= i < |scores| && scores[i].sessionRowid == s
  }

  /** Positions of the score rows of session `s` marked correct. */
  ghost function CorrectRowsOf(scores: seq<ScoreRow>, s: int): set<int>
  {
    set i | 0 <= i < |scores| && scores[i].sessionRowid == s && scores[i].correct == 1
  }

  /** Positions of the score rows of session `s` that mark word `w` incorrect. */
  ghost function MissedRowsOf(scores: seq<ScoreRow>, s: int, w: int): set<int>
  {
    set i | 0 <= i < |scores| && scores[i].sessionRowid == s && scores[i].wordId == w && scores[i].correct == 0
  }

  /** The count is the number of score rows of the session. */
  lemma {:induction false} AttemptsCountsRows(scores: seq<ScoreRow>, s: int)
    ensures Attempts(scores, s) == |RowsOf(scores, s)|
    decreases |scores|
  {
    if |scores| > 0 {
      var n := |scores| - 1;
      var p := scores[..n];
      AttemptsCountsRows(p, s);
      assert forall i :: 0 <= i < n ==> p[i] == scores[i];
      if scores[n].sessionRowid == s {
        assert RowsOf(scores, s) == RowsOf(p, s) + {n};
      } else {
        assert RowsOf(scores, s) == RowsOf(p, s);
      }
    }
  }

  /** Since `correct` is 0 or 1, the sum is the number of correct rows. */
  lemma {:induction false} CorrectSumCountsCorrectRows(scores: seq<ScoreRow>, s: int)
    ensures CorrectSum(scores, s) == |CorrectRowsOf(scores, s)|
    decreases |scores|
  {
    if |scores| > 0 {
      var n := |scores| - 1;
      var p := scores[..n];
      CorrectSumCountsCorrectRows(p, s);
      assert forall i :: 0 <= i < n ==> p[i] == scores[i];
      if scores[n].sessionRowid == s && scores[n].correct == 1 {
        assert CorrectRowsOf(scores, s) == CorrectRowsOf(p, s) + {n};
      } else {
        assert CorrectRowsOf(scores, s) == CorrectRowsOf(p, s);
      }
    }
  }

  /** What `get_session_score` needs of its two aggregates: the count is
      zero exactly when the session has no rows, and the correct rows are
      among the session's rows. */
  lemma SessionRowsCounted(scores: seq<ScoreRow>, s: int)
    ensures Attempts(scores, s) == |RowsOf(scores, s)| && CorrectSum(scores, s) == |CorrectRowsOf(scores, s)|
    ensures Attempts(scores, s) == 0 <==> forall i :: 0 <= i < |scores| ==> scores[i].sessionRowid != s
    ensures CorrectSum(scores, s) <= Attempts(scores, s)
    ensures Attempts(scores, s) > 0 ==>
      0.0 <= CorrectSum(scores, s) as real / Attempts(scores, s) as real <= 1.0
  {
    AttemptsCountsRows(scores, s);
    CorrectSumCountsCorrectRows(scores, s);
    if exists i :: 0 <= i < |scores| && scores[i].sessionRowid == s {
      var i :| 0 <= i < |scores| && scores[i].sessionRowid == s;
      assert i in RowsOf(scores, s);
    } else {
      assert RowsOf(scores, s) == {};
    }
    assert CorrectRowsOf(scores, s) <= RowsOf(scores, s);
    if Attempts(scores, s) > 0 {
      RatioInUnit(CorrectSum(scores, s), Attempts(scores, s));
    }
  }

  lemma RatioInUnit(c: int, k: int)
    requires 0 <= c <= k && k > 0
    ensures 0.0 <= c as real / k as real <= 1.0
  {
    assert c as real / k as real <= k as real / k as real;
  }

  /** Recording one attempt for session `s` adds one row to `s` and to no
      other session, and adds one correct row exactly when it succeeded. */
  lemma RecordingAddsOneAttempt(scores: seq<ScoreRow>, row: ScoreRow, t: int)
    ensures |RowsOf(scores + [row], t)| == |RowsOf(scores, t)| + (if row.sessionRowid == t then 1 else 0)
    ensures |CorrectRowsOf(scores + [row], t)|
         == |CorrectRowsOf(scores, t)| + (if row.sessionRowid == t && row.correct == 1 then 1 else 0)
  {
    var q := scores + [row];
    assert q[..|scores|] == scores;
    AttemptsCountsRows(q, t);
    AttemptsCountsRows(scores, t);
    CorrectSumCountsCorrectRows(q, t);
    CorrectSumCountsCorrectRows(scores, t);
  }

  /** The rows `get_incorrect_words` fetches: one `(word_id, word)` pair per
      score row of session `s` marked incorrect whose word is in `words`. */
  function IncorrectJoin(scores: seq<ScoreRow>, words: map<int, WordRow>, s: int): seq<(int, string)>
    decreases |scores|
  {
    if |scores| == 0 then []
    else
      var row := scores[|scores| - 1];
      var rest := IncorrectJoin(scores[..|scores| - 1], words, s);
      if row.sessionRowid == s && row.correct == 0 && row.wordId in words
      then rest + [(row.wordId, words[row.wordId].word)]
      else rest
  }

  /** How often the join yields the pair `e`: once per incorrect row of its
      word when the pair is that word's entry, never otherwise. */
  ghost function MissCount(scores: seq<ScoreRow>, words: map<int, WordRow>, s: int, e: (int, string)): nat
  {
    if e.0 in words && words[e.0].word == e.1 then |MissedRowsOf(scores, s, e.0)| else 0
  }

  /** Duplicates are kept, rows of missing words are dropped, and nothing else
      is listed. */
  lemma {:induction false} IncorrectJoinCounts(scores: seq<ScoreRow>, words: map<int, WordRow>, s: int, e: (int, string))
    ensures multiset(IncorrectJoin(scores, words, s))[e] == MissCount(scores, words, s, e)
    decreases |scores|
  {
    if |scores| > 0 {
      var n := |scores| - 1;
      IncorrectJoinCounts(scores[..n], words, s, e);
      JoinStep(scores, words, s, e);
      MissedStep(scores, s, e.0);
    }
  }

  lemma JoinStep(scores: seq<ScoreRow>, words: map<int, WordRow>, s: int, e: (int, string))
    requires |scores| > 0
    ensures var row := scores[|scores| - 1];
      multiset(IncorrectJoin(scores, words, s))[e]
      == multiset(IncorrectJoin(scores[..|scores| - 1], words, s))[e]
         + (if row.sessionRowid == s && row.correct == 0 && row.wordId in words && e == (row.wordId, words[row.wordId].word) then 1 else 0)
  {
    var row := scores[|scores| - 1];
    var rest := IncorrectJoin(scores[..|scores| - 1], words, s);
    if row.sessionRowid == s && row.correct == 0 && row.wordId in words {
      var x := (row.wordId, words[row.wordId].word);
      assert multiset(rest + [x]) == multiset(rest) + multiset{x};
    }
  }

  lemma MissedStep(scores: seq<ScoreRow>, s: int, w: int)
    requires |scores| > 0
    ensures var row := scores[|scores| - 1];
      |MissedRowsOf(scores, s, w)|
      == |MissedRowsOf(scores[..|scores| - 1], s, w)| + (if row.sessionRowid == s && row.wordId == w && row.correct == 0 then 1 else 0)
  {
    var n := |scores| - 1;
    var p := scores[..n];
    var row := scores[n];
    assert forall i :: 0 <= i < n ==> p[i] == scores[i];
    var a, b := MissedRowsOf(scores, s, w), MissedRowsOf(p, s, w);
    var extra: set<int> := if row.sessionRowid == s && row.wordId == w && row.correct == 0 then {n} else {};
    assert n !in b;
    forall i | i in a ensures i in b + extra {
      if i < n { assert p[i] == scores[i]; }
    }
    forall i | i in b + extra ensures i in a {
      if i < n { assert p[i] == scores[i]; }
    }
    assert a == b + extra;
  }

  /** A word listed as missed has an incorrect row in the session and its
      current text; a word answered correctly every time is never listed. */
  lemma IncorrectJoinMembers(scores: seq<ScoreRow>, words: map<int, WordRow>, s: int, e: (int, string))
    ensures e in IncorrectJoin(scores, words, s) <==>
      (e.0 in words && words[e.0].word == e.1 &&
       exists i :: 0 <= i < |scores| && scores[i].sessionRowid == s && scores[i].wordId == e.0 && scores[i].correct == 0)
  {
    IncorrectJoinCounts(scores, words, s, e);
    if exists i :: 0 <= i < |scores| && scores[i].sessionRowid == s && scores[i].wordId == e.0 && scores[i].correct == 0 {
      var i :| 0 <= i < |scores| && scores[i].sessionRowid == s && scores[i].wordId == e.0 && scores[i].correct == 0;
      assert i in MissedRowsOf(scores, s, e.0);
    } else {
      assert MissedRowsOf(scores, s, e.0) == {};
    }
  }

  /** The row of the latest date (`SELECT ROWID, MAX(date) FROM sessions`);
      among equal dates the first one is kept, as the store's max does. */
  function MaxDateRow(sessions: seq<string>): (rowid: int)
    requires |sessions| > 0
    ensures 1 <= rowid <= |sessions|
    ensures forall k :: 0 <= k < |sessions| ==> !TextLess(sessions[rowid - 1], sessions[k])
    decreases |sessions|
  {
    var n := |sessions| - 1;
    if n == 0 then
      TextLessIrreflexive(sessions[0]);
      1
    else
      var p := sessions[..n];
      var best := MaxDateRow(p);
      assert forall k :: 0 <= k < n ==> p[k] == sessions[k];
      if TextLess(sessions[best - 1], sessions[n]) then
        LaterThanAll(p, best, sessions[n]);
        TextLessIrreflexive(sessions[n]);
        n + 1
      else
        best
  }

  /** A date later than the latest of `p` is later than every date of `p`. */
  lemma LaterThanAll(p: seq<string>, best: int, d: string)
    requires 1 <= best <= |p|
    requires forall k :: 0 <= k < |p| ==> !TextLess(p[best - 1], p[k])
    requires TextLess(p[best - 1], d)
    ensures forall k :: 0 <= k < |p| ==> !TextLess(d, p[k])
  {
    forall k | 0 <= k < |p| ensures !TextLess(d, p[k]) {
      if TextLess(d, p[k]) {
        TextLessTransitive(p[best - 1], d, p[k]);
      }
    }
  }

  /** The row the lookup names carries the latest date: every other date is
      equal to it or earlier. */
  lemma MaxDateRowIsLatest(sessions: seq<string>, k: int)
    requires 0 <= k < |sessions|
    ensures var d := sessions[MaxDateRow(sessions) - 1];
            sessions[k] == d || TextLess(sessions[k], d)
  {
    var d := sessions[MaxDateRow(sessions) - 1];
    if sessions[k] != d {
      TextLessTotal(sessions[k], d);
    }
  }

  /** A new date equal to a stored one is not the one the lookup names: the
      earlier row with that date is kept. */
  lemma MaxDateRowKeepsEarlierOnTie(sessions: seq<string>, now: string, k: int)
    requires 0 <= k < |sessions| && sessions[k] == now
    ensures MaxDateRow(sessions + [now]) <= |sessions|
  {
    var all := sessions + [now];
    assert all[..|sessions|] == sessions;
    var best := MaxDateRow(sessions);
    assert !TextLess(sessions[best - 1], sessions[k]);
  }
}

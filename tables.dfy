/** Row types of the three tables of the flash-card store, the parsed word-list
    records, the error conditions, and the text ordering that the store uses
    to compare session dates. */
module Tables {

  /** One parsed line of the word-list file: the columns Number, Level and Word. */
  datatype Record = Record(number: int, level: int, word: string)

  /** A row of the `words` table; its `_id` primary key is the key of the map
      that holds the table. */
  datatype WordRow = WordRow(level: int, word: string)

  /** The `Success` enumeration, the only values ever written to `scores.correct`. */
  type Success = x: int | x == 0 || x == 1

  /** A row of the `scores` table. */
  datatype ScoreRow = ScoreRow(sessionRowid: int, wordId: int, correct: Success)

  /** What the core can fail with. */
  datatype Error =
    | DuplicateId(id: int)   // the `_id INTEGER PRIMARY KEY` constraint
    | NoAttempts             // a session with no score rows has no ratio

  datatype Option<T> = None | Some(value: T)

  datatype Result<T> = Ok(value: T) | Err(error: Error)

  datatype Outcome = Pass | Fail(error: Error)

  /** No two records share a Number. */
  ghost predicate DistinctNumbers(records: seq<Record>)
  {
    forall j, k :: 0 <= j < k < |records| ==> records[j].number != records[k].number
  }

  /** The ids that a sequence of records mentions. */
  ghost function Numbers(records: seq<Record>): set<int>
  {
    set k | 0 <= k < |records| :: records[k].number
  }

  /** A non-empty `words` table has a row to offer. */
  lemma SomeWordIn(words: map<int, WordRow>)
    requires words != map[]
    ensures exists id :: id in words
  {
    if forall id :: id !in words {
      assert false;
    }
  }

  /** Strict order of two texts under the store's binary collation: code point
      by code point, a proper prefix first. */
  predicate TextLess(a: string, b: string)
  {
    if |a| == 0 then |b| > 0
    else if |b| == 0 then false
    else a[0] < b[0] || (a[0] == b[0] && TextLess(a[1..], b[1..]))
  }

  lemma {:induction false} TextLessIrreflexive(a: string)
    ensures !TextLess(a, a)
  {
    if |a| > 0 {
      TextLessIrreflexive(a[1..]);
    }
  }

  lemma {:induction false} TextLessTransitive(a: string, b: string, c: string)
    requires TextLess(a, b) && TextLess(b, c)
    ensures TextLess(a, c)
  {
    if |a| > 0 && |b| > 0 && |c| > 0 && a[0] == b[0] && b[0] == c[0] {
      TextLessTransitive(a[1..], b[1..], c[1..]);
    }
  }

  lemma {:induction false} TextLessTotal(a: string, b: string)
    requires a != b
    ensures TextLess(a, b) || TextLess(b, a)
  {
    if |a| > 0 && |b| > 0 && a[0] == b[0] {
      assert a == [a[0]] + a[1..] && b == [b[0]] + b[1..];
      TextLessTotal(a[1..], b[1..]);
    }
  }

  /** Texts with a common prefix compare as their remainders do. */
  lemma {:induction false} TextLessPrefix(a: string, b: string, n: nat)
    requires n <= |a| && n <= |b| && a[..n] == b[..n]
    requires TextLess(a[n..], b[n..])
    ensures TextLess(a, b)
    decreases n
  {
    if n > 0 {
      assert a[0] == a[..n][0] == b[..n][0] == b[0];
      assert a[1..][..n - 1] == a[1..n] == b[1..n] == b[1..][..n - 1];
      assert a[1..][n - 1..] == a[n..] && b[1..][n - 1..] == b[n..];
      TextLessPrefix(a[1..], b[1..], n - 1);
    }
  }
}

/** The validation stage: a schema gate, an emptiness gate, and two checks (missing
    cells, repeated reviews) that only warn. A table that passes is written out as
    it was read. */
module Validation {
  import opened Wrappers
  import opened DataFrame

  const SCHEMA_FAILED := "Schema Validation failed"
  const NO_ROWS := "No rows found in dataset"

  /** What the two non-fatal checks log. */
  datatype Warning = NullValues(counts: seq<nat>) | DuplicatedReviews(count: nat)

  /** A passed validation: the table to write out, and the warnings logged on the way. */
  datatype Validated = Validated(table: Table, warnings: seq<Warning>)

  /** The number of rows whose cell in `column` is missing. */
  function NullCount(rows: seq<Row>, column: string): (n: nat)
    ensures n <= |rows|
    ensures n == 0 <==> forall i :: 0 <= i < |rows| ==> Get(rows[i], column) != Null
  {
    if rows == [] then 0
    else (if Get(rows[0], column) == Null then 1 else 0) + NullCount(rows[1..], column)
  }

  /** The count is the number of missing cells in the column, `df[column]`. */
  lemma {:induction false} NullCountCells(rows: seq<Row>, column: string)
    ensures NullCount(rows, column) == multiset(Column(rows, column))[Null]
  {
    if rows != [] {
      NullCountCells(rows[1..], column);
      assert Column(rows, column) == [Get(rows[0], column)] + Column(rows[1..], column);
    }
  }

  /** `null_counts.any()`. */
  predicate AnyPositive(counts: seq<nat>)
  {
    exists k :: 0 <= k < |counts| && counts[k] > 0
  }

  /** `df.isna().sum()`: the missing cells of each column, in column order; some count
      is positive exactly when some cell is missing. */
  function NullCounts(t: Table): (counts: seq<nat>)
    ensures |counts| == |t.columns|
    ensures forall k :: 0 <= k < |t.columns| ==> counts[k] == NullCount(t.rows, t.columns[k])
    ensures AnyPositive(counts) <==>
      exists k, i :: 0 <= k < |t.columns| && 0 <= i < |t.rows| && Get(t.rows[i], t.columns[k]) == Null
  {
    var counts := seq(|t.columns|, k requires 0 <= k < |t.columns| => NullCount(t.rows, t.columns[k]));
    assert AnyPositive(counts) <==>
      exists k, i :: 0 <= k < |t.columns| && 0 <= i < |t.rows| && Get(t.rows[i], t.columns[k]) == Null
    by {
      if AnyPositive(counts) {
        var k :| 0 <= k < |counts| && counts[k] > 0;
        assert NullCount(t.rows, t.columns[k]) != 0;
        var i :| 0 <= i < |t.rows| && Get(t.rows[i], t.columns[k]) == Null;
      } else {
        forall k, i | 0 <= k < |t.columns| && 0 <= i < |t.rows|
          ensures Get(t.rows[i], t.columns[k]) != Null
        {
          assert counts[k] == 0;
        }
      }
    }
    counts
  }

  /** `df.duplicated(subset=["review"]).sum()`. */
  function DuplicateReviews(t: Table): nat
  {
    CountDuplicated(Column(t.rows, REVIEW))
  }

  /** The warnings logged by checks 3 and 4. */
  function Warnings(t: Table): seq<Warning>
  {
    var nulls := NullCounts(t);
    var dups := DuplicateReviews(t);
    (if AnyPositive(nulls) then [NullValues(nulls)] else [])
      + (if dups > 0 then [DuplicatedReviews(dups)] else [])
  }

  /** `DataValidation.run` on the table read from disk, with the expected columns. */
  /** The two gates raise a `ValueError`; with no review column,
      `duplicated(subset=["review"])` raises a `KeyError`. */
  function Validate(t: Table, expected: seq<string>): (r: Result<Validated, Exception>)
    ensures MissingColumns(expected, t.columns) != [] ==> r == Failure(ValueError(SCHEMA_FAILED))
    ensures MissingColumns(expected, t.columns) == [] && |t.rows| == 0 ==> r == Failure(ValueError(NO_ROWS))
    ensures MissingColumns(expected, t.columns) == [] && |t.rows| > 0 && REVIEW !in t.columns ==>
      r == Failure(KeyError([REVIEW]))
    ensures r.Success? <==>
      (forall c :: c in expected ==> c in t.columns) && |t.rows| > 0 && REVIEW in t.columns
    ensures r.Success? ==> r.value.table == t && r.value.warnings == Warnings(t)
  {
    var missing := MissingColumns(expected, t.columns);
    if missing != [] then
      assert missing[0] in expected && missing[0] !in t.columns;
      Failure(ValueError(SCHEMA_FAILED))
    else if |t.rows| == 0 then Failure(ValueError(NO_ROWS))
    else if REVIEW !in t.columns then Failure(KeyError([REVIEW]))
    else Success(Validated(t, Warnings(t)))
  }

  /** Whether validation passes depends only on the column names and on whether there
      are rows: missing cells and repeated reviews never turn into a failure. */
  lemma WarningsNeverFail(t: Table, u: Table, expected: seq<string>)
    requires t.columns == u.columns
    requires (|t.rows| == 0) == (|u.rows| == 0)
    ensures Validate(t, expected) == Failure(ValueError(SCHEMA_FAILED)) <==> Validate(u, expected) == Failure(ValueError(SCHEMA_FAILED))
    ensures Validate(t, expected).Success? <==> Validate(u, expected).Success?
    ensures Validate(t, expected).Failure? ==> Validate(t, expected) == Validate(u, expected)
  {
  }

  /** A table with every expected column, a review column and a row passes, unchanged;
      validating what was written out passes again with the same result. */
  lemma RevalidatePasses(t: Table, expected: seq<string>)
    requires Validate(t, expected).Success?
    ensures Validate(Validate(t, expected).value.table, expected) == Validate(t, expected)
  {
  }

  /** The null warning appears exactly when some column has a missing cell. */
  lemma NullWarning(t: Table, expected: seq<string>)
    requires Validate(t, expected).Success?
    ensures NullValues(NullCounts(t)) in Validate(t, expected).value.warnings <==>
      exists k, i :: 0 <= k < |t.columns| && 0 <= i < |t.rows| && Get(t.rows[i], t.columns[k]) == Null
  {
    NullWarningWhen(t);
  }

  lemma NullWarningWhen(t: Table)
    ensures NullValues(NullCounts(t)) in Warnings(t) <==> AnyPositive(NullCounts(t))
  {
  }

  /** The duplicate warning appears exactly when two rows share a review, and it counts
      the rows less the number of distinct reviews. */
  lemma DuplicateWarning(t: Table, expected: seq<string>)
    requires Validate(t, expected).Success?
    ensures DuplicateReviews(t) == |t.rows| - |Elements(Column(t.rows, REVIEW))|
    ensures (exists n :: DuplicatedReviews(n) in Validate(t, expected).value.warnings) <==>
      |Elements(Column(t.rows, REVIEW))| < |t.rows|
  {
    CountDuplicatedDistinct(Column(t.rows, REVIEW));
    var w := Validate(t, expected).value.warnings;
    if DuplicateReviews(t) > 0 {
      assert DuplicatedReviews(DuplicateReviews(t)) in w;
    }
  }
}

/** The part of a pandas DataFrame that the pipeline relies on: named columns,
    rows that map a column name to a cell, and the row operations `dropna`,
    `drop_duplicates`, `duplicated` and column assignment. */
module DataFrame {
  import opened Wrappers

  /** A cell: missing (NaN), a string, or an integer. */
  datatype Value = Null | Str(s: string) | Int(n: int)

  type Row = map<string, Value>

  /** The column both stages read the review text from. */
  const REVIEW := "review"

  /** The exceptions the stages raise: a `ValueError` with its message, and the
      `KeyError` pandas raises for absent columns, naming them. */
  datatype Exception = ValueError(message: string) | KeyError(columns: seq<string>)

  datatype Table = Table(columns: seq<string>, rows: seq<Row>)

  /** The cell of `row` in `column`; a column the row does not have reads as missing. */
  function Get(row: Row, column: string): Value
  {
    if column in row then row[column] else Null
  }

  predicate Distinct<T(==)>(s: seq<T>)
  {
    forall i, j :: 0 <= i < j < |s| ==> s[i] != s[j]
  }

  function Elements<T>(s: seq<T>): set<T>
  {
    set x | x in s
  }

  /** Column names are unique and every row has exactly the table's columns. */
  predicate WellFormed(t: Table)
  {
    && Distinct(t.columns)
    && forall k :: 0 <= k < |t.rows| ==> t.rows[k].Keys == Elements(t.columns)
  }

  /** The cells of one column, row by row (`df[column]`). */
  function Column(rows: seq<Row>, column: string): (vs: seq<Value>)
    ensures |vs| == |rows|
    ensures forall i :: 0 <= i < |rows| ==> vs[i] == Get(rows[i], column)
  {
    seq(|rows|, i requires 0 <= i < |rows| => Get(rows[i], column))
  }

  // ---------------------------------------------------------------------------
  // Column lookups

  /** The names in `wanted` that are not among `present`, in the order of `wanted`. */
  function MissingColumns(wanted: seq<string>, present: seq<string>): (m: seq<string>)
    ensures forall c :: c in m <==> c in wanted && c !in present
    ensures |m| <= |wanted|
  {
    if wanted == [] then []
    else (if wanted[0] in present then [] else [wanted[0]]) + MissingColumns(wanted[1..], present)
  }

  /** The missing names of a concatenation are those of each part, in turn: the
      result keeps the order of `wanted`. */
  lemma {:induction false} MissingColumnsAppend(a: seq<string>, b: seq<string>, present: seq<string>)
    ensures MissingColumns(a + b, present) == MissingColumns(a, present) + MissingColumns(b, present)
  {
    if a == [] {
      assert a + b == b;
    } else {
      assert (a + b)[1..] == a[1..] + b;
      MissingColumnsAppend(a[1..], b, present);
    }
  }

  // ---------------------------------------------------------------------------
  // duplicated() and drop_duplicates(), keeping the first occurrence

  /** The number of entries equal to some earlier entry (`duplicated(keep="first").sum()`). */
  function CountDuplicated<T(==)>(s: seq<T>): nat
  {
    if s == [] then 0
    else CountDuplicated(s[..|s| - 1]) + (if s[|s| - 1] in s[..|s| - 1] then 1 else 0)
  }

  /** Every entry is either the first of its value or a duplicate: the duplicates
      number the length less the count of distinct values. */
  lemma {:induction false} CountDuplicatedDistinct<T>(s: seq<T>)
    ensures CountDuplicated(s) == |s| - |Elements(s)|
  {
    if s != [] {
      var p, x := s[..|s| - 1], s[|s| - 1];
      assert s == p + [x];
      assert Elements(s) == Elements(p) + {x};
      CountDuplicatedDistinct(p);
      if x in p {
        assert x in Elements(p);
        assert Elements(s) == Elements(p);
      } else {
        assert x !in Elements(p);
        assert |Elements(s)| == |Elements(p)| + 1;
      }
    }
  }

  /** The entries that are not duplicates, in order (`drop_duplicates(keep="first")`). */
  function KeepFirst<T(==)>(s: seq<T>): (r: seq<T>)
    ensures Elements(r) == Elements(s)
    ensures forall i :: 0 <= i < |r| ==> r[i] in s
    ensures Distinct(r)
  {
    if s == [] then []
    else
      var p, x := s[..|s| - 1], s[|s| - 1];
      assert Elements(s) == Elements(p) + {x} by {
        assert s == p + [x];
      }
      assert forall y :: y in p ==> y in s by {
        assert s == p + [x];
      }
      if x in p then KeepFirst(p) else KeepFirst(p) + [x]
  }

  /** The position of the first occurrence of `x` in `s`. */
  function FirstIndex<T(==)>(s: seq<T>, x: T): (i: nat)
    requires x in s
    ensures i < |s| && s[i] == x && x !in s[..i]
  {
    if s[0] == x then 0 else 1 + FirstIndex(s[1..], x)
  }

  lemma FirstIndexUnique<T>(s: seq<T>, x: T, i: nat)
    requires i < |s| && s[i] == x && x !in s[..i]
    ensures FirstIndex(s, x) == i
  {
  }

  /** Dropping duplicates keeps the first occurrences in the order they first appear. */
  lemma {:induction false} KeepFirstOrder<T>(s: seq<T>)
    ensures forall i, j :: 0 <= i < j < |KeepFirst(s)| ==>
      FirstIndex(s, KeepFirst(s)[i]) < FirstIndex(s, KeepFirst(s)[j])
  {
    if s != [] {
      var p, x := s[..|s| - 1], s[|s| - 1];
      assert s == p + [x];
      KeepFirstOrder(p);
      var r, q := KeepFirst(s), KeepFirst(p);
      forall y | y in p
        ensures FirstIndex(s, y) == FirstIndex(p, y)
      {
        var k := FirstIndex(p, y);
        assert s[..k] == p[..k];
        FirstIndexUnique(s, y, k);
      }
      if x !in p {
        assert s[..|p|] == p;
        FirstIndexUnique(s, x, |p|);
        assert r == q + [x];
        forall i, j | 0 <= i < j < |r|
          ensures FirstIndex(s, r[i]) < FirstIndex(s, r[j])
        {
          assert r[i] == q[i] && r[i] in p;
          if j < |q| {
            assert r[j] == q[j] && r[j] in p;
          }
        }
      } else {
        forall i, j | 0 <= i < j < |r|
          ensures FirstIndex(s, r[i]) < FirstIndex(s, r[j])
        {
          assert r[i] in p && r[j] in p;
        }
      }
    }
  }

  // ---------------------------------------------------------------------------
  // dropna(subset=...)

  /** No cell of `row` in the columns `subset` is missing. */
  predicate HasValues(row: Row, subset: seq<string>)
  {
    forall c :: c in subset ==> Get(row, c) != Null
  }

  /** The rows with a value in every column of `subset`, in order. */
  function DropNulls(rows: seq<Row>, subset: seq<string>): (r: seq<Row>)
    ensures |r| <= |rows|
    ensures forall k :: 0 <= k < |r| ==> HasValues(r[k], subset)
    ensures forall row :: row in r <==> row in rows && HasValues(row, subset)
  {
    if rows == [] then []
    else (if HasValues(rows[0], subset) then [rows[0]] else []) + DropNulls(rows[1..], subset)
  }

  /** Filtering a concatenation filters each part: the kept rows keep their order. */
  lemma {:induction false} DropNullsAppend(a: seq<Row>, b: seq<Row>, subset: seq<string>)
    ensures DropNulls(a + b, subset) == DropNulls(a, subset) + DropNulls(b, subset)
  {
    if a == [] {
      assert a + b == b;
    } else {
      assert (a + b)[1..] == a[1..] + b;
      DropNullsAppend(a[1..], b, subset);
    }
  }

  /** Filtering keeps the relative order of first appearances: of two kept rows, the
      one that comes first among the kept rows also comes first in the input. */
  lemma {:induction false} DropNullsFirstIndex(rows: seq<Row>, subset: seq<string>, x: Row, y: Row)
    requires x in DropNulls(rows, subset) && y in DropNulls(rows, subset)
    requires FirstIndex(DropNulls(rows, subset), x) < FirstIndex(DropNulls(rows, subset), y)
    ensures FirstIndex(rows, x) < FirstIndex(rows, y)
  {
    var h, d, d' := rows[0], DropNulls(rows, subset), DropNulls(rows[1..], subset);
    if HasValues(h, subset) {
      assert d == [h] + d';
      if x != h {
        assert d[0] != y;
        DropNullsFirstIndex(rows[1..], subset, x, y);
      }
    } else {
      assert d == d';
      assert HasValues(x, subset) && HasValues(y, subset);
      DropNullsFirstIndex(rows[1..], subset, x, y);
    }
  }

  // ---------------------------------------------------------------------------
  // df[name] = values

  /** The column list after assigning `name`: unchanged if it is there already,
      otherwise `name` is appended. */
  function WithColumn(columns: seq<string>, name: string): (r: seq<string>)
    ensures Elements(r) == Elements(columns) + {name}
    ensures Distinct(columns) ==> Distinct(r)
    ensures |columns| <= |r| && r[..|columns|] == columns
  {
    if name in columns then columns else columns + [name]
  }

  /** Every row gets `values[i]` in column `name`; every other cell stays as it was. */
  function SetColumn(rows: seq<Row>, name: string, values: seq<Value>): (r: seq<Row>)
    requires |values| == |rows|
    ensures |r| == |rows|
    ensures forall i :: 0 <= i < |r| ==> Get(r[i], name) == values[i] && r[i].Keys == rows[i].Keys + {name}
    ensures forall i, c :: 0 <= i < |r| && c != name ==> Get(r[i], c) == Get(rows[i], c)
  {
    seq(|rows|, i requires 0 <= i < |rows| => rows[i][name := values[i]])
  }

  /** Assigning a column to a well-formed table leaves it well-formed. */
  lemma SetColumnWellFormed(t: Table, name: string, values: seq<Value>)
    requires WellFormed(t) && |values| == |t.rows|
    ensures WellFormed(Table(WithColumn(t.columns, name), SetColumn(t.rows, name, values)))
  {
  }

  /** The `df` variable of a stage: `df = df.dropna(...)` and `df = df.drop_duplicates()`
      rebind it to a new frame, which here replaces its rows; `df[name] = values` assigns
      a column in place. */
  class Frame {
    var columns: seq<string>
    var rows: seq<Row>

    constructor (t: Table)
      ensures columns == t.columns && rows == t.rows
    {
      columns := t.columns;
      rows := t.rows;
    }

    function View(): Table
      reads this
    {
      Table(columns, rows)
    }

    /** `df = df.dropna(subset=subset)`; fails with the missing names (a KeyError)
        when a column of `subset` is absent, and then changes nothing. */
    method DropNa(subset: seq<string>) returns (r: Outcome<seq<string>>)
      modifies this
      ensures r == (if MissingColumns(subset, old(columns)) == [] then Pass
                    else Fail(MissingColumns(subset, old(columns))))
      ensures columns == old(columns)
      ensures rows == (if r.Pass? then DropNulls(old(rows), subset) else old(rows))
    {
      var missing := MissingColumns(subset, columns);
      if missing != [] {
        return Fail(missing);
      }
      rows := DropNulls(rows, subset);
      r := Pass;
    }

    /** `df = df.drop_duplicates()`: whole-row duplicates go, the first occurrence stays. */
    method DropDuplicates()
      modifies this
      ensures columns == old(columns)
      ensures rows == KeepFirst(old(rows))
    {
      rows := KeepFirst(rows);
    }

    /** `df[name] = values`, one value per row. */
    method Assign(name: string, values: seq<Value>)
      requires |values| == |rows|
      modifies this
      ensures columns == WithColumn(old(columns), name)
      ensures rows == SetColumn(old(rows), name, values)
    {
      columns := WithColumn(columns, name);
      rows := SetColumn(rows, name, values);
    }
  }
}

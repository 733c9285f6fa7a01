/** The preprocessing stage: drop rows without a review or a sentiment, drop
    whole-row duplicates, add the cleaned review text and the numeric label. */
module Preprocessing {
  import opened Wrappers
  import opened DataFrame
  import opened TextClean

  const SENTIMENT := "sentiment"
  const CLEAN_REVIEW := "clean_review"
  const LABEL := "label"

  /** The columns `dropna` looks at. */
  const REQUIRED := [REVIEW, SENTIMENT]

  /** `map({"positive": 1, "negative": 0})`: the two known sentiments become 1 and 0,
      anything else becomes missing. */
  function EncodeLabel(v: Value): (r: Value)
    ensures r == Int(1) <==> v == Str("positive")
    ensures r == Int(0) <==> v == Str("negative")
    ensures r == Null <==> v != Str("positive") && v != Str("negative")
  {
    match v
    case Str(s) => if s == "positive" then Int(1) else if s == "negative" then Int(0) else Null
    case _ => Null
  }

  /** A decimal numeral: digits only, and no leading zero unless it is "0". */
  predicate Decimal(s: string)
  {
    && s != []
    && (forall k :: 0 <= k < |s| ==> '0' <= s[k] <= '9')
    && (s[0] == '0' ==> s == "0")
  }

  /** The number a string of digits stands for. */
  function DigitsValue(s: string): nat
  {
    if s == [] then 0 else 10 * DigitsValue(s[..|s| - 1]) + (s[|s| - 1] as int - '0' as int) % 10
  }

  /** `str(n)` for a natural number. */
  function Digits(n: nat): (s: string)
    ensures Decimal(s)
  {
    var d := ['0' + (n % 10) as char];
    if n < 10 then d else Digits(n / 10) + d
  }

  /** The numeral reads back as the number it was written from. */
  lemma {:induction false} DigitsRoundTrip(n: nat)
    ensures DigitsValue(Digits(n)) == n
  {
    if n >= 10 {
      DigitsRoundTrip(n / 10);
      var s := Digits(n);
      assert s[..|s| - 1] == Digits(n / 10);
    }
  }

  /** `astype(str)`: a string stays, an integer is written in decimal with a '-' exactly
      when it is negative, a missing cell is "nan". */
  function AsText(v: Value): (r: string)
    ensures v.Str? ==> r == v.s
    ensures v.Null? ==> r == "nan"
    ensures v.Int? ==> r != [] && (r[0] == '-' <==> v.n < 0)
    ensures v.Int? && v.n < 0 ==> Decimal(r[1..]) && DigitsValue(r[1..]) == -v.n
    ensures v.Int? && v.n >= 0 ==> Decimal(r) && DigitsValue(r) == v.n
  {
    match v
    case Str(s) => s
    case Int(n) =>
      if n < 0 then
        DigitsRoundTrip(-n);
        assert ("-" + Digits(-n))[1..] == Digits(-n);
        "-" + Digits(-n)
      else
        DigitsRoundTrip(n);
        Digits(n)
    case Null => "nan"
  }

  /** `df['review'].astype(str).apply(clean_text)`: one normalised string per row. */
  function CleanColumn(rows: seq<Row>, fix: string -> string): (vs: seq<Value>)
    ensures |vs| == |rows|
    ensures forall i :: 0 <= i < |rows| ==> vs[i] == Str(CleanText(AsText(Get(rows[i], REVIEW)), fix))
    ensures forall i :: 0 <= i < |vs| ==> vs[i].Str? && Normalized(vs[i].s)
  {
    var vs := seq(|rows|, i requires 0 <= i < |rows| => Str(CleanText(AsText(Get(rows[i], REVIEW)), fix)));
    assert forall i :: 0 <= i < |vs| ==> vs[i].Str? && Normalized(vs[i].s) by {
      forall i | 0 <= i < |vs|
        ensures Normalized(vs[i].s)
      {
        NormalizeNormalized(fix(AsText(Get(rows[i], REVIEW))));
      }
    }
    vs
  }

  /** `df['sentiment'].map(...)`: one label per row, 1, 0 or missing. */
  function LabelColumn(rows: seq<Row>): (vs: seq<Value>)
    ensures |vs| == |rows|
    ensures forall i :: 0 <= i < |rows| ==> vs[i] == EncodeLabel(Get(rows[i], SENTIMENT))
    ensures forall i :: 0 <= i < |vs| ==> vs[i] in {Int(1), Int(0), Null}
  {
    seq(|rows|, i requires 0 <= i < |rows| => EncodeLabel(Get(rows[i], SENTIMENT)))
  }

  /** The rows that survive the two filters: no missing review or sentiment, no repeat. */
  function Survivors(rows: seq<Row>): seq<Row>
  {
    KeepFirst(DropNulls(rows, REQUIRED))
  }

  /** The table `run` writes out, or the error it raises. */
  function Preprocess(t: Table, fix: string -> string): (r: Result<Table, Exception>)
    ensures r.Failure? <==> MissingColumns(REQUIRED, t.columns) != []
    ensures r.Failure? ==> r.error == KeyError(MissingColumns(REQUIRED, t.columns))
    ensures r.Success? ==> r.value.columns == WithColumn(WithColumn(t.columns, CLEAN_REVIEW), LABEL)
    ensures r.Success? ==> |r.value.rows| == |Survivors(t.rows)|
  {
    var missing := MissingColumns(REQUIRED, t.columns);
    if missing != [] then Failure(KeyError(missing))
    else
      var kept := Survivors(t.rows);
      var cleaned := SetColumn(kept, CLEAN_REVIEW, CleanColumn(kept, fix));
      var labelled := SetColumn(cleaned, LABEL, LabelColumn(cleaned));
      Success(Table(WithColumn(WithColumn(t.columns, CLEAN_REVIEW), LABEL), labelled))
  }

  /** `DataPreprocessing.run` on the frame read from disk, held in `df`. */
  method Run(df: Frame, fix: string -> string) returns (r: Outcome<Exception>)
    modifies df
    ensures Preprocess(old(df.View()), fix) == if r.Pass? then Success(df.View()) else Failure(r.error)
    ensures r.Fail? ==> df.View() == old(df.View())
  {
    var dropped := df.DropNa(REQUIRED);
    if dropped.Fail? {
      return Fail(KeyError(dropped.error));
    }
    df.DropDuplicates();
    df.Assign(CLEAN_REVIEW, CleanColumn(df.rows, fix));
    df.Assign(LABEL, LabelColumn(df.rows));
    r := Pass;
  }

  // ---------------------------------------------------------------------------
  // What the stage guarantees about its output

  /** Row `i` of the output is surviving row `i` with its cleaned review and label added;
      every other cell, review and sentiment included, is the survivor's. */
  lemma PreprocessRows(t: Table, fix: string -> string, i: nat)
    requires MissingColumns(REQUIRED, t.columns) == []
    requires i < |Survivors(t.rows)|
    ensures var out, src := Preprocess(t, fix).value.rows[i], Survivors(t.rows)[i];
      && Get(out, CLEAN_REVIEW) == Str(CleanText(AsText(Get(src, REVIEW)), fix))
      && Get(out, LABEL) == EncodeLabel(Get(src, SENTIMENT))
      && (forall c :: c != CLEAN_REVIEW && c != LABEL ==> Get(out, c) == Get(src, c))
      && out.Keys == src.Keys + {CLEAN_REVIEW, LABEL}
  {
    var kept := Survivors(t.rows);
    var cleaned := SetColumn(kept, CLEAN_REVIEW, CleanColumn(kept, fix));
    var labelled := SetColumn(cleaned, LABEL, LabelColumn(cleaned));
    assert Preprocess(t, fix).value.rows == labelled;
    var out, mid, src := labelled[i], cleaned[i], kept[i];
    assert Get(mid, SENTIMENT) == Get(src, SENTIMENT);
    assert Get(out, CLEAN_REVIEW) == Get(mid, CLEAN_REVIEW);
    assert Get(out, LABEL) == EncodeLabel(Get(mid, SENTIMENT));
    forall c | c != CLEAN_REVIEW && c != LABEL
      ensures Get(out, c) == Get(src, c)
    {
      assert Get(out, c) == Get(mid, c);
    }
  }

  /** Every output row has a review and a sentiment, a string in `clean_review`, and a
      label that is 1, 0 or missing. */
  lemma PreprocessCells(t: Table, fix: string -> string, i: nat)
    requires MissingColumns(REQUIRED, t.columns) == []
    requires i < |Survivors(t.rows)|
    ensures var out := Preprocess(t, fix).value.rows[i];
      && Get(out, REVIEW) != Null && Get(out, SENTIMENT) != Null
      && Get(out, CLEAN_REVIEW).Str?
      && Normalized(Get(out, CLEAN_REVIEW).s)
      && Get(out, LABEL) in {Int(1), Int(0), Null}
  {
    PreprocessRows(t, fix, i);
    var src := Survivors(t.rows)[i];
    assert src in DropNulls(t.rows, REQUIRED);
    assert HasValues(src, REQUIRED);
    assert REVIEW in REQUIRED && SENTIMENT in REQUIRED;
    NormalizeNormalized(fix(AsText(Get(src, REVIEW))));
  }

  /** The survivors are distinct, and they are exactly the input rows with a review and
      a sentiment, in the order of their first appearance. */
  lemma SurvivorsSpec(rows: seq<Row>)
    ensures Distinct(Survivors(rows))
    ensures forall row :: row in Survivors(rows) <==> row in rows && HasValues(row, REQUIRED)
    ensures forall i, j :: 0 <= i < j < |Survivors(rows)| ==>
      FirstIndex(rows, Survivors(rows)[i]) < FirstIndex(rows, Survivors(rows)[j])
  {
    var d, r := DropNulls(rows, REQUIRED), Survivors(rows);
    KeepFirstOrder(d);
    forall row
      ensures row in r <==> row in d
    {
      assert row in r <==> row in Elements(r);
      assert row in d <==> row in Elements(d);
    }
    forall i, j | 0 <= i < j < |r|
      ensures FirstIndex(rows, r[i]) < FirstIndex(rows, r[j])
    {
      DropNullsFirstIndex(rows, REQUIRED, r[i], r[j]);
    }
  }

  /** Two rows without the columns `clean_review` and `label` that agree once those
      columns are added were equal to begin with. */
  lemma EqualBeforeAdding(a: Row, b: Row, x: Row, y: Row)
    requires CLEAN_REVIEW !in a && LABEL !in a && CLEAN_REVIEW !in b && LABEL !in b
    requires x.Keys == a.Keys + {CLEAN_REVIEW, LABEL} && y.Keys == b.Keys + {CLEAN_REVIEW, LABEL}
    requires forall c :: c != CLEAN_REVIEW && c != LABEL ==> Get(x, c) == Get(a, c)
    requires forall c :: c != CLEAN_REVIEW && c != LABEL ==> Get(y, c) == Get(b, c)
    requires x == y
    ensures a == b
  {
    assert a.Keys == x.Keys - {CLEAN_REVIEW, LABEL} == b.Keys;
    forall c | c in a
      ensures a[c] == b[c]
    {
      assert Get(a, c) == Get(x, c);
    }
  }

  /** When the input has neither added column, no two output rows are identical:
      the added cells cannot make two distinct survivors equal. */
  lemma PreprocessDistinct(t: Table, fix: string -> string)
    requires WellFormed(t)
    requires CLEAN_REVIEW !in t.columns && LABEL !in t.columns
    requires MissingColumns(REQUIRED, t.columns) == []
    ensures Distinct(Preprocess(t, fix).value.rows)
  {
    var out := Preprocess(t, fix).value.rows;
    var kept := Survivors(t.rows);
    SurvivorsSpec(t.rows);
    forall k | 0 <= k < |kept|
      ensures CLEAN_REVIEW !in kept[k] && LABEL !in kept[k]
    {
      assert kept[k] in t.rows;
    }
    forall i, j | 0 <= i < j < |out|
      ensures out[i] != out[j]
    {
      PreprocessRows(t, fix, i);
      PreprocessRows(t, fix, j);
      var a, b, x, y := kept[i], kept[j], out[i], out[j];
      assert a != b;
      assert CLEAN_REVIEW !in a && LABEL !in a && CLEAN_REVIEW !in b && LABEL !in b;
      if x == y {
        EqualBeforeAdding(a, b, x, y);
      }
    }
  }

  /** A well-formed input gives a well-formed output. */
  lemma PreprocessWellFormed(t: Table, fix: string -> string)
    requires WellFormed(t)
    requires MissingColumns(REQUIRED, t.columns) == []
    ensures WellFormed(Preprocess(t, fix).value)
  {
    var kept := Survivors(t.rows);
    SurvivorsSpec(t.rows);
    forall k | 0 <= k < |kept|
      ensures kept[k].Keys == Elements(t.columns)
    {
      assert kept[k] in t.rows;
    }
    var t1 := Table(t.columns, kept);
    SetColumnWellFormed(t1, CLEAN_REVIEW, CleanColumn(kept, fix));
    var t2 := Table(WithColumn(t.columns, CLEAN_REVIEW), SetColumn(kept, CLEAN_REVIEW, CleanColumn(kept, fix)));
    SetColumnWellFormed(t2, LABEL, LabelColumn(t2.rows));
  }
}

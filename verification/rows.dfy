/**
 * The incident table as the dashboard sees it once the CSV file is loaded:
 * an ordered sequence of rows, the boolean masks the script filters it with
 * (`df.loc[mask]`, `df[df[col] == value]`) and the option lists it offers in
 * the sidebar's select boxes.
 */
module Incidents {
  import opened StringOrder
  import opened Counting

  /**
   * One incident report. `incidentDateTime` is the ISO-8601 text of the CSV
   * column `incident_date_time`; the other columns of the file are not used
   * by the dashboard and are not modelled.
   */
  datatype Row = Row(
    incidentDateTime: string,
    region: string,
    county: string,
    purpose: string,
    intervention: string,
    status: string,
    callerGender: string)

  /** The categorical columns the dashboard filters or counts by. */
  datatype Column = Region | County | Purpose | Intervention | Status | CallerGender

  function Field(r: Row, c: Column): string
  {
    match c
    case Region => r.region
    case County => r.county
    case Purpose => r.purpose
    case Intervention => r.intervention
    case Status => r.status
    case CallerGender => r.callerGender
  }

  /**
   * The column `c` of `rows`, as a pandas Series of strings. The ensures only
   * spell out the comprehension pointwise, for the verifier's use.
   */
  function Values(rows: seq<Row>, c: Column): (col: seq<string>)
    ensures |col| == |rows|
    ensures forall i :: 0 <= i < |rows| ==> col[i] == Field(rows[i], c)
  {
    seq(|rows|, i requires 0 <= i < |rows| => Field(rows[i], c))
  }

  /** A boolean row mask of the script. */
  datatype Criterion =
    | TimeIn(lo: string, hi: string)   // lo <= incident_date_time < hi, as strings
    | Equals(col: Column, value: string)

  predicate Holds(m: Criterion, r: Row)
  {
    match m
    case TimeIn(lo, hi) => AtMost(lo, r.incidentDateTime) && Less(r.incidentDateTime, hi)
    case Equals(c, v) => Field(r, c) == v
  }

  predicate HoldsAll(ms: seq<Criterion>, r: Row)
  {
    forall i :: 0 <= i < |ms| ==> Holds(ms[i], r)
  }

  /** The rows that pass every mask in `ms`, in their original order. */
  function Select(rows: seq<Row>, ms: seq<Criterion>): (out: seq<Row>)
    ensures |out| <= |rows|
    decreases |rows|
  {
    if rows == [] then []
    else
      var init, r := rows[..|rows| - 1], rows[|rows| - 1];
      Select(init, ms) + (if HoldsAll(ms, r) then [r] else [])
  }

  /** `df[mask]`: the rows that pass one mask. */
  function Where(rows: seq<Row>, m: Criterion): seq<Row>
  {
    Select(rows, [m])
  }

  /** `a` is `b` with some elements left out and the rest in their order. */
  predicate SubseqOf<T(==)>(a: seq<T>, b: seq<T>)
    decreases |b|
  {
    if a == [] then true
    else if b == [] then false
    else
      (a[|a| - 1] == b[|b| - 1] && SubseqOf(a[..|a| - 1], b[..|b| - 1]))
      || SubseqOf(a, b[..|b| - 1])
  }

  /** Filtering keeps the passing rows in their original order. */
  lemma {:induction false} SelectIsSubsequence(rows: seq<Row>, ms: seq<Criterion>)
    ensures SubseqOf(Select(rows, ms), rows)
    decreases |rows|
  {
    if rows != [] {
      var init, r := rows[..|rows| - 1], rows[|rows| - 1];
      SelectIsSubsequence(init, ms);
      var out := Select(rows, ms);
      if HoldsAll(ms, r) {
        assert out[..|out| - 1] == Select(init, ms);
      } else {
        assert out == Select(init, ms);
        SubseqDropLast(out, rows);
      }
    }
  }

  /** A row is kept exactly when it is in the table and passes every mask. */
  lemma {:induction false} SelectMembers(rows: seq<Row>, ms: seq<Criterion>)
    ensures forall r :: r in Select(rows, ms) <==> r in rows && HoldsAll(ms, r)
    decreases |rows|
  {
    if rows != [] {
      var init, r := rows[..|rows| - 1], rows[|rows| - 1];
      assert rows == init + [r];
      SelectMembers(init, ms);
    }
  }

  /** A passing row is kept as many times as it occurs; a failing one never. */
  lemma {:induction false} SelectMultiplicity(rows: seq<Row>, ms: seq<Criterion>, x: Row)
    ensures multiset(Select(rows, ms))[x] == if HoldsAll(ms, x) then multiset(rows)[x] else 0
    decreases |rows|
  {
    if rows != [] {
      var init, r := rows[..|rows| - 1], rows[|rows| - 1];
      assert rows == init + [r];
      SelectMultiplicity(init, ms, x);
    }
  }

  lemma SubseqDropLast<T>(a: seq<T>, b: seq<T>)
    requires b != [] && SubseqOf(a, b[..|b| - 1])
    ensures SubseqOf(a, b)
  {
  }

  lemma {:induction false} SelectNothing(rows: seq<Row>)
    ensures Select(rows, []) == rows
    decreases |rows|
  {
    if rows != [] {
      assert rows == rows[..|rows| - 1] + [rows[|rows| - 1]];
      SelectNothing(rows[..|rows| - 1]);
    }
  }

  lemma {:induction false} SelectAppend(a: seq<Row>, b: seq<Row>, ms: seq<Criterion>)
    ensures Select(a + b, ms) == Select(a, ms) + Select(b, ms)
    decreases |b|
  {
    if b != [] {
      var init, r := b[..|b| - 1], b[|b| - 1];
      assert (a + b)[..|a + b| - 1] == a + init;
      assert (a + b)[|a + b| - 1] == r;
      SelectAppend(a, init, ms);
      var keep := if HoldsAll(ms, r) then [r] else [];
      assert Select(a + b, ms) == Select(a + init, ms) + keep;
      assert Select(b, ms) == Select(init, ms) + keep;
      assert Select(a, ms) + Select(init, ms) + keep == Select(a, ms) + (Select(init, ms) + keep);
    } else {
      assert a + b == a;
    }
  }

  /** Filtering by `ms1` and then by `ms2` is filtering once by both. */
  lemma {:induction false} SelectThenSelect(rows: seq<Row>, ms1: seq<Criterion>, ms2: seq<Criterion>)
    ensures Select(Select(rows, ms1), ms2) == Select(rows, ms1 + ms2)
    decreases |rows|
  {
    if rows != [] {
      var init, r := rows[..|rows| - 1], rows[|rows| - 1];
      SelectThenSelect(init, ms1, ms2);
      var keep := if HoldsAll(ms1, r) then [r] else [];
      SelectAppend(Select(init, ms1), keep, ms2);
      HoldsAllAppend(ms1, ms2, r);
      if HoldsAll(ms1, r) {
        assert Select([r], ms2) == Select([], ms2) + (if HoldsAll(ms2, r) then [r] else []);
      }
    }
  }

  lemma HoldsAllAppend(ms1: seq<Criterion>, ms2: seq<Criterion>, r: Row)
    ensures HoldsAll(ms1 + ms2, r) <==> HoldsAll(ms1, r) && HoldsAll(ms2, r)
  {
    if HoldsAll(ms1, r) && HoldsAll(ms2, r) {
      forall i | 0 <= i < |ms1 + ms2| ensures Holds((ms1 + ms2)[i], r) {
        if i >= |ms1| { assert (ms1 + ms2)[i] == ms2[i - |ms1|]; }
      }
    }
    if HoldsAll(ms1 + ms2, r) {
      forall i | 0 <= i < |ms1| ensures Holds(ms1[i], r) {
        assert (ms1 + ms2)[i] == ms1[i];
      }
      forall i | 0 <= i < |ms2| ensures Holds(ms2[i], r) {
        assert (ms1 + ms2)[|ms1| + i] == ms2[i];
      }
    }
  }

  lemma HoldsOne(m: Criterion, r: Row)
    ensures HoldsAll([m], r) <==> Holds(m, r)
  {
    assert [m][0] == m;
  }

  /** Filtering an already filtered table again by the same masks changes nothing. */
  lemma SelectIdempotent(rows: seq<Row>, ms: seq<Criterion>)
    ensures Select(Select(rows, ms), ms) == Select(rows, ms)
  {
    SelectThenSelect(rows, ms, ms);
    forall r | r in rows ensures HoldsAll(ms + ms, r) <==> HoldsAll(ms, r) {
      HoldsAllAppend(ms, ms, r);
    }
    SelectSameMasks(rows, ms + ms, ms);
  }

  /** Two mask lists that every row passes or fails alike filter alike. */
  lemma {:induction false} SelectSameMasks(rows: seq<Row>, ms1: seq<Criterion>, ms2: seq<Criterion>)
    requires forall r :: r in rows ==> (HoldsAll(ms1, r) <==> HoldsAll(ms2, r))
    ensures Select(rows, ms1) == Select(rows, ms2)
    decreases |rows|
  {
    if rows != [] {
      SelectSameMasks(rows[..|rows| - 1], ms1, ms2);
    }
  }

  /**
   * Stronger masks select a part of what weaker ones select: narrowing a
   * filter never lets a row in and never reorders.
   */
  lemma {:induction false} SelectStronger(rows: seq<Row>, strong: seq<Criterion>, weak: seq<Criterion>)
    requires forall r :: r in rows && HoldsAll(strong, r) ==> HoldsAll(weak, r)
    ensures SubseqOf(Select(rows, strong), Select(rows, weak))
    ensures |Select(rows, strong)| <= |Select(rows, weak)|
    decreases |rows|
  {
    if rows != [] {
      var init, r := rows[..|rows| - 1], rows[|rows| - 1];
      assert rows == init + [r];
      SelectStronger(init, strong, weak);
      var s, w := Select(rows, strong), Select(rows, weak);
      if HoldsAll(strong, r) {
        assert s[..|s| - 1] == Select(init, strong) && w[..|w| - 1] == Select(init, weak);
      } else if HoldsAll(weak, r) {
        assert s == Select(init, strong);
        assert w[..|w| - 1] == Select(init, weak);
        SubseqDropLast(s, w);
      } else {
        assert s == Select(init, strong) && w == Select(init, weak);
      }
    }
  }

  /** The sentinel the select boxes append to their options. */
  const AllChoice: string := "All"

  /** `np.append(df[c].unique(), 'All')`: the options of a select box. */
  function Options(rows: seq<Row>, c: Column): seq<string>
  {
    Unique(Values(rows, c)) + [AllChoice]
  }

  /** `len(options) - 1`: the select box's default position. */
  function DefaultIndex(options: seq<string>): int
  {
    |options| - 1
  }

  /**
   * The options are the distinct values of the column among the current
   * rows, each once, in order of first appearance, followed by `'All'`,
   * which is what the default position selects.
   */
  lemma OptionsShape(rows: seq<Row>, c: Column)
    ensures var opts := Options(rows, c);
      && 0 <= DefaultIndex(opts) < |opts|
      && opts[DefaultIndex(opts)] == AllChoice
      && Distinct(opts[..|opts| - 1])
      && (forall i :: 0 <= i < |opts| - 1 ==> opts[i] in Values(rows, c))
      && (forall r :: r in rows ==> Field(r, c) in opts[..|opts| - 1])
      && (forall i, j :: 0 <= i < j < |opts| - 1 ==>
            FirstIndex(Values(rows, c), opts[i]) < FirstIndex(Values(rows, c), opts[j]))
  {
    var col := Values(rows, c);
    var opts := Options(rows, c);
    assert opts[..|opts| - 1] == Unique(col);
    UniqueInFirstAppearanceOrder(col);
    forall r | r in rows
      ensures Field(r, c) in col
    {
      var i :| 0 <= i < |rows| && rows[i] == r;
      assert col[i] == Field(r, c);
    }
  }

  /**
   * Choosing a value other than `'All'` from the options keeps at least one
   * row, since the options come from the rows themselves.
   */
  lemma PickFromOptionsKeepsRows(rows: seq<Row>, c: Column, v: string)
    requires v in Options(rows, c) && v != AllChoice
    ensures |Where(rows, Equals(c, v))| > 0
  {
    var col := Values(rows, c);
    assert v in Unique(col);
    var i :| 0 <= i < |col| && col[i] == v;
    SelectMembers(rows, [Equals(c, v)]);
    assert HoldsAll([Equals(c, v)], rows[i]);
    assert rows[i] in Where(rows, Equals(c, v));
  }

  /** The count of `v` in a column is the number of rows `df[df[c] == v]` keeps. */
  lemma {:induction false} CountIsRowsKept(rows: seq<Row>, c: Column, v: string)
    ensures Count(Values(rows, c), v) == |Where(rows, Equals(c, v))|
    decreases |rows|
  {
    if rows != [] {
      var init, r := rows[..|rows| - 1], rows[|rows| - 1];
      assert Values(rows, c)[..|rows| - 1] == Values(init, c);
      CountIsRowsKept(init, c, v);
      HoldsOne(Equals(c, v), r);
    }
  }
}

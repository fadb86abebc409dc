/**
 * The quick statistics and the tables behind the charts: `tot_calls`, the
 * single-column `value_counts()` tables and the two `groupby(...).count()`
 * cross tabulations, all computed from the rows the sidebar leaves.
 */
module Stats {
  import opened StringOrder
  import opened Counting
  import opened Incidents

  /** Counts never increase from one line of a table to the next. */
  predicate NonIncreasing<K>(t: seq<Entry<K>>)
  {
    forall i :: 0 <= i < |t| - 1 ==> t[i].count >= t[i + 1].count
  }

  /** Inserts `e` before the first line whose count is not above its own. */
  function InsertByCount<K(==,!new)>(e: Entry<K>, t: seq<Entry<K>>): (r: seq<Entry<K>>)
    ensures |r| == |t| + 1
    ensures forall x :: x in r <==> x == e || x in t
    ensures Total(r) == Total(t) + e.count
    ensures r[0] == e || (t != [] && r[0] == t[0])
    ensures NonIncreasing(t) ==> NonIncreasing(r)
  {
    if t == [] || e.count >= t[0].count then [e] + t
    else [t[0]] + InsertByCount(e, t[1..])
  }

  lemma {:induction false} InsertByCountKeepsKeysDistinct<K(!new)>(e: Entry<K>, t: seq<Entry<K>>)
    requires Distinct(Keys(t)) && e.key !in Keys(t)
    ensures Distinct(Keys(InsertByCount(e, t)))
  {
    if t == [] || e.count >= t[0].count {
      ConsKeysDistinct(e, t);
    } else {
      TailKeys(t);
      InsertByCountKeepsKeysDistinct(e, t[1..]);
      var r' := InsertByCount(e, t[1..]);
      if t[0].key in Keys(r') {
        KeysOfMembers(r', [e] + t[1..], t[0].key);
        TailKeys([e] + t[1..]);
        assert false;
      }
      ConsKeysDistinct(t[0], r');
    }
  }

  /** Orders a table by non-increasing count. */
  function SortByCount<K(==,!new)>(t: seq<Entry<K>>): (r: seq<Entry<K>>)
    ensures |r| == |t|
    ensures forall x :: x in r <==> x in t
    ensures Total(r) == Total(t)
    ensures NonIncreasing(r)
  {
    if t == [] then [] else InsertByCount(t[0], SortByCount(t[1..]))
  }

  lemma {:induction false} SortByCountKeepsKeysDistinct<K(!new)>(t: seq<Entry<K>>)
    requires Distinct(Keys(t))
    ensures Distinct(Keys(SortByCount(t)))
  {
    if t != [] {
      TailKeys(t);
      SortByCountKeepsKeysDistinct(t[1..]);
      var rest := SortByCount(t[1..]);
      if t[0].key in Keys(rest) {
        KeysOfMembers(rest, t[1..], t[0].key);
        assert false;
      }
      InsertByCountKeepsKeysDistinct(t[0], rest);
    }
  }

  /** Every count of a table that tabulates a column is the number of rows carrying its key. */
  lemma CountsAreRowsKept(t: seq<Entry<string>>, rows: seq<Row>, c: Column)
    requires Tabulates(t, Values(rows, c))
    ensures forall i :: 0 <= i < |t| ==> t[i].count == |Where(rows, Equals(c, t[i].key))|
  {
    forall i | 0 <= i < |t| {
      CountIsRowsKept(rows, c, t[i].key);
    }
  }

  /**
   * `df[c].value_counts()`: every value of the column exactly once, with the
   * number of rows carrying it, the most frequent first; the counts add up
   * to the number of rows.
   */
  function ValueCounts(rows: seq<Row>, c: Column): (table: seq<Entry<string>>)
    ensures Tabulates(table, Values(rows, c))
    ensures forall i :: 0 <= i < |table| ==> table[i].count == |Where(rows, Equals(c, table[i].key))|
    ensures NonIncreasing(table)
    ensures Total(table) == |rows|
  {
    var t := Tally(Values(rows, c));
    var r := SortByCount(t);
    TallyTabulates(Values(rows, c));
    SortByCountKeepsKeysDistinct(t);
    TabulatesRearranged(t, r, Values(rows, c));
    CountsAreRowsKept(r, rows, c);
    r
  }

  /** A group key of a two-column `groupby`: (first column, second column). */
  type Pair = (string, string)

  /** The order `groupby` sorts its group keys in: by the first column, then by the second. */
  predicate PairLess(a: Pair, b: Pair)
  {
    Less(a.0, b.0) || (a.0 == b.0 && Less(a.1, b.1))
  }

  lemma PairLessIrreflexive(a: Pair)
    ensures !PairLess(a, a)
  {
    LessIrreflexive(a.0);
    LessIrreflexive(a.1);
  }

  lemma PairLessTrichotomous(a: Pair, b: Pair)
    ensures PairLess(a, b) || a == b || PairLess(b, a)
  {
    LessTrichotomous(a.0, b.0);
    LessTrichotomous(a.1, b.1);
  }

  lemma PairLessTransitive(a: Pair, b: Pair, c: Pair)
    requires PairLess(a, b) && PairLess(b, c)
    ensures PairLess(a, c)
  {
    if Less(a.0, b.0) && Less(b.0, c.0) {
      LessTransitive(a.0, b.0, c.0);
    } else if Less(a.1, b.1) && Less(b.1, c.1) {
      LessTransitive(a.1, b.1, c.1);
    }
  }

  /** Each key is below the next one. */
  predicate Ascending(t: seq<Entry<Pair>>)
  {
    forall i :: 0 <= i < |t| - 1 ==> PairLess(t[i].key, t[i + 1].key)
  }

  /** Inserts `e` before the first line whose key is above its own. */
  function InsertByKey(e: Entry<Pair>, t: seq<Entry<Pair>>): (r: seq<Entry<Pair>>)
    ensures |r| == |t| + 1
    ensures forall x :: x in r <==> x == e || x in t
    ensures Total(r) == Total(t) + e.count
    ensures r[0] == e || (t != [] && r[0] == t[0])
    ensures Ascending(t) && e.key !in Keys(t) ==> Ascending(r)
  {
    if t == [] || PairLess(e.key, t[0].key) then [e] + t
    else
      TailKeys(t);
      PairLessTrichotomous(e.key, t[0].key);
      [t[0]] + InsertByKey(e, t[1..])
  }

  /** Orders a table by ascending key. */
  function SortByKey(t: seq<Entry<Pair>>): (r: seq<Entry<Pair>>)
    ensures |r| == |t|
    ensures forall x :: x in r <==> x in t
    ensures Total(r) == Total(t)
  {
    if t == [] then [] else InsertByKey(t[0], SortByKey(t[1..]))
  }

  lemma {:induction false} SortByKeyAscending(t: seq<Entry<Pair>>)
    requires Distinct(Keys(t))
    ensures Ascending(SortByKey(t))
  {
    if t != [] {
      TailKeys(t);
      SortByKeyAscending(t[1..]);
      var rest := SortByKey(t[1..]);
      if t[0].key in Keys(rest) {
        KeysOfMembers(rest, t[1..], t[0].key);
        assert false;
      }
    }
  }

  /** In an ascending table every key is below every later key, so no key repeats. */
  lemma {:induction false} AscendingIsStrict(t: seq<Entry<Pair>>)
    requires Ascending(t)
    ensures forall i, j :: 0 <= i < j < |t| ==> PairLess(t[i].key, t[j].key)
    ensures Distinct(Keys(t))
  {
    if t != [] {
      AscendingIsStrict(t[1..]);
      forall j | 1 < j < |t|
        ensures PairLess(t[0].key, t[j].key)
      {
        assert PairLess(t[1..][0].key, t[1..][j - 1].key);
        PairLessTransitive(t[0].key, t[1].key, t[j].key);
      }
      forall i, j | 0 <= i < j < |t|
        ensures Keys(t)[i] != Keys(t)[j]
      {
        if 0 < i {
          assert PairLess(t[1..][i - 1].key, t[1..][j - 1].key);
        }
        if Keys(t)[i] == Keys(t)[j] {
          PairLessIrreflexive(t[i].key);
        }
      }
    }
  }

  /**
   * The two columns `c1`, `c2` of `rows`, row by row. The ensures only spell
   * out the comprehension pointwise, for the verifier's use.
   */
  function PairValues(rows: seq<Row>, c1: Column, c2: Column): (col: seq<Pair>)
    ensures |col| == |rows|
    ensures forall i :: 0 <= i < |rows| ==> col[i] == (Field(rows[i], c1), Field(rows[i], c2))
  {
    seq(|rows|, i requires 0 <= i < |rows| => (Field(rows[i], c1), Field(rows[i], c2)))
  }

  /** The masks that pick out one group of a two-column `groupby`. */
  function GroupMasks(c1: Column, c2: Column, k: Pair): seq<Criterion>
  {
    [Equals(c1, k.0), Equals(c2, k.1)]
  }

  lemma HoldsGroupMasks(c1: Column, c2: Column, k: Pair, r: Row)
    ensures HoldsAll(GroupMasks(c1, c2, k), r) <==> (Field(r, c1), Field(r, c2)) == k
  {
    var ms := GroupMasks(c1, c2, k);
    assert ms[0] == Equals(c1, k.0) && ms[1] == Equals(c2, k.1);
  }

  /** The count of a pair is the number of rows in its group. */
  lemma {:induction false} PairCountIsGroupSize(rows: seq<Row>, c1: Column, c2: Column, k: Pair)
    ensures Count(PairValues(rows, c1, c2), k) == |Select(rows, GroupMasks(c1, c2, k))|
    decreases |rows|
  {
    if rows != [] {
      var init, r := rows[..|rows| - 1], rows[|rows| - 1];
      assert PairValues(rows, c1, c2)[..|rows| - 1] == PairValues(init, c1, c2);
      PairCountIsGroupSize(init, c1, c2, k);
      HoldsGroupMasks(c1, c2, k, r);
    }
  }

  /**
   * `df.groupby([c1, c2]).count()`: every combination of the two columns that
   * occurs, exactly once and with the number of rows in its group, in
   * ascending key order; combinations that do not occur are left out, not
   * given a zero.
   */
  function CrossTab(rows: seq<Row>, c1: Column, c2: Column): (table: seq<Entry<Pair>>)
    ensures Tabulates(table, PairValues(rows, c1, c2))
    ensures forall i :: 0 <= i < |table| ==> table[i].count > 0
    ensures forall i :: 0 <= i < |table| ==>
      table[i].count == |Select(rows, GroupMasks(c1, c2, table[i].key))|
    ensures forall i, j :: 0 <= i < j < |table| ==> PairLess(table[i].key, table[j].key)
    ensures Total(table) == |rows|
  {
    var col := PairValues(rows, c1, c2);
    var t := Tally(col);
    var r := SortByKey(t);
    TallyTabulates(col);
    SortByKeyAscending(t);
    AscendingIsStrict(r);
    TabulatesRearranged(t, r, col);
    assert forall i :: 0 <= i < |r| ==> r[i].count == Count(col, r[i].key) && r[i].key in col;
    GroupSizes(r, rows, c1, c2);
    r
  }

  lemma GroupSizes(t: seq<Entry<Pair>>, rows: seq<Row>, c1: Column, c2: Column)
    requires Tabulates(t, PairValues(rows, c1, c2))
    ensures forall i :: 0 <= i < |t| ==> t[i].count == |Select(rows, GroupMasks(c1, c2, t[i].key))|
  {
    forall i | 0 <= i < |t| {
      PairCountIsGroupSize(rows, c1, c2, t[i].key);
    }
  }

  /** Everything the quick stats and the charts show. */
  datatype Summary = Summary(
    totCalls: nat,
    callsRegion: seq<Entry<string>>,
    callsCounty: seq<Entry<string>>,
    callsPurpose: seq<Entry<string>>,
    callsGender: seq<Entry<string>>,
    purposeGender: seq<Entry<Pair>>,
    regionGender: seq<Entry<Pair>>,
    statusDist: seq<Entry<string>>,
    callsIntervention: seq<Entry<string>>)

  /**
   * The calculations of the script on the filtered rows: `tot_calls` is their
   * number, each table counts its own column (or pair of columns), the
   * `value_counts` tables run from the largest count down, the `groupby`
   * tables are sorted by key, and the counts of every table add up to
   * `tot_calls`.
   */
  function Summarise(df: seq<Row>): (s: Summary)
    ensures s.totCalls == |df|
    ensures Tabulates(s.callsRegion, Values(df, Region)) && NonIncreasing(s.callsRegion)
    ensures Tabulates(s.callsCounty, Values(df, County)) && NonIncreasing(s.callsCounty)
    ensures Tabulates(s.callsPurpose, Values(df, Purpose)) && NonIncreasing(s.callsPurpose)
    ensures Tabulates(s.callsGender, Values(df, CallerGender)) && NonIncreasing(s.callsGender)
    ensures Tabulates(s.statusDist, Values(df, Status)) && NonIncreasing(s.statusDist)
    ensures Tabulates(s.callsIntervention, Values(df, Intervention)) && NonIncreasing(s.callsIntervention)
    ensures Tabulates(s.purposeGender, PairValues(df, Purpose, CallerGender)) && Ascending(s.purposeGender)
    ensures Tabulates(s.regionGender, PairValues(df, Region, CallerGender)) && Ascending(s.regionGender)
    ensures Total(s.callsRegion) == s.totCalls && Total(s.callsCounty) == s.totCalls
    ensures Total(s.callsPurpose) == s.totCalls && Total(s.callsGender) == s.totCalls
    ensures Total(s.purposeGender) == s.totCalls && Total(s.regionGender) == s.totCalls
    ensures Total(s.statusDist) == s.totCalls && Total(s.callsIntervention) == s.totCalls
  {
    Summary(
      |df|,
      ValueCounts(df, Region),
      ValueCounts(df, County),
      ValueCounts(df, Purpose),
      ValueCounts(df, CallerGender),
      CrossTab(df, Purpose, CallerGender),
      CrossTab(df, Region, CallerGender),
      ValueCounts(df, Status),
      ValueCounts(df, Intervention))
  }
}

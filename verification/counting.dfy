/**
 * Counting the values of one column: the distinct values in the order they
 * first appear (what pandas' `Series.unique` returns) and a table of how often
 * each one occurs (what `Series.value_counts` and `groupby(...).count()` are
 * built from).
 */
module Counting {

  /** Number of occurrences of `x` in `s`. */
  function Count<T(==)>(s: seq<T>, x: T): (n: nat)
    ensures n <= |s|
    ensures n > 0 <==> x in s
    decreases |s|
  {
    if s == [] then 0
    else
      assert s == s[..|s| - 1] + [s[|s| - 1]];
      Count(s[..|s| - 1], x) + (if s[|s| - 1] == x then 1 else 0)
  }

  predicate Distinct<T(==)>(s: seq<T>)
  {
    forall i, j :: 0 <= i < j < |s| ==> s[i] != s[j]
  }

  /** The position of the first occurrence of `x` in `s`. */
  function FirstIndex<T(==)>(s: seq<T>, x: T): (i: nat)
    requires x in s
    ensures i < |s| && s[i] == x
    ensures forall j :: 0 <= j < i ==> s[j] != x
  {
    if s[0] == x then 0 else 1 + FirstIndex(s[1..], x)
  }

  lemma FirstIndexInPrefix<T>(s: seq<T>, extra: seq<T>, x: T)
    requires x in s
    ensures FirstIndex(s + extra, x) == FirstIndex(s, x)
  {
    var k := FirstIndex(s, x);
    assert (s + extra)[k] == x;
  }

  /**
   * The distinct values of `s`, each once, in the order of their first
   * occurrence in `s`.
   */
  function Unique<T(==,!new)>(s: seq<T>): (u: seq<T>)
    ensures forall x :: x in u <==> x in s
    ensures Distinct(u)
    decreases |s|
  {
    if s == [] then []
    else
      var init, x := s[..|s| - 1], s[|s| - 1];
      assert s == init + [x];
      var u := Unique(init);
      if x in u then u else u + [x]
  }

  /** `Unique` lists the values in the order in which they first occur. */
  lemma {:induction false} UniqueInFirstAppearanceOrder<T(!new)>(s: seq<T>)
    ensures forall i, j :: 0 <= i < j < |Unique(s)| ==>
              FirstIndex(s, Unique(s)[i]) < FirstIndex(s, Unique(s)[j])
    decreases |s|
  {
    if s != [] {
      var init, x := s[..|s| - 1], s[|s| - 1];
      assert s == init + [x];
      UniqueInFirstAppearanceOrder(init);
      var u, u' := Unique(s), Unique(init);
      forall i, j | 0 <= i < j < |u|
        ensures FirstIndex(s, u[i]) < FirstIndex(s, u[j])
      {
        assert u[i] in u' by { assert u[i] == u'[i]; }
        FirstIndexInPrefix(init, [x], u[i]);
        if j < |u'| {
          assert u[j] == u'[j];
          FirstIndexInPrefix(init, [x], u[j]);
        } else {
          assert u[j] == x && x !in init;
          assert FirstIndex(s, x) == |init|;
        }
      }
    }
  }

  /** One line of a count table: a key and the number of rows carrying it. */
  datatype Entry<K> = Entry(key: K, count: nat)

  /**
   * The key column of a table. The ensures only spell out the comprehension
   * pointwise, so that the verifier can use it without unfolding the body.
   */
  function Keys<K>(t: seq<Entry<K>>): (ks: seq<K>)
    ensures |ks| == |t|
    ensures forall i :: 0 <= i < |t| ==> ks[i] == t[i].key
  {
    seq(|t|, i requires 0 <= i < |t| => t[i].key)
  }

  /** The sum of the counts of a table. */
  function Total<K>(t: seq<Entry<K>>): nat
  {
    if t == [] then 0 else t[0].count + Total(t[1..])
  }

  lemma {:induction false} TotalAppend<K>(t: seq<Entry<K>>, e: Entry<K>)
    ensures Total(t + [e]) == Total(t) + e.count
  {
    if t != [] {
      assert (t + [e])[1..] == t[1..] + [e];
      TotalAppend(t[1..], e);
    }
  }

  lemma {:induction false} TotalIncrement<K>(t: seq<Entry<K>>, i: nat)
    requires i < |t|
    ensures Total(t[i := Entry(t[i].key, t[i].count + 1)]) == Total(t) + 1
  {
    if i > 0 {
      assert t[i := Entry(t[i].key, t[i].count + 1)][1..] == t[1..][i - 1 := Entry(t[i].key, t[i].count + 1)];
      TotalIncrement(t[1..], i - 1);
    }
  }

  /** Records one more occurrence of `x` in a table with distinct keys. */
  function Bump<K(==)>(t: seq<Entry<K>>, x: K): (r: seq<Entry<K>>)
    requires Distinct(Keys(t))
    ensures Keys(r) == if x in Keys(t) then Keys(t) else Keys(t) + [x]
    ensures Total(r) == Total(t) + 1
    ensures forall i :: 0 <= i < |t| ==> r[i].count == t[i].count + (if t[i].key == x then 1 else 0)
    ensures x !in Keys(t) ==> r[|t|].count == 1
  {
    if x in Keys(t) then
      var i := FirstIndex(Keys(t), x);
      TotalIncrement(t, i);
      t[i := Entry(x, t[i].count + 1)]
    else
      TotalAppend(t, Entry(x, 1));
      t + [Entry(x, 1)]
  }

  /**
   * The count table of `s`: its distinct values in order of first
   * appearance, each with its number of occurrences.
   */
  function Tally<K(==,!new)>(s: seq<K>): (t: seq<Entry<K>>)
    ensures Keys(t) == Unique(s)
    ensures forall i :: 0 <= i < |t| ==> t[i].count == Count(s, t[i].key)
    ensures Total(t) == |s|
    decreases |s|
  {
    if s == [] then []
    else
      var init, x := s[..|s| - 1], s[|s| - 1];
      var t := Tally(init);
      var r := Bump(t, x);
      assert x !in Keys(t) ==> Count(init, x) == 0;
      r
  }

  /**
   * `t` is a count table of `s`: every value of `s` appears as a key exactly
   * once, no other key appears, and each key carries its number of occurrences.
   */
  predicate Tabulates<K(==)>(t: seq<Entry<K>>, s: seq<K>)
  {
    && Distinct(Keys(t))
    && (forall i :: 0 <= i < |t| ==> t[i].key in s)
    && (forall x :: x in s ==> x in Keys(t))
    && (forall i :: 0 <= i < |t| ==> t[i].count == Count(s, t[i].key))
  }

  /** A table whose lines all come from `s` has only keys of `s`. */
  lemma KeysOfMembers<K>(r: seq<Entry<K>>, s: seq<Entry<K>>, k: K)
    requires forall x :: x in r ==> x in s
    requires k in Keys(r)
    ensures k in Keys(s)
  {
    var i :| 0 <= i < |r| && Keys(r)[i] == k;
    assert r[i] in s;
    var m :| 0 <= m < |s| && s[m] == r[i];
    assert Keys(s)[m] == k;
  }

  lemma ConsKeysDistinct<K>(h: Entry<K>, rest: seq<Entry<K>>)
    requires Distinct(Keys(rest)) && h.key !in Keys(rest)
    ensures Distinct(Keys([h] + rest))
  {
    var ks := Keys([h] + rest);
    forall i, j | 0 <= i < j < |ks|
      ensures ks[i] != ks[j]
    {
      assert ks[j] == Keys(rest)[j - 1];
      if i > 0 {
        assert ks[i] == Keys(rest)[i - 1];
      }
    }
  }

  lemma TailKeys<K>(t: seq<Entry<K>>)
    requires t != []
    ensures Keys(t[1..]) == Keys(t)[1..]
    ensures Distinct(Keys(t)) ==> Distinct(Keys(t[1..])) && t[0].key !in Keys(t[1..])
  {
    assert Keys(t[1..]) == Keys(t)[1..];
  }

  /** `Tally(s)` is a count table of `s`. */
  lemma TallyTabulates<K(!new)>(s: seq<K>)
    ensures Tabulates(Tally(s), s)
  {
    var t := Tally(s);
    forall i | 0 <= i < |t|
      ensures t[i].key in s
    {
      assert Keys(t)[i] in Unique(s);
    }
  }

  /** The entries of a count table may be rearranged freely. */
  lemma TabulatesRearranged<K>(t: seq<Entry<K>>, r: seq<Entry<K>>, s: seq<K>)
    requires Tabulates(t, s)
    requires forall e :: e in r <==> e in t
    requires Distinct(Keys(r))
    ensures Tabulates(r, s)
  {
    forall x | x in s
      ensures x in Keys(r)
    {
      var m :| 0 <= m < |t| && Keys(t)[m] == x;
      assert t[m] in r;
      var i :| 0 <= i < |r| && r[i] == t[m];
      assert Keys(r)[i] == x;
    }
    forall i | 0 <= i < |r|
      ensures r[i].key in s && r[i].count == Count(s, r[i].key)
    {
      assert r[i] in t;
    }
  }
}

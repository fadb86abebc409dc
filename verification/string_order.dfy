/**
 * The order Python puts on `str` values: code point by code point, and a
 * proper prefix before any of its extensions. The dashboard relies on it when
 * it compares the ISO timestamp column with the formatted date bounds, and
 * pandas' `groupby` relies on it when it sorts its group keys.
 */
module StringOrder {

  /** Python's `a < b` on two strings. */
  predicate Less(a: string, b: string)
    decreases |a|
  {
    if b == [] then false
    else if a == [] then true
    else if a[0] != b[0] then a[0] < b[0]
    else Less(a[1..], b[1..])
  }

  /** Python's `a <= b` on two strings. */
  predicate AtMost(a: string, b: string)
  {
    Less(a, b) || a == b
  }

  lemma {:induction false} LessIrreflexive(a: string)
    ensures !Less(a, a)
    decreases |a|
  {
    if a != [] {
      LessIrreflexive(a[1..]);
    }
  }

  lemma {:induction false} LessAsymmetric(a: string, b: string)
    requires Less(a, b)
    ensures !Less(b, a)
    decreases |a|
  {
    if a != [] && a[0] == b[0] {
      LessAsymmetric(a[1..], b[1..]);
    }
  }

  lemma {:induction false} LessTransitive(a: string, b: string, c: string)
    requires Less(a, b) && Less(b, c)
    ensures Less(a, c)
    decreases |a|
  {
    if a != [] && a[0] == b[0] && b[0] == c[0] {
      LessTransitive(a[1..], b[1..], c[1..]);
    }
  }

  /** Any two strings are comparable: exactly one of `<`, `==`, `>` holds. */
  lemma {:induction false} LessTrichotomous(a: string, b: string)
    ensures Less(a, b) || a == b || Less(b, a)
    decreases |a|
  {
    if a != [] && b != [] && a[0] == b[0] {
      LessTrichotomous(a[1..], b[1..]);
      if a[1..] == b[1..] {
        assert a == [a[0]] + a[1..] && b == [b[0]] + b[1..];
      }
    }
  }

  /** `a < b` is exactly "not `b <= a`". */
  lemma {:induction false} LessIsNotAtMost(a: string, b: string)
    ensures Less(a, b) <==> !AtMost(b, a)
  {
    LessTrichotomous(a, b);
    if Less(a, b) {
      LessAsymmetric(a, b);
      LessIrreflexive(a);
    }
  }
}

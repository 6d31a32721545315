/** The order `filterFaculty` sorts names by. The source calls
    `localeCompare`; this model compares strings lexicographically by
    character code, which is a strict total order. */
module Collation {

  /** `a` sorts strictly before `b`. */
  predicate NameLess(a: string, b: string) {
    if b == [] then false
    else if a == [] then true
    else if a[0] != b[0] then a[0] < b[0]
    else NameLess(a[1..], b[1..])
  }

  lemma {:induction false} NameLessIrreflexive(a: string)
    ensures !NameLess(a, a)
  {
    if a != [] {
      NameLessIrreflexive(a[1..]);
    }
  }

  lemma {:induction false} NameLessTransitive(a: string, b: string, c: string)
    requires NameLess(a, b) && NameLess(b, c)
    ensures NameLess(a, c)
  {
    if a != [] && a[0] == b[0] && b[0] == c[0] {
      NameLessTransitive(a[1..], b[1..], c[1..]);
    }
  }

  /** Any two different names are ordered one way or the other. */
  lemma {:induction false} NameLessTotal(a: string, b: string)
    ensures a == b || NameLess(a, b) || NameLess(b, a)
  {
    if a != [] && b != [] && a[0] == b[0] {
      NameLessTotal(a[1..], b[1..]);
      if a[1..] == b[1..] {
        assert a == [a[0]] + a[1..] && b == [b[0]] + b[1..];
      }
    }
  }

  /** If `a` is before `c`, then any `b` is after `a` or before `c`. */
  lemma NameLessSplit(a: string, b: string, c: string)
    requires NameLess(a, c)
    ensures NameLess(a, b) || NameLess(b, c)
  {
    NameLessTotal(a, b);
    NameLessTotal(b, c);
    if NameLess(b, a) && NameLess(c, b) {
      NameLessTransitive(c, b, a);
      NameLessTransitive(a, c, a);
      NameLessIrreflexive(a);
    }
  }
}

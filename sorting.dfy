/** `filteredFaculty.sort((a, b) => a.name.localeCompare(b.name))`.
    `Array.prototype.sort` is stable, so its result is fully determined by
    the comparator: the result of a stable insertion sort. */
module Sorting {
  import opened Records
  import opened Collation

  /** No record is followed by one whose name sorts before its own. */
  predicate Sorted(s: seq<Faculty>) {
    forall i, j {:trigger NameLess(s[j].name, s[i].name)} :: 0 <= i < j < |s| ==> !NameLess(s[j].name, s[i].name)
  }

  /** Puts `x` after every record of `s` whose name does not sort after
      `x`'s: before the first strictly greater name. */
  function Insert(s: seq<Faculty>, x: Faculty): seq<Faculty> {
    if s == [] then [x]
    else if NameLess(x.name, s[0].name) then [x] + s
    else [s[0]] + Insert(s[1..], x)
  }

  /** Insertion adds `x` and keeps every record of `s`. */
  lemma {:induction false} InsertPermutes(s: seq<Faculty>, x: Faculty)
    ensures multiset(Insert(s, x)) == multiset(s) + multiset{x}
  {
    if s != [] && !NameLess(x.name, s[0].name) {
      InsertPermutes(s[1..], x);
      assert s == [s[0]] + s[1..];
    }
  }

  /** Stable insertion sort by name: each record in turn is inserted after
      the records sorted before it. */
  function SortByName(s: seq<Faculty>): seq<Faculty> {
    if s == [] then []
    else Insert(SortByName(s[..|s| - 1]), s[|s| - 1])
  }

  /** Sorting is a permutation: it keeps every record as often as it occurs. */
  lemma {:induction false} SortByNamePermutes(s: seq<Faculty>)
    ensures multiset(SortByName(s)) == multiset(s)
  {
    if s != [] {
      var init, last := s[..|s| - 1], s[|s| - 1];
      SortByNamePermutes(init);
      InsertPermutes(SortByName(init), last);
      assert s == init + [last];
    }
  }

  lemma {:induction false} InsertSorted(s: seq<Faculty>, x: Faculty)
    requires Sorted(s)
    ensures Sorted(Insert(s, x))
  {
    if s != [] && !NameLess(x.name, s[0].name) {
      InsertSorted(s[1..], x);
      InsertPermutes(s[1..], x);
      var rest := Insert(s[1..], x);
      forall y | y in rest
        ensures !NameLess(y.name, s[0].name)
      {
        assert y in multiset(rest);
        if y != x {
          assert y in s[1..];
        }
      }
    } else if s != [] {
      forall j | 0 <= j < |s|
        ensures !NameLess(s[j].name, x.name)
      {
        if NameLess(s[j].name, x.name) {
          NameLessTransitive(s[j].name, x.name, s[0].name);
          if j == 0 {
            NameLessIrreflexive(s[0].name);
          }
        }
      }
    }
  }

  /** Sorting by name orders every pair of records, adjacent ones included. */
  lemma {:induction false} SortByNameSorted(s: seq<Faculty>)
    ensures Sorted(SortByName(s))
  {
    if s != [] {
      SortByNameSorted(s[..|s| - 1]);
      InsertSorted(SortByName(s[..|s| - 1]), s[|s| - 1]);
    }
  }

  /** Inserting into a sorted sequence puts the new record at position `j`
      when the names before `j` do not sort after it and those from `j` on do. */
  lemma {:induction false} InsertAt(s: seq<Faculty>, x: Faculty, j: nat)
    requires Sorted(s) && j <= |s|
    requires j > 0 ==> !NameLess(x.name, s[j - 1].name)
    requires forall k :: j <= k < |s| ==> NameLess(x.name, s[k].name)
    ensures Insert(s, x) == s[..j] + [x] + s[j..]
  {
    if s != [] && j > 0 {
      if NameLess(x.name, s[0].name) {
        NameLessSplit(x.name, s[j - 1].name, s[0].name);
        assert false;
      }
      InsertAt(s[1..], x, j - 1);
      assert s[..j] == [s[0]] + s[1..][..j - 1];
      assert s[j..] == s[1..][j - 1..];
    }
  }

  lemma SortedPrefix(s: seq<Faculty>, k: nat)
    requires Sorted(s) && k <= |s|
    ensures Sorted(s[..k])
  {
    forall i, j | 0 <= i < j < k ensures !NameLess(s[..k][j].name, s[..k][i].name) {
      assert s[..k][i] == s[i] && s[..k][j] == s[j];
      assert !NameLess(s[j].name, s[i].name);
    }
  }

  /** A sorted sequence is left as it is: sorting is idempotent. */
  lemma {:induction false} SortByNameOfSorted(s: seq<Faculty>)
    requires Sorted(s)
    ensures SortByName(s) == s
  {
    if s != [] {
      var init, last := s[..|s| - 1], s[|s| - 1];
      assert s == init + [last];
      SortedPrefix(s, |s| - 1);
      SortByNameOfSorted(init);
      if |init| > 0 {
        assert !NameLess(s[|s| - 1].name, s[|s| - 2].name);
      }
      InsertAt(init, last, |init|);
      assert init[..|init|] == init && init[|init|..] == [];
    }
  }

  /** The records of `s` named `n`, in their order in `s`. */
  function WithName(s: seq<Faculty>, n: string): seq<Faculty> {
    if s == [] then []
    else (if s[0].name == n then [s[0]] else []) + WithName(s[1..], n)
  }

  lemma {:induction false} WithNameAppend(a: seq<Faculty>, b: seq<Faculty>, n: string)
    ensures WithName(a + b, n) == WithName(a, n) + WithName(b, n)
  {
    if a == [] {
      assert a + b == b;
    } else {
      var c := a + b;
      assert c[0] == a[0] && c[1..] == a[1..] + b;
      WithNameAppend(a[1..], b, n);
    }
  }

  lemma {:induction false} WithNameNone(s: seq<Faculty>, n: string)
    requires forall k :: 0 <= k < |s| ==> s[k].name != n
    ensures WithName(s, n) == []
  {
    if s != [] {
      assert s[0].name != n;
      WithNameNone(s[1..], n);
    }
  }

  /** Inserting into a sorted sequence puts `x` after every record of the
      same name. */
  lemma {:induction false} InsertWithName(s: seq<Faculty>, x: Faculty, n: string)
    requires Sorted(s)
    ensures WithName(Insert(s, x), n) == WithName(s, n) + (if x.name == n then [x] else [])
  {
    if s == [] {
      assert WithName([x], n) == (if x.name == n then [x] else []) + WithName([], n);
    } else if NameLess(x.name, s[0].name) {
      var r := [x] + s;
      assert r[0] == x && r[1..] == s;
      if x.name == n {
        forall k | 0 <= k < |s|
          ensures s[k].name != n
        {
          if k > 0 {
            assert !NameLess(s[k].name, s[0].name);
          } else {
            NameLessIrreflexive(n);
          }
        }
        WithNameNone(s, n);
      }
    } else {
      var r := [s[0]] + Insert(s[1..], x);
      assert r[0] == s[0] && r[1..] == Insert(s[1..], x);
      InsertWithName(s[1..], x, n);
    }
  }

  /** The sort is stable: the records of any one name come out in the order
      they went in. */
  lemma {:induction false} SortByNameStable(s: seq<Faculty>, n: string)
    ensures WithName(SortByName(s), n) == WithName(s, n)
  {
    if s != [] {
      var init, last := s[..|s| - 1], s[|s| - 1];
      SortByNameStable(init, n);
      SortByNameSorted(init);
      InsertWithName(SortByName(init), last, n);
      WithNameAppend(init, [last], n);
      assert WithName([last], n) == (if last.name == n then [last] else []) + WithName([], n);
      assert s == init + [last];
    }
  }

  /** Sorting one more element of `s` inserts it into the sorted prefix. */
  lemma SortByNamePrefix(s: seq<Faculty>, k: nat)
    requires k < |s|
    ensures SortByName(s[..k + 1]) == Insert(SortByName(s[..k]), s[k])
  {
    assert s[..k + 1][..k] == s[..k];
  }

  /** The array contents after the shifting loop of `InsertInPlace`: the
      sorted prefix with `x` placed at `j` is the insertion of `x`. */
  lemma ShiftedIsInsert(sorted: seq<Faculty>, x: Faculty, j: nat, a: array<Faculty>)
    requires Sorted(sorted) && j <= |sorted| < a.Length
    requires forall k :: 0 <= k < j ==> a[k] == sorted[k]
    requires a[j] == x
    requires forall k :: j < k <= |sorted| ==> a[k] == sorted[k - 1]
    requires j > 0 ==> !NameLess(x.name, sorted[j - 1].name)
    requires forall k :: j <= k < |sorted| ==> NameLess(x.name, sorted[k].name)
    ensures a[..|sorted| + 1] == Insert(sorted, x)
  {
    InsertAt(sorted, x, j);
    var inserted := sorted[..j] + [x] + sorted[j..];
    forall k | 0 <= k <= |sorted|
      ensures a[k] == inserted[k]
    {
      if k > j {
        assert inserted[k] == sorted[j..][k - j - 1];
      }
    }
  }

  /** Moves `a[i]` down into the sorted prefix `a[..i]`, shifting the
      records whose names sort after it one place up. */
  method InsertInPlace(a: array<Faculty>, i: nat)
    requires i < a.Length && Sorted(a[..i])
    modifies a
    ensures a[..i + 1] == Insert(old(a[..i]), old(a[i]))
    ensures a[i + 1..] == old(a[i + 1..])
  {
    ghost var sorted := a[..i];
    var x := a[i];
    var j := i;
    while j > 0 && NameLess(x.name, a[j - 1].name)
      invariant 0 <= j <= i
      invariant forall k :: 0 <= k < j ==> a[k] == sorted[k]
      invariant forall k :: j < k <= i ==> a[k] == sorted[k - 1]
      invariant forall k :: i < k < a.Length ==> a[k] == old(a[k])
      invariant forall k :: j <= k < i ==> NameLess(x.name, sorted[k].name)
    {
      a[j] := a[j - 1];
      j := j - 1;
    }
    a[j] := x;
    ShiftedIsInsert(sorted, x, j, a);
  }

  /** Sorts `a` in place by name, keeping records with equal names in their
      original order. */
  method SortInPlace(a: array<Faculty>)
    modifies a
    ensures a[..] == SortByName(old(a[..]))
  {
    ghost var o := a[..];
    var i := 0;
    while i < a.Length
      invariant 0 <= i <= a.Length
      invariant a[..i] == SortByName(o[..i])
      invariant a[i..] == o[i..]
    {
      ghost var pre, rest := a[..i], a[i..];
      SortByNameSorted(o[..i]);
      InsertInPlace(a, i);
      SortByNamePrefix(o, i);
      assert a[i + 1..] == rest[1..] == o[i + 1..];
      i := i + 1;
    }
    assert a[..] == a[..a.Length];
    assert o == o[..a.Length];
  }
}

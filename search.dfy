/** The condition `filterFaculty` keeps a record under, and the filter
    over the loaded list. */
module Search {
  import opened Wrappers
  import opened Text
  import opened Departments
  import opened Records

  /** The search box value as the filter uses it: lowercased, then trimmed. */
  function SearchTerm(input: string): (term: string)
    ensures NoUpper(term)
    ensures Trimmed(term)
    ensures AllSpace(input) ==> term == []
  {
    var lowered := Lower(input);
    TrimNoUpper(lowered);
    assert AllSpace(input) ==> Trim(lowered) == [] by {
      if AllSpace(input) {
        assert AllSpace(lowered);
        TrimAllSpace(lowered);
      }
    }
    Trim(lowered)
  }

  /** `faculty.name.toLowerCase().includes(searchTerm)`. */
  predicate MatchesSearch(f: Faculty, term: string) {
    Contains(Lower(f.name), term)
  }

  /** The department test: the raw selected label is exactly `All`, or the
      two canonical departments are equal or one contains the other. */
  predicate MatchesDepartment(f: Faculty, current: Option<string>) {
    var selected := Canonical(current);
    var own := Canonical(f.department);
    current == Some("All") || own == selected || Contains(own, selected) || Contains(selected, own)
  }

  predicate Matches(f: Faculty, term: string, current: Option<string>) {
    MatchesSearch(f, term) && MatchesDepartment(f, current)
  }

  /** A blank search box matches every name. */
  lemma BlankSearchMatchesAll(f: Faculty, input: string)
    requires AllSpace(input)
    ensures MatchesSearch(f, SearchTerm(input))
  {
    ContainsEmpty(Lower(f.name));
  }

  /** A non-blank term matches exactly the names whose lower-case form has
      it as a substring; the name's letter case does not matter. */
  lemma SearchIsSubstring(f: Faculty, input: string)
    ensures MatchesSearch(f, SearchTerm(input)) <==>
            exists i :: OccursAt(Lower(f.name), SearchTerm(input), i)
    ensures MatchesSearch(f, SearchTerm(input)) <==>
            MatchesSearch(f.(name := Lower(f.name)), SearchTerm(input))
  {
    ContainsIff(Lower(f.name), SearchTerm(input));
    LowerIdempotent(f.name);
  }

  /** The search box value's letter case does not matter. */
  lemma SearchTermIgnoresCase(input: string)
    ensures SearchTerm(Lower(input)) == SearchTerm(input)
  {
    LowerIdempotent(input);
  }

  /** With the `All` button selected every record passes the department test. */
  lemma AllPassesEveryRecord(f: Faculty)
    ensures MatchesDepartment(f, Some("All"))
  {
  }

  /** Away from the `All` label, a record fails the department test when
      neither canonical form contains the other. */
  lemma DepartmentTestFails(f: Faculty, current: Option<string>, own: string, selected: string)
    requires current != Some("All")
    requires Canonical(f.department) == own && Canonical(current) == selected
    requires !Contains(own, selected) && !Contains(selected, own)
    ensures !MatchesDepartment(f, current)
  {
    ContainsSelf(own);
  }

  /** A record whose canonical department is empty (a missing field, say)
      passes the department test whatever is selected. */
  lemma EmptyDepartmentPassesEverySelection(f: Faculty, current: Option<string>)
    requires Canonical(f.department) == []
    ensures MatchesDepartment(f, current)
  {
    ContainsEmpty(Canonical(current));
  }

  /** A record passes the department test of its own department, and of every
      label with the same canonical form. */
  lemma OwnDepartmentPasses(f: Faculty, current: Option<string>)
    requires Canonical(current) == Canonical(f.department)
    ensures MatchesDepartment(f, current)
  {
  }

  /** Away from `All`, the department test is symmetric: swapping the record's
      department and the selected label gives the same answer. */
  lemma DepartmentTestSymmetric(f: Faculty, current: Option<string>)
    requires current != Some("All") && f.department != Some("All")
    ensures MatchesDepartment(f, current) == MatchesDepartment(f.(department := current), f.department)
  {
  }

  /** The records of `s`, in order, that satisfy `Matches`. */
  function Filter(s: seq<Faculty>, term: string, current: Option<string>): seq<Faculty>
  {
    if s == [] then []
    else
      var last := s[|s| - 1];
      Filter(s[..|s| - 1], term, current) + (if Matches(last, term, current) then [last] else [])
  }

  /** The filter keeps every matching record as often as it occurs and no
      other record. */
  lemma {:induction false} FilterCount(s: seq<Faculty>, term: string, current: Option<string>, x: Faculty)
    ensures multiset(Filter(s, term, current))[x] ==
            if Matches(x, term, current) then multiset(s)[x] else 0
  {
    if s != [] {
      var init, last := s[..|s| - 1], s[|s| - 1];
      FilterCount(init, term, current, x);
      assert s == init + [last];
    }
  }

  /** A record is in the filter's result if and only if it is in `s` and matches. */
  lemma FilterMembership(s: seq<Faculty>, term: string, current: Option<string>, x: Faculty)
    ensures x in Filter(s, term, current) <==> x in s && Matches(x, term, current)
  {
    FilterCount(s, term, current, x);
    assert x in Filter(s, term, current) <==> multiset(Filter(s, term, current))[x] > 0;
    assert x in s <==> multiset(s)[x] > 0;
  }

  /** A sequence whose every record matches passes the filter unchanged. */
  lemma {:induction false} FilterOfMatching(s: seq<Faculty>, term: string, current: Option<string>)
    requires forall x :: x in s ==> Matches(x, term, current)
    ensures Filter(s, term, current) == s
  {
    if s != [] {
      var init, last := s[..|s| - 1], s[|s| - 1];
      assert s == init + [last];
      assert last in s;
      FilterOfMatching(init, term, current);
    }
  }

  /** The filter's result is a sub-multiset of its input. */
  lemma FilterSubMultiset(s: seq<Faculty>, term: string, current: Option<string>)
    ensures multiset(Filter(s, term, current)) <= multiset(s)
  {
    forall x {
      FilterCount(s, term, current, x);
    }
  }

  /** The filter keeps the relative order of the records: its result is a
      subsequence of the input. */
  lemma {:induction false} FilterIsSubsequence(s: seq<Faculty>, term: string, current: Option<string>)
    ensures IsSubsequence(Filter(s, term, current), s)
  {
    if s != [] {
      var init, last := s[..|s| - 1], s[|s| - 1];
      FilterIsSubsequence(init, term, current);
      if Matches(last, term, current) {
        var kept := Filter(init, term, current);
        assert Filter(s, term, current) == kept + [last];
        var a := kept + [last];
        assert a[..|a| - 1] == kept && a[|a| - 1] == s[|s| - 1];
        assert IsSubsequence(a[..|a| - 1], s[..|s| - 1]);
        assert IsSubsequence(a, s);
      } else {
        var kept := Filter(init, term, current);
        SubsequenceOfLonger(kept, init, last);
        assert init + [last] == s;
        assert Filter(s, term, current) == kept;
      }
    }
  }

  /** `a` is `b` with some elements deleted. */
  predicate IsSubsequence<T(==)>(a: seq<T>, b: seq<T>)
    decreases |b|
  {
    if a == [] then true
    else if b == [] then false
    else if a[|a| - 1] == b[|b| - 1] then IsSubsequence(a[..|a| - 1], b[..|b| - 1])
    else IsSubsequence(a, b[..|b| - 1])
  }

  lemma {:induction false} SubsequenceOfLonger<T>(a: seq<T>, b: seq<T>, y: T)
    requires IsSubsequence(a, b)
    ensures IsSubsequence(a, b + [y])
    decreases |b|, 1
  {
    assert (b + [y])[..|b|] == b;
    if a != [] && a[|a| - 1] == y {
      DropLast(a, b);
    }
  }

  lemma {:induction false} DropLast<T>(a: seq<T>, b: seq<T>)
    requires a != [] && IsSubsequence(a, b)
    ensures IsSubsequence(a[..|a| - 1], b)
    decreases |b|, 0
  {
    var b' := b[..|b| - 1];
    if a[|a| - 1] == b[|b| - 1] {
      SubsequenceOfLonger(a[..|a| - 1], b', b[|b| - 1]);
      assert b' + [b[|b| - 1]] == b;
    } else {
      DropLast(a, b');
      SubsequenceOfLonger(a[..|a| - 1], b', b[|b| - 1]);
      assert b' + [b[|b| - 1]] == b;
    }
  }

  /** The loop of `allFaculty.filter(...)`: each record, in order, is kept
      when it matches. */
  method FilterRecords(all: seq<Faculty>, term: string, current: Option<string>) returns (kept: seq<Faculty>)
    ensures kept == Filter(all, term, current)
  {
    kept := [];
    for i := 0 to |all|
      invariant kept == Filter(all[..i], term, current)
    {
      assert all[..i + 1][..i] == all[..i];
      if Matches(all[i], term, current) {
        kept := kept + [all[i]];
      }
    }
    assert all[..|all|] == all;
  }
}

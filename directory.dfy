/** The directory page's state: the module-level variables `allFaculty`,
    `filteredFaculty` and `currentDepartment`, the search box value, and
    the `active` class of each department button; with the load, search,
    click and render operations that update them. */
module Directory {
  import opened Wrappers
  import opened Records
  import opened Search
  import opened Sorting

  /** The CSS state class of an availability badge. */
  function StateClass(available: bool): (c: string)
    ensures c in {"available", "busy"}
    ensures c == "available" <==> available
  {
    if available then "available" else "busy"
  }

  /** An availability badge: its text and its state class. */
  datatype Badge = Badge(text: string, state: string)

  const ListAvailable := "\U{25CF} Available"
  const ListBusy := "\U{25CF} Busy"
  const DetailAvailable := "\U{25CF} Currently Available"
  const DetailBusy := "\U{25CF} Currently Busy"

  /** The badge of a card in the list: one of exactly two labels. */
  function ListBadge(available: bool): (b: Badge)
    ensures b.text in {ListAvailable, ListBusy}
    ensures b.text == ListAvailable <==> available
    ensures b.state == StateClass(available)
  {
    Badge(if available then ListAvailable else ListBusy, StateClass(available))
  }

  /** The badge of the detail view: one of exactly two labels. */
  function DetailBadge(available: bool): (b: Badge)
    ensures b.text in {DetailAvailable, DetailBusy}
    ensures b.text == DetailAvailable <==> available
    ensures b.state == StateClass(available)
  {
    Badge(if available then DetailAvailable else DetailBusy, StateClass(available))
  }

  /** One card of the list: the record and its badge. */
  datatype Card = Card(faculty: Faculty, badge: Badge)

  /** What the faculty grid shows. */
  datatype View = NoResults | Listing(cards: seq<Card>) | LoadError

  function CardOf(f: Faculty): Card {
    Card(f, ListBadge(f.availability))
  }

  /** `v` is what rendering `s` shows: the "no results" indicator for an
      empty list, otherwise one card per record, in order. */
  predicate Shows(v: View, s: seq<Faculty>) {
    if s == [] then v == NoResults
    else v.Listing? && |v.cards| == |s| && forall k :: 0 <= k < |s| ==> v.cards[k] == CardOf(s[k])
  }

  /** The list `filterFaculty` computes from the loaded records, the search
      box value and the selected department. */
  function Pipeline(all: seq<Faculty>, input: string, current: Option<string>): seq<Faculty> {
    SortByName(Filter(all, SearchTerm(input), current))
  }

  /** The computed list holds each matching record exactly as often as the
      loaded list does, and nothing else. */
  lemma PipelineExact(all: seq<Faculty>, input: string, current: Option<string>, x: Faculty)
    ensures multiset(Pipeline(all, input, current))[x] ==
            if Matches(x, SearchTerm(input), current) then multiset(all)[x] else 0
    ensures x in Pipeline(all, input, current) <==> x in all && Matches(x, SearchTerm(input), current)
  {
    FilterCount(all, SearchTerm(input), current, x);
    SortByNamePermutes(Filter(all, SearchTerm(input), current));
    var r := Pipeline(all, input, current);
    assert x in r <==> multiset(r)[x] > 0;
    assert x in all <==> multiset(all)[x] > 0;
  }

  /** The computed list is a sub-multiset of the loaded list, ordered by name. */
  lemma PipelineSorted(all: seq<Faculty>, input: string, current: Option<string>)
    ensures multiset(Pipeline(all, input, current)) <= multiset(all)
    ensures Sorted(Pipeline(all, input, current))
    ensures forall k :: 0 < k < |Pipeline(all, input, current)| ==>
              !Collation.NameLess(Pipeline(all, input, current)[k].name, Pipeline(all, input, current)[k - 1].name)
  {
    FilterSubMultiset(all, SearchTerm(input), current);
    SortByNamePermutes(Filter(all, SearchTerm(input), current));
    SortByNameSorted(Filter(all, SearchTerm(input), current));
    var r := Pipeline(all, input, current);
    forall k | 0 < k < |r|
      ensures !Collation.NameLess(r[k].name, r[k - 1].name)
    {
      assert 0 <= k - 1 < k < |r|;
    }
  }

  /** Running the filter again on its own result changes nothing. */
  lemma PipelineIdempotent(all: seq<Faculty>, input: string, current: Option<string>)
    ensures Pipeline(Pipeline(all, input, current), input, current) == Pipeline(all, input, current)
  {
    var term := SearchTerm(input);
    var r := Pipeline(all, input, current);
    forall x | x in r
      ensures Matches(x, term, current)
    {
      PipelineExact(all, input, current, x);
    }
    FilterOfMatching(r, term, current);
    PipelineSorted(all, input, current);
    SortByNameOfSorted(r);
  }

  /** The outcome of the request `fetchFacultyData` makes: the parsed list,
      or a failure (a non-success status, a network or a parse error). */
  datatype Fetch = Fetched(data: seq<Faculty>) | FetchFailed

  class Page {
    var allFaculty: seq<Faculty>
    var filteredFaculty: seq<Faculty>
    var currentDepartment: Option<string>
    /** The value of the search box. */
    var searchText: string
    /** The `data-dept` attribute of each department button. */
    const labels: seq<Option<string>>
    /** Whether each department button carries the `active` class. */
    const active: array<bool>

    /** One flag per button, and the shown list never holds a record more
        often than the loaded list does. */
    ghost predicate Valid()
      reads this
    {
      active.Length == |labels| && multiset(filteredFaculty) <= multiset(allFaculty)
    }

    /** The page as the script starts it: nothing loaded, the `All`
        department selected; the buttons' classes come from the markup. */
    constructor (labels: seq<Option<string>>, initiallyActive: seq<bool>)
      requires |initiallyActive| == |labels|
      ensures Valid() && fresh(active)
      ensures this.labels == labels && active[..] == initiallyActive
      ensures allFaculty == [] && filteredFaculty == []
      ensures currentDepartment == Some("All") && searchText == ""
    {
      this.labels := labels;
      active := new bool[|labels|](k requires 0 <= k < |labels| => initiallyActive[k]);
      allFaculty := [];
      filteredFaculty := [];
      currentDepartment := Some("All");
      searchText := "";
    }

    /** `renderFacultyCards`: the "no results" indicator when the list is
        empty, otherwise one card per record. */
    method Render() returns (v: View)
      ensures Shows(v, filteredFaculty)
      ensures v.NoResults? <==> filteredFaculty == []
    {
      if |filteredFaculty| == 0 {
        return NoResults;
      }
      var cards: seq<Card> := [];
      for k := 0 to |filteredFaculty|
        invariant |cards| == k
        invariant forall m :: 0 <= m < k ==> cards[m] == CardOf(filteredFaculty[m])
      {
        cards := cards + [CardOf(filteredFaculty[k])];
      }
      v := Listing(cards);
    }

    /** The end of `fetchFacultyData`. On success both lists become the
        loaded data as it is, neither filtered nor sorted, and it is
        rendered; on failure the state is kept and the error is shown. */
    method FetchCompleted(outcome: Fetch) returns (v: View)
      requires Valid()
      modifies this
      ensures Valid()
      ensures outcome.Fetched? ==> allFaculty == outcome.data && filteredFaculty == outcome.data
      ensures outcome.Fetched? ==> Shows(v, outcome.data)
      ensures outcome.FetchFailed? ==> allFaculty == old(allFaculty) && filteredFaculty == old(filteredFaculty)
      ensures outcome.FetchFailed? ==> v == LoadError
      ensures currentDepartment == old(currentDepartment) && searchText == old(searchText)
    {
      if outcome.FetchFailed? {
        return LoadError;
      }
      allFaculty := outcome.data;
      filteredFaculty := outcome.data;
      v := Render();
    }

    /** `filterFaculty`: recompute the list from the loaded records, the
        search box and the selected department, sort it and render it. */
    method FilterFaculty() returns (v: View)
      requires Valid()
      modifies this
      ensures Valid()
      ensures filteredFaculty == Pipeline(allFaculty, searchText, currentDepartment)
      ensures Shows(v, filteredFaculty)
      ensures allFaculty == old(allFaculty) && currentDepartment == old(currentDepartment)
      ensures searchText == old(searchText)
    {
      var term := SearchTerm(searchText);
      var kept := FilterRecords(allFaculty, term, currentDepartment);
      var a := new Faculty[|kept|](k requires 0 <= k < |kept| => kept[k]);
      assert a[..] == kept;
      SortInPlace(a);
      assert a[..] == Pipeline(allFaculty, searchText, currentDepartment);
      filteredFaculty := a[..];
      PipelineSorted(allFaculty, searchText, currentDepartment);
      v := Render();
    }

    /** The search box's `input` listener: the box now holds `text`. */
    method SearchInput(text: string) returns (v: View)
      requires Valid()
      modifies this
      ensures Valid()
      ensures searchText == text
      ensures filteredFaculty == Pipeline(allFaculty, text, currentDepartment)
      ensures Shows(v, filteredFaculty)
      ensures allFaculty == old(allFaculty) && currentDepartment == old(currentDepartment)
    {
      searchText := text;
      v := FilterFaculty();
    }

    /** A department button's `click` listener: every button loses the
        `active` class, button `b` gains it, its label becomes the selected
        department and the list is recomputed. */
    method ClickButton(b: nat) returns (v: View)
      requires Valid() && b < |labels|
      modifies this, active
      ensures Valid()
      ensures forall k :: 0 <= k < active.Length ==> (active[k] <==> k == b)
      ensures currentDepartment == labels[b]
      ensures filteredFaculty == Pipeline(allFaculty, searchText, currentDepartment)
      ensures Shows(v, filteredFaculty)
      ensures allFaculty == old(allFaculty) && searchText == old(searchText)
    {
      ClearActive();
      active[b] := true;
      currentDepartment := labels[b];
      v := FilterFaculty();
    }

    /** `filterButtons.forEach(btn => btn.classList.remove('active'))`. */
    method ClearActive()
      modifies active
      ensures forall k :: 0 <= k < active.Length ==> !active[k]
    {
      for k := 0 to active.Length
        invariant forall m :: 0 <= m < k ==> !active[m]
      {
        active[k] := false;
      }
    }
  }
}

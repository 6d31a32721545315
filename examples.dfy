/** Concrete instances of the directory's behaviour: the normalisation and
    alias examples, the partial-label department match, the quirks of the
    `All` check and of the load path. */
module Examples {
  import opened Wrappers
  import opened Text
  import opened Departments
  import opened Collation
  import opened Records
  import opened Search
  import opened Sorting
  import opened Directory

  /** A name whose lower-case form is made of kept characters only, with
      no surrounding space, normalises to that form. */
  lemma NormalizesToLower(name: string, lowered: string)
    requires name != [] && Lower(name) == lowered
    requires AllKept(lowered) && Trimmed(lowered)
    ensures Normalize(Some(name)) == lowered
  {
    KeptHasNoAmpersand(lowered);
    ReplaceAmpersandNoop(lowered);
    StripOthersNoop(lowered);
    NormalizeVia(name, lowered, lowered, lowered);
  }

  /** A normalised name that is not an alias is its own canonical form. */
  lemma CanonicalIsNormal(name: Option<string>, n: string)
    requires Normalize(name) == n && n !in Aliases
    ensures Canonical(name) == n
  {
  }

  lemma LowerAmpersand(name: string)
    requires name == "A & B"
    ensures Lower(name) == "a & b"
  {
  }

  lemma SpellAmpersand(lowered: string)
    requires lowered == "a & b"
    ensures ReplaceAmpersand(lowered) == "a and b"
  {
    var front, back := "a ", " b";
    assert lowered == front + ['&'] + back;
    ReplaceAmpersandAppend(front + ['&'], back);
    ReplaceAmpersandAppend(front, ['&']);
    assert ReplaceAmpersand(['&']) == "and";
    ReplaceAmpersandNoop(front);
    ReplaceAmpersandNoop(back);
  }

  lemma KeepSpelled(spelled: string)
    requires spelled == "a and b"
    ensures StripOthers(spelled) == spelled && Trimmed(spelled)
  {
    StripOthersNoop(spelled);
  }

  /** `&` is rewritten before the strip, so `A & B` keeps the word `and`. */
  lemma AmpersandBecomesAnd(name: string)
    requires name == "A & B"
    ensures Normalize(Some(name)) == "a and b"
  {
    LowerAmpersand(name);
    SpellAmpersand(Lower(name));
    KeepSpelled(ReplaceAmpersand(Lower(name)));
    NormalizeVia(name, Lower(name), ReplaceAmpersand(Lower(name)), ReplaceAmpersand(Lower(name)));
  }

  /** `Maths` canonicalises to `mathematics` through the alias table. */
  lemma CanonicalMaths(name: string)
    requires name == "Maths"
    ensures Canonical(Some(name)) == "mathematics"
  {
    assert Normalize(Some(name)) == "maths" by {
      assert Lower(name) == "maths";
      NormalizesToLower(name, "maths");
    }
  }

  /** `Mathematics` is already canonical. */
  lemma CanonicalMathematicsName(name: string)
    requires name == "Mathematics"
    ensures Canonical(Some(name)) == "mathematics"
  {
    assert Normalize(Some(name)) == "mathematics" by {
      assert Lower(name) == "mathematics";
      NormalizesToLower(name, "mathematics");
    }
    CanonicalIsNormal(Some(name), "mathematics");
  }

  /** `Maths` and `Mathematics` have the same canonical department. */
  lemma MathsIsMathematics(maths: string, mathematics: string)
    requires maths == "Maths" && mathematics == "Mathematics"
    ensures Canonical(Some(maths)) == Canonical(Some(mathematics)) == "mathematics"
  {
    CanonicalMaths(maths);
    CanonicalMathematicsName(mathematics);
  }

  /** A plain name already canonical. */
  lemma CanonicalIsLower(name: string, lowered: string)
    requires name != [] && Lower(name) == lowered
    requires AllKept(lowered) && Trimmed(lowered) && lowered !in Aliases
    ensures Canonical(Some(name)) == lowered
  {
    NormalizesToLower(name, lowered);
  }

  lemma LowerEngineering(name: string)
    requires name == "Computer Science and Engineering"
    ensures Lower(name) == "computer science and engineering"
  {
  }

  lemma KeptEngineering(n: string)
    requires n == "computer science and engineering"
    ensures AllKept(n) && Trimmed(n) && n !in Aliases
  {
  }

  lemma CanonicalEngineering(name: string)
    requires name == "Computer Science and Engineering"
    ensures Canonical(Some(name)) == "computer science and engineering"
  {
    LowerEngineering(name);
    KeptEngineering(Lower(name));
    CanonicalIsLower(name, Lower(name));
  }

  lemma LowerScience(name: string)
    requires name == "Computer Science"
    ensures Lower(name) == "computer science"
  {
  }

  lemma KeptScience(n: string)
    requires n == "computer science"
    ensures AllKept(n) && Trimmed(n) && n !in Aliases
  {
  }

  lemma CanonicalScience(name: string)
    requires name == "Computer Science"
    ensures Canonical(Some(name)) == "computer science"
  {
    LowerScience(name);
    KeptScience(Lower(name));
    CanonicalIsLower(name, Lower(name));
  }

  lemma LowerPhysics(name: string)
    requires name == "Physics"
    ensures Lower(name) == "physics"
  {
  }

  lemma KeptPhysics(n: string)
    requires n == "physics"
    ensures AllKept(n) && Trimmed(n) && n !in Aliases && 'm' !in n && 'a' !in n
  {
  }

  lemma CanonicalPhysics(name: string)
    requires name == "Physics"
    ensures Canonical(Some(name)) == "physics"
  {
    LowerPhysics(name);
    KeptPhysics(Lower(name));
    CanonicalIsLower(name, Lower(name));
  }

  lemma KeptAll(n: string)
    requires n == "all"
    ensures Lower(n) == n && AllKept(n) && Trimmed(n) && n !in Aliases && 'p' !in n
  {
  }

  lemma CanonicalAllLower(name: string)
    requires name == "all"
    ensures Canonical(Some(name)) == "all"
  {
    KeptAll(name);
    CanonicalIsLower(name, name);
  }

  lemma PrefixOfEngineering(own: string, selected: string)
    requires own == "computer science and engineering" && selected == "computer science"
    ensures Contains(own, selected)
  {
    assert StartsWith(own, selected);
  }

  /** A record in "Computer Science and Engineering" passes the
      "Computer Science" button: the canonical label is a prefix of the
      record's canonical department. */
  lemma PartialLabelPasses(f: Faculty, button: string)
    requires f.department == Some("Computer Science and Engineering")
    requires button == "Computer Science"
    ensures MatchesDepartment(f, Some(button))
  {
    CanonicalEngineering(f.department.value);
    CanonicalScience(button);
    PrefixOfEngineering(Canonical(f.department), Canonical(Some(button)));
  }

  /** `physics` and each of `all` and `mathematics` contain each other
      neither way. */
  lemma PhysicsDisjoint(physics: string, all: string, mathematics: string)
    requires physics == "physics" && all == "all" && mathematics == "mathematics"
    ensures !Contains(physics, all) && !Contains(all, physics)
    ensures !Contains(physics, mathematics) && !Contains(mathematics, physics)
  {
    NotContainsFirst(physics, all);
    NotContainsFirst(all, physics);
    NotContainsFirst(physics, mathematics);
    NotContainsFirst(mathematics, physics);
  }

  /** The `All` shortcut compares the raw label: the label `all` is not the
      shortcut, so a Physics record fails it although it passes `All`. */
  lemma RawAllLabel(f: Faculty, button: string)
    requires f.department == Some("Physics") && button == "all"
    ensures !MatchesDepartment(f, Some(button))
    ensures MatchesDepartment(f, Some("All"))
  {
    CanonicalPhysics(f.department.value);
    CanonicalAllLower(button);
    PhysicsDisjoint(Canonical(f.department), Canonical(Some(button)), "mathematics");
    assert button[0] != "All"[0];
    DepartmentTestFails(f, Some(button), Canonical(f.department), Canonical(Some(button)));
  }

  /** The Maths button does not show a Physics record. */
  lemma MathsExcludesPhysics(f: Faculty, button: string)
    requires f.department == Some("Physics") && button == "Maths"
    ensures !MatchesDepartment(f, Some(button))
  {
    CanonicalPhysics(f.department.value);
    CanonicalMaths(button);
    PhysicsDisjoint(Canonical(f.department), "all", Canonical(Some(button)));
    assert button[0] != "All"[0];
    DepartmentTestFails(f, Some(button), Canonical(f.department), Canonical(Some(button)));
  }

  lemma AmitBeforeZara(amit: string, zara: string)
    requires amit == "Amit" && zara == "Zara"
    ensures NameLess(amit, zara)
  {
  }

  /** The order a successful load leaves the list in need not be sorted. */
  lemma LoadedOrderUnsorted(zara: Faculty, amit: Faculty)
    requires zara.name == "Zara" && amit.name == "Amit"
    ensures !Sorted([zara, amit])
  {
    AmitBeforeZara(amit.name, zara.name);
    var s := [zara, amit];
    assert NameLess(s[1].name, s[0].name);
  }

  /** Two records out of name order are swapped by the sort. */
  lemma SortSwapsPair(a: Faculty, b: Faculty)
    requires NameLess(b.name, a.name)
    ensures SortByName([a, b]) == [b, a]
  {
    assert [a, b][..1] == [a] && [a][..0] == [];
    assert SortByName([a]) == [a];
    assert SortByName([a, b]) == Insert([a], b);
  }

  /** With a blank search box and `All` selected, the list `filterFaculty`
      computes holds every loaded record, in name order. */
  lemma BlankSearchSortsAll(zara: Faculty, amit: Faculty, input: string)
    requires zara.name == "Zara" && amit.name == "Amit" && input == ""
    ensures Pipeline([zara, amit], input, Some("All")) == [amit, zara]
  {
    var s := [zara, amit];
    forall x | x in s
      ensures Matches(x, SearchTerm(input), Some("All"))
    {
      BlankSearchMatchesAll(x, input);
      AllPassesEveryRecord(x);
    }
    FilterOfMatching(s, SearchTerm(input), Some("All"));
    AmitBeforeZara(amit.name, zara.name);
    SortSwapsPair(zara, amit);
  }

  lemma TermAm(input: string)
    requires input == "am"
    ensures SearchTerm(input) == "am"
  {
    LowerOfLower(input);
    TrimOfTrimmed(input);
  }

  lemma ZaraLacksAm(s: string, t: string)
    requires s == "zara" && t == "am"
    ensures !Contains(s, t)
  {
    assert s[1..][1..] == s[2..] && s[2..][1..] == s[3..] && s[3..][1..] == s[4..] && s[4..] == [];
    NotStartsWith(s, t, 0);
    NotStartsWith(s[1..], t, 1);
    NotStartsWith(s[2..], t, 0);
    assert !Contains(s[4..], t);
    assert !Contains(s[3..], t);
    assert !Contains(s[2..], t);
    assert !Contains(s[1..], t);
  }

  lemma NamesLowered(zara: string, amit: string)
    requires zara == "Zara" && amit == "Amit"
    ensures Lower(zara) == "zara" && Lower(amit) == "amit"
  {
  }

  /** Typing `am` with `All` selected keeps Amit and drops Zara. */
  lemma SearchAmKeepsAmit(zara: Faculty, amit: Faculty, input: string)
    requires zara.name == "Zara" && amit.name == "Amit" && input == "am"
    ensures Pipeline([zara, amit], input, Some("All")) == [amit]
  {
    TermAm(input);
    NamesLowered(zara.name, amit.name);
    ZaraLacksAm(Lower(zara.name), SearchTerm(input));
    assert StartsWith(Lower(amit.name), SearchTerm(input));
    var s := [zara, amit];
    assert !Matches(zara, SearchTerm(input), Some("All"));
    assert Matches(amit, SearchTerm(input), Some("All"));
    var term := SearchTerm(input);
    assert s[..1] == [zara] && [zara][..0] == [];
    assert Filter([zara], term, Some("All")) == [];
    assert Filter(s, term, Some("All")) == Filter([zara], term, Some("All")) + [amit];
    assert [amit][..0] == [];
    assert SortByName([amit]) == [amit];
  }

  /** The page itself: after loading Zara and Amit the list is shown as
      loaded, out of name order; typing `am` then shows Amit alone. */
  method LoadThenSearch(zara: Faculty, amit: Faculty) returns (loaded: seq<Faculty>, typed: seq<Faculty>)
    requires zara.name == "Zara" && amit.name == "Amit"
    ensures loaded == [zara, amit] && !Sorted(loaded)
    ensures typed == [amit]
  {
    var page := new Page([Some("All")], [true]);
    var view := page.FetchCompleted(Fetched([zara, amit]));
    loaded := page.filteredFaculty;
    view := page.SearchInput("am");
    typed := page.filteredFaculty;
    LoadedOrderUnsorted(zara, amit);
    SearchAmKeepsAmit(zara, amit, "am");
  }

  /** With the Maths button selected no Physics record is listed. */
  lemma MathsSelectsNone(zara: Faculty, amit: Faculty, input: string, button: string)
    requires zara.department == Some("Physics") && amit.department == Some("Physics")
    requires button == "Maths"
    ensures Pipeline([zara, amit], input, Some(button)) == []
  {
    MathsExcludesPhysics(zara, button);
    MathsExcludesPhysics(amit, button);
    var s, term := [zara, amit], SearchTerm(input);
    assert s[..1] == [zara] && [zara][..0] == [];
    assert Filter([zara], term, Some(button)) == [];
    assert Filter(s, term, Some(button)) == [];
  }

  /** Loading an empty list shows the "no results" indicator, not the
      error message. */
  method EmptyLoadShowsNoResults(page: Page) returns (view: View)
    requires page.Valid()
    modifies page
    ensures view == NoResults
  {
    view := page.FetchCompleted(Fetched([]));
  }

  /** Entering the same search text twice shows the same list as entering
      it once. */
  method SearchTwice(page: Page, text: string) returns (once: seq<Faculty>, twice: seq<Faculty>)
    requires page.Valid()
    modifies page
    ensures once == twice
  {
    var view := page.SearchInput(text);
    once := page.filteredFaculty;
    view := page.SearchInput(text);
    twice := page.filteredFaculty;
  }
}

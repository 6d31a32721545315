# Faculty directory: the department-aware search filter

The faculty directory page loads a JSON list of faculty records and shows them
as a list of cards. A search box filters the list by name. A row of
department buttons filters it by department. This project models the logic
behind that page in `script.js`:

- **Department names.** `normalizeDeptName` turns a free-form department label
  into a comparison key: lowercase, `&` spelled `and`, everything outside
  `[a-z0-9 ]` deleted, trimmed. `canonicalDept` then maps the aliases `maths`
  and `math` onto `mathematics`. This is module `Departments`, built on the
  string primitives of module `Text` (`toLowerCase`, `trim`, `includes`).
- **The filter predicate.** A record is kept when two things hold. Its
  lowercased name contains the lowercased, trimmed search term. And it passes
  the department test: the raw selected label is exactly `All`, or the two
  canonical departments are equal, or one contains the other. This is module
  `Search`. It includes the loop of `allFaculty.filter(...)` as a method proved
  against the function `Filter`.
- **The sort.** The filtered list is sorted by name with a stable sort. This is
  module `Sorting`: a specification by insertion, and a method that sorts an
  array in place, proved equal to it. Module `Collation` holds the name order.
- **The page state.** The module-level variables `allFaculty`,
  `filteredFaculty` and `currentDepartment` live in class `Directory.Page`,
  together with the search box value and the `active` flag of each department
  button. Its methods are:
  - the end of a load;
  - `filterFaculty`;
  - the search box listener;
  - the department-button listener;
  - rendering, which shows either the "no results" indicator or one card per
    record, each with its availability badge.
- **Worked instances.** Module `Examples` proves concrete runs of the
  directory.

Three behaviours are modelled exactly as the code has them, although the
intent might suggest otherwise:

- **Loading skips the filter.** After a successful load, `filteredFaculty` is
  the raw list, neither filtered nor sorted (script.js:27-28). The list is
  not recomputed for the current search and department.
- **The `All` shortcut compares the raw button label.** It uses
  `currentDepartment === 'All'`, not the canonical form (script.js:161). A
  button labelled `all` goes through the ordinary department test instead.
- **An empty canonical department matches every selection.** The empty string
  is contained in every string (script.js:163-164). So a record with a missing
  department is shown under every button, not only under `All`.

## Model

| member | source | states |
|---|---|---|
| Text.LowerChar | script.js:137 | one character of `toLowerCase`: the result is never a capital; a capital becomes the small letter at the same place in the alphabet, and any other character is unchanged |
| Text.Lower | script.js:137 | `toLowerCase` keeps the length, maps every position through `LowerChar`, and leaves no capital letter |
| Text.LowerOfLower | script.js:142 | a string without capitals is its own lower-case form |
| Text.LowerIdempotent | script.js:137 | lowercasing twice equals lowercasing once |
| Text.Trim | script.js:137 | the result of `trim` neither begins nor ends with a white-space character |
| Text.TrimRemovesSpace | script.js:137 | `trim` returns a contiguous slice of its input, and everything cut off before and after that slice is white space |
| Text.TrimOfTrimmed | script.js:142 | a string without surrounding white space is left unchanged by `trim` |
| Text.TrimAllSpace | script.js:137 | a string made only of white space trims to the empty string |
| Text.TrimNoUpper | script.js:137 | trimming a string without capitals gives one without capitals |
| Text.Contains | script.js:158 | `includes`: the term occurs at the start of the string or, recursively, in its tail (its meaning is fixed by `ContainsIff`) |
| Text.ContainsIff | script.js:158 | `includes` holds exactly when the term occurs at some index of the string |
| Text.ContainsEmpty | script.js:163-164 | the empty string is contained in every string |
| Text.ContainsSelf | script.js:163 | every string contains itself |
| Text.NotContainsFirst | script.js:158 | a non-empty term whose first character does not occur in the string is not contained in it |
| Departments.Spell | script.js:142 | the text put in place of one character has no `&`, and any character other than `&` is kept as it is |
| Departments.ReplaceAmpersand | script.js:142 | `replace(/&/g, 'and')`: each character in turn is passed through `Spell` (its meaning is fixed by the three lemmas below and `ReplaceAmpersandSpells`) |
| Departments.ReplaceAmpersandRemoves | script.js:142 | after `replace(/&/g, 'and')` no `&` is left |
| Departments.ReplaceAmpersandNoop | script.js:142 | a string without `&` is unchanged by that replacement |
| Departments.ReplaceAmpersandAppend | script.js:142 | the replacement distributes over concatenation, so it works character by character |
| Departments.ReplaceAmpersandSpells | script.js:142 | every `&`, wherever it stands, becomes the word `and`, and the text on either side is replaced independently |
| Departments.StripOthers | script.js:142 | `replace(/[^a-z0-9 ]+/g, '')` never lengthens the string and leaves only `a-z`, `0-9` and space |
| Departments.StripOthersNoop | script.js:142 | a string of kept characters only is left unchanged by the strip |
| Departments.StripOthersKeeps | script.js:142 | a character occurs after the strip exactly when it occurs before and is in `[a-z0-9 ]` |
| Departments.StripOthersAppend | script.js:142 | the strip distributes over concatenation, so the kept characters stay in their order and as often as they occur |
| Departments.Normalize | script.js:140-143 | `normalizeDeptName` yields only `a-z`, `0-9` and space, with no leading or trailing space; a missing or empty name yields the empty string |
| Departments.NormalizeVia | script.js:142 | for a non-empty name whose stripped form has no surrounding space, normalisation is lowercase, then spell `&`, then strip, in that order, and the trim then changes nothing |
| Departments.KeptHasNoAmpersand | script.js:142 | a string of kept characters has no `&` |
| Departments.NormalizeIdempotent | script.js:140-143 | normalising an already normalised name leaves it unchanged |
| Departments.Aliases | script.js:148-151 | the alias table: `maths` and `math` map to `mathematics`, and no other key exists |
| Departments.Canonical | script.js:145-153 | `canonicalDept` has the same alphabet and no-surrounding-space guarantees as normalisation |
| Departments.CanonicalChanges | script.js:148-152 | canonicalisation changes a name exactly when its normalised form is `maths` or `math`, and then it yields `mathematics` |
| Departments.CanonicalMathematics | script.js:148-152 | the canonical form is `mathematics` exactly when the normalised form is `maths`, `math` or `mathematics` |
| Departments.EmptyCanonical | script.js:141-152 | a missing department, or one none of whose characters survives normalisation, canonicalises to the empty string |
| Collation.NameLess | script.js:170 | the name comparator: lexicographic order by character code, a proper prefix sorting first |
| Collation.NameLessIrreflexive | script.js:170 | no name sorts before itself |
| Collation.NameLessTransitive | script.js:170 | the name order is transitive |
| Collation.NameLessTotal | script.js:170 | any two different names are ordered one way or the other |
| Collation.NameLessSplit | script.js:170 | if `a` is before `c`, then any `b` is after `a` or before `c` |
| Search.MatchesSearch | script.js:158 | `matchesSearch`: the record's lowercased name contains the term |
| Search.MatchesDepartment | script.js:161-164 | `matchesDepartment`: the raw selected label is exactly `All`, or the two canonical departments are equal, or either contains the other; so an empty canonical department passes every selection |
| Search.Matches | script.js:166 | a record is kept when both tests hold |
| Search.Filter | script.js:157-167 | `allFaculty.filter(...)`: the matching records in their order (its meaning is fixed by `FilterCount` and `FilterIsSubsequence`) |
| Search.SearchTerm | script.js:137 | the search term has no capitals and no surrounding white space; a blank search box gives the empty term |
| Search.BlankSearchMatchesAll | script.js:137-158 | an empty or all-space search box matches every name |
| Search.SearchIsSubstring | script.js:158 | a record matches the search exactly when the term occurs in its lowercased name; the name's letter case does not matter |
| Search.SearchTermIgnoresCase | script.js:137 | the letter case of the search box does not change the term |
| Search.AllPassesEveryRecord | script.js:161 | with the raw label `All` selected, every record passes the department test |
| Search.DepartmentTestFails | script.js:161-164 | away from `All`, a record fails the department test when neither canonical form contains the other |
| Search.EmptyDepartmentPassesEverySelection | script.js:163-164 | a record whose canonical department is empty passes the department test whatever is selected |
| Search.OwnDepartmentPasses | script.js:162 | a record passes for every label with the same canonical form as its own department |
| Search.DepartmentTestSymmetric | script.js:161-164 | away from `All`, swapping the record's department and the selected label gives the same answer |
| Search.FilterCount | script.js:157-167 | the filter keeps every matching record exactly as often as it occurs in the input, and no other record |
| Search.FilterMembership | script.js:157-167 | a record is in the filter's result if and only if it is in the input and satisfies both tests |
| Search.FilterOfMatching | script.js:157-167 | a list whose every record matches passes the filter unchanged |
| Search.FilterSubMultiset | script.js:157-167 | the filter's result is a sub-multiset of its input |
| Search.FilterIsSubsequence | script.js:157-167 | the filter keeps the records' relative order: its result is a subsequence of the input |
| Search.FilterRecords | script.js:157-167 | the loop over `allFaculty` computes exactly `Filter` |
| Sorting.Insert | script.js:170 | one step of the stable sort: a record goes before the first record whose name sorts strictly after its own |
| Sorting.SortByName | script.js:170 | the result of `sort` with the name comparator: each record of the input in turn is inserted into the sorted records before it |
| Sorting.InsertPermutes | script.js:170 | one insertion step adds the record and keeps every other one |
| Sorting.SortByNamePermutes | script.js:170 | the sort is a permutation of its input |
| Sorting.InsertSorted | script.js:170 | inserting into a sorted list keeps it sorted |
| Sorting.SortByNameSorted | script.js:170 | the result of the sort is in name order |
| Sorting.SortByNameOfSorted | script.js:170 | a list already in name order is left unchanged |
| Sorting.InsertWithName | script.js:170 | inserting into a sorted list puts the record after every record of the same name |
| Sorting.SortByNameStable | script.js:170 | the sort is stable: for every name, the records with that name come out in the order they went in |
| Sorting.InsertInPlace | script.js:170 | one pass of the in-place insertion sort: the first `i + 1` records become the old record `a[i]` inserted into the sorted prefix `a[..i]`, and the records after it are unchanged |
| Sorting.SortInPlace | script.js:170 | `filteredFaculty.sort(...)` rearranges the array into `SortByName` of its old contents, so the result is sorted, a permutation and stable |
| Directory.StateClass | script.js:79 | the badge's state class is `available` exactly when the availability flag is set, and `busy` otherwise |
| Directory.ListBadge | script.js:79-81 | a list card shows one of exactly two labels, `Available` exactly when the flag is set |
| Directory.DetailBadge | script.js:116-123 | the detail view shows one of exactly two labels, `Currently Available` exactly when the flag is set |
| Directory.Pipeline | script.js:157-170 | the list `filterFaculty` computes: the filter of the loaded records for the search term and the selected label, then the sort |
| Directory.PipelineExact | script.js:157-170 | the list `filterFaculty` computes holds every matching loaded record exactly as often as the load, and nothing else |
| Directory.PipelineSorted | script.js:157-170 | the computed list is a sub-multiset of the loaded list, and no adjacent pair is out of name order |
| Directory.CardOf | script.js:79-81 | one card of the list: the record with its list badge |
| Directory.Shows | script.js:59-69 | what rendering shows: "no results" for an empty list, otherwise one card per record, in order |
| Directory.PipelineIdempotent | script.js:157-170 | filtering and sorting the computed list again gives the same list |
| Directory.Page.constructor | script.js:2-4 | the page starts with no records, the raw department `All` and an empty search box |
| Directory.Page.Render | script.js:56-70 | rendering shows "no results" if and only if `filteredFaculty` is empty; otherwise it shows one card per record, in order |
| Directory.Page.FetchCompleted | script.js:17-41 | a successful load sets both lists to the loaded data as it is and renders it; a failure keeps the state and shows the error; either way the shown list stays a sub-multiset of the loaded one |
| Directory.Page.FilterFaculty | script.js:136-173 | `filteredFaculty` becomes the filtered, sorted list, so the shown list stays a sub-multiset of the loaded one; the loaded list, the department and the search box are unchanged |
| Directory.Page.SearchInput | script.js:185 | typing in the search box sets its value and recomputes the list for it |
| Directory.Page.ClickButton | script.js:188-199 | after a click exactly the clicked button is active, its label is the selected department, and the list is recomputed |
| Directory.Page.ClearActive | script.js:191 | every button loses the `active` class |
| Examples.NormalizesToLower | script.js:140-143 | a name whose lower-case form has only kept characters and no surrounding space normalises to that form |
| Examples.CanonicalIsNormal | script.js:152 | a normalised name that is not in the alias table is its own canonical form |
| Examples.CanonicalIsLower | script.js:145-153 | a plain lower-case-able name that is not an alias canonicalises to its lower-case form |
| Examples.AmpersandBecomesAnd | script.js:142 | `A & B` normalises to `a and b`, because `&` is spelled out before the strip |
| Examples.CanonicalMaths | script.js:145-153 | `Maths` canonicalises to `mathematics` through the alias table |
| Examples.CanonicalMathematicsName | script.js:145-153 | `Mathematics` canonicalises to `mathematics` |
| Examples.MathsIsMathematics | script.js:145-153 | `Maths` and `Mathematics` have the same canonical department |
| Examples.PartialLabelPasses | script.js:163 | a record in `Computer Science and Engineering` passes the `Computer Science` button |
| Examples.RawAllLabel | script.js:161 | a button labelled `all` does not take the shortcut, so a Physics record fails it but passes `All` |
| Examples.MathsExcludesPhysics | script.js:161-164 | the `Maths` button does not pass a Physics record |
| Examples.LoadedOrderUnsorted | script.js:27-28 | the list a load leaves in place need not be in name order |
| Examples.SortSwapsPair | script.js:170 | two records out of name order are swapped by the sort |
| Examples.BlankSearchSortsAll | script.js:157-170 | with an empty search box and `All` selected, the list is every loaded record, in name order |
| Examples.SearchAmKeepsAmit | script.js:157-170 | the term `am` keeps `Amit` and drops `Zara` |
| Examples.MathsSelectsNone | script.js:157-170 | with `Maths` selected, no Physics record is listed |
| Examples.LoadThenSearch | script.js:27-28 | after a load the list is the raw, unsorted data; typing `am` then shows `Amit` alone |
| Examples.EmptyLoadShowsNoResults | script.js:59-62 | loading an empty list shows the "no results" indicator |
| Examples.SearchTwice | script.js:185 | typing the same search text twice gives the same list as typing it once |

## Left out

- The HTML template strings of the cards and of the modal, the modal's other DOM writes, `body` overflow and smooth scrolling are presentation only. `Card` and `View` stand for what is shown.
- Opening and closing the modal on a card click is not modelled. `DetailBadge` models only the badge the modal shows.
- The loading spinner (`showLoading`) is not modelled. It only shows and hides elements.
- The `fetch` call, its `async`/`await`, the status check and the JSON parse are I/O. Their outcome is a parameter of `Page.FetchCompleted`: either the parsed list, or a failure. The error message is logged to the console and then shown; in the model it is the single view `LoadError`.
- Dark mode and its `localStorage` flag are browser I/O and have no effect on the data.
- `server.js` (a static file server with a JSON endpoint) is not part of this model. Nor is `scripts/sort-faculty.js`, a file-maintenance script.
- Collation.NameLess: `localeCompare` is a locale-dependent library collation. The model orders names lexicographically by character code, which is a strict total order.
- Text.Lower: the model lowers only the ASCII capitals `A-Z`. JavaScript's `toLowerCase` applies the full Unicode case mapping, which is not modelled: it also lowers `É` to `é`, and it turns `İ` into `i` followed by U+0307, and that `i` survives the strip.
- Strings are sequences of Unicode scalar values, not UTF-16 code units. Names with characters outside the Basic Multilingual Plane are compared per character, not per surrogate.
- The regular expressions of `normalizeDeptName` are modelled character by character, by `ReplaceAmpersand` and `StripOthers`. The regex engine itself is not modelled.
- Departments.Canonical: the alias lookup `aliases[n] || n` also finds keys inherited from `Object.prototype`. A normalised name holds only `[a-z0-9 ]`, so the only such key it can hit is `constructor`, for which the lookup returns the `Object` function instead of a string. The department test then calls `includes` on that function (script.js:163-164) and throws a `TypeError`, so `filterFaculty` stops without recomputing or rendering the list. This happens when `All` is not selected and exactly one of the record's department and the selected label normalises to `constructor`. The model's table has only the two aliases, so the model always computes a list.
- Records.Faculty: `department` is either a string or absent. A non-string department value, which the code would convert with `toString()`, is not modelled. `name` is always a string, so the `TypeError` a record without a name would raise is not modelled. `availability` is its truthiness as a boolean.
- After a load, `allFaculty` and `filteredFaculty` refer to the same array. Nothing ever mutates that array in place: `filterFaculty` sorts a fresh array made by `filter`. So the model keeps the two as separate sequence values.
- Directory.Page: the buttons' labels and their initial `active` classes come from the page's markup. They are constructor parameters, and a button without a `data-dept` attribute has the label `None`.

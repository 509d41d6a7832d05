# Anaximander.Linq sequence analysis, modelled in Dafny

This project models two parts of the `IEnumerableExtensions` LINQ library:

- **The local-extrema scanners** (`IEnumerableExtensions.Inspection.cs`).
  `LocalMinima`/`LocalMaxima` return the matching elements.
  `IndexOfLocalMinima`/`IndexOfLocalMaxima` return the matching positions.
  Each scanner slides a window of three over the source, tags each element
  with its position and comparison key, and classifies the front element,
  the middle of each window, and the back element. The sliding window
  `Window(k)` is modelled as a pure function (`Windows.Window`).
- **`OrderToMatch`** (`IEnumerableExtensions.cs`). It sorts a sequence by the
  position of each element's key in a reference ordering, with keys absent
  from the ordering last. The sort is `OrderBy(rank)` followed by
  `ThenBy(Array.IndexOf(sourceArray, x))`. Two versions are modelled:
  `Ordering.OrderToMatch` keeps equal ranks in source order, and
  `Ordering.OrderToMatchAsWritten` breaks ties by first index, as line 42
  does (see "## Findings"). Line 13 promises source order for elements whose
  key is absent from the ordering. For elements sharing a present key the same
  intent is inferred: `OrderBy` is already stable, so a `ThenBy` on the source
  position only makes sense as an original-order tie-break.

Files:

- `Results.dfy` holds the error kinds, returned as values instead of exceptions.
- `Windows.dfy` holds the sliding window.
- `Inspection.dfy` holds the scanners.
- `Ordering.dfy` holds `OrderToMatch`.

How the scanners are modelled. Each scanner body is a `method` that walks the
window stream with a `while` loop, as the C# does. Its tests are the source's
own: the stable `OrderBy(...).First()` (`EarliestBest`), `Max(x => x.Index)`
(`MaxIndex`) and the `CompareTo` comparisons (`Beats`). Each method is proved
against `Reports`, a position-by-position statement of the rules, through
`Reported`/`Pick`:

| position | value scanners | index scanners |
|---|---|---|
| 0 | no other key of the first window beats key[0] (ties favour position 0) | key[0] beats key[1] |
| 1 | never reported | key[1] beats key[0] and key[2] |
| 2 .. n-2 | key[p] beats key[p-1] and key[p+1] (ties disqualify) | same |
| n-1 | key[n-1] beats key[n-2] and key[n-3] | key[n-1] beats key[n-2] |
| n < 3 | nothing (empty source: error) | error (`First()` finds no window) |

"Beats" means strictly smaller for minima and strictly larger for maxima.

The value scanners never test position 1. They take the first window with
`MoveNext()` (`IEnumerableExtensions.Inspection.cs:32-39`) and then resume the
same enumerator in their `while` loop (lines 42-53). So the loop starts at the
second window, and the middle of the first window is never compared with its
neighbours. The index scanners do test it (the `foreach` at line 140 starts
a fresh enumeration). Consequences: `LocalMinima([3, 1, 2])` yields `[]`, and
`LocalMaxima([1, 5, 2, 8, 3])` yields `[8]` while `IndexOfLocalMaxima` on the
same input yields `[1, 3]` (`Inspection.ValueMinimaSkipFirstMiddle`,
`Inspection.MaximaOfZigzag`).

Comparison keys are `int`, and a key selector is a Dafny function `T -> int`.
The key-less overloads of the scanners take `seq<int>` and use the elements
as their own keys.

## Model

| member | source | states |
|---|---|---|
| `Windows.Window` | src/Anaximander.Linq.Tests.Shared/WindowTests.cs:19-77 | `Window(k)` over n elements yields n-k+1 windows when n >= k and none otherwise; window i is exactly elements i..i+k-1, so there is no short trailing window |
| `Windows.WindowOfOne` | src/Anaximander.Linq.Tests.Shared/WindowTests.cs:19-38 | `[1,2,3,4,5].Window(1)` is the five singletons |
| `Windows.WindowOfTwo` | src/Anaximander.Linq.Tests.Shared/WindowTests.cs:40-58 | `[1,2,3,4,5].Window(2)` is `[[1,2],[2,3],[3,4],[4,5]]` |
| `Windows.WindowOfThree` | src/Anaximander.Linq.Tests.Shared/WindowTests.cs:60-77 | `[1,2,3,4,5].Window(3)` is `[[1,2,3],[2,3,4],[3,4,5]]` |
| `Inspection.EarliestBest` | src/Anaximander.Linq.Shared/IEnumerableExtensions.Inspection.cs:36 | the first element of the stably sorted window has a key no element beats, and it beats every earlier element, so it is the earliest of the best |
| `Inspection.MaxIndex` | src/Anaximander.Linq.Shared/IEnumerableExtensions.Inspection.cs:56 | `back.Max(x => x.Index)` is an index of the window, and no index of the window exceeds it |
| `Inspection.EarliestBestOfThree` | src/Anaximander.Linq.Shared/IEnumerableExtensions.Inspection.cs:36-56 | in a window of three, the stable sort puts element 0 first iff no other key beats it, and element 2 first iff it beats both others |
| `Inspection.FrontTestOfThree` | src/Anaximander.Linq.Shared/IEnumerableExtensions.Inspection.cs:36-39 | the front test `FrontTest` (line 36, and line 90 for maxima) holds iff neither other key of the first window beats the front key; a tie keeps the front element |
| `Inspection.BackTestOfThree` | src/Anaximander.Linq.Shared/IEnumerableExtensions.Inspection.cs:55-59 | the back test `BackTest` (lines 55-56, and 109-110 for maxima) holds iff the last key strictly beats both others; a tie with an earlier element disqualifies, and the `Index != 0` guard never changes the outcome |
| `Inspection.TaggedWindow` | src/Anaximander.Linq.Shared/IEnumerableExtensions.Inspection.cs:21-29 | `Tag` (the `Select((x, i) => new { Index, Item, Value })` of lines 21-27, and 124-129 for the index scanners) and `Keys` (the `Select(comparison)` of lines 119 and 157) agree: the tagged source gives n-2 windows, and window i holds positions i, i+1 and i+2 with their items and keys |
| `Inspection.ReportedStep` | src/Anaximander.Linq.Shared/IEnumerableExtensions.Inspection.cs:32-59 | the rule applied at each position, with `Beats` standing for `CompareTo(...) < 0` (minima) or `> 0` (maxima): front, interior (never position 1 for the value scanners) and back, for both families |
| `Inspection.ReportedBelowExactly` | src/Anaximander.Linq.Shared/IEnumerableExtensions.Inspection.cs:139-152 | the reported positions are exactly the positions the rules accept, each below n, in strictly ascending order, so none is reported twice |
| `Inspection.MaximaAreMinimaOfNegated` | src/Anaximander.Linq.Shared/IEnumerableExtensions.Inspection.cs:90-113 | the maxima scanners report exactly what the minima scanners report on the negated keys |
| `Inspection.PickAt` | src/Anaximander.Linq.Shared/IEnumerableExtensions.Inspection.cs:50 | the k-th yielded element is the source element at the k-th reported position |
| `Inspection.ValuesAreSubsequence` | src/Anaximander.Linq.Shared/IEnumerableExtensions.Inspection.cs:32-59 | the value scanners yield a subsequence of the source: one element per reported position, positions strictly ascending, and every accepted position included |
| `Inspection.ShortSourceReportsNothing` | src/Anaximander.Linq.Shared/IEnumerableExtensions.Inspection.cs:32 | with fewer than three elements no window exists and no position is reported |
| `Inspection.ShortSourceYieldsNothing` | src/Anaximander.Linq.Shared/IEnumerableExtensions.Inspection.cs:32 | with fewer than three elements the value scanners yield nothing |
| `Inspection.ValueFrontStep` | src/Anaximander.Linq.Shared/IEnumerableExtensions.Inspection.cs:32-39 | the first window's front test decides position 0, and position 1 yields nothing |
| `Inspection.InteriorStep` | src/Anaximander.Linq.Shared/IEnumerableExtensions.Inspection.cs:46-51 | window i is full and its middle test `MiddleTest` (line 48; lines 102, 143 and 181 in the other scanners) decides position i+1 |
| `Inspection.ValueInteriorStep` | src/Anaximander.Linq.Shared/IEnumerableExtensions.Inspection.cs:42-53 | from the second window on, window i appends its middle element iff the middle test holds |
| `Inspection.ValueBackStep` | src/Anaximander.Linq.Shared/IEnumerableExtensions.Inspection.cs:55-59 | the last window's back test decides whether the last element is yielded |
| `Inspection.IndexMinimaOfFlatDip` | src/Anaximander.Linq.Shared/IEnumerableExtensions.Inspection.cs:122-153 | `IndexOfLocalMinima([5,1,1,5])` reports nothing: ties disqualify |
| `Inspection.ValueMinimaSkipFirstMiddle` | src/Anaximander.Linq.Shared/IEnumerableExtensions.Inspection.cs:32-53 | `LocalMinima([3,1,2])` yields nothing, because position 1 is never tested |
| `Inspection.MaximaOfZigzag` | src/Anaximander.Linq.Shared/IEnumerableExtensions.Inspection.cs:86-107 | on `[1,5,2,8,3]` the value scanner reports only position 3, while the index scanner reports positions 1 and 3 |
| `Inspection.ScanValues` | src/Anaximander.Linq.Shared/IEnumerableExtensions.Inspection.cs:14-61 | fails with EmptySource on an empty source; otherwise yields the elements at the positions the value rules accept, in ascending order |
| `Inspection.LocalMinimaBy` | src/Anaximander.Linq.Shared/IEnumerableExtensions.Inspection.cs:14-61 | `LocalMinima(source, comparison)`: the value scan for minima |
| `Inspection.LocalMaximaBy` | src/Anaximander.Linq.Shared/IEnumerableExtensions.Inspection.cs:68-115 | `LocalMaxima(source, comparison)`: the value scan for maxima |
| `Inspection.LocalMinima` | src/Anaximander.Linq.Shared/IEnumerableExtensions.Inspection.cs:9-12 | the key-less overload equals the scan with the elements as their own keys |
| `Inspection.LocalMaxima` | src/Anaximander.Linq.Shared/IEnumerableExtensions.Inspection.cs:63-66 | the key-less overload equals the scan with the elements as their own keys |
| `Inspection.KeysOfItself` | src/Anaximander.Linq.Shared/IEnumerableExtensions.Inspection.cs:124-129 | tagging with the element itself as key gives back the source as the keys |
| `Inspection.IndexFrontStep` | src/Anaximander.Linq.Shared/IEnumerableExtensions.Inspection.cs:133-137 | `First()` gives the window of positions 0..2, and position 0 is reported iff key[0] beats key[1] |
| `Inspection.IndexInteriorStep` | src/Anaximander.Linq.Shared/IEnumerableExtensions.Inspection.cs:139-147 | every window, the first included, decides its middle position |
| `Inspection.IndexBackStep` | src/Anaximander.Linq.Shared/IEnumerableExtensions.Inspection.cs:149-152 | the last position is reported iff its key beats the one before it |
| `Inspection.ScanIndices` | src/Anaximander.Linq.Shared/IEnumerableExtensions.Inspection.cs:122-153 | fails with NoElements below three elements; otherwise returns exactly the positions the index rules accept, ascending |
| `Inspection.IndexOfLocalMinima` | src/Anaximander.Linq.Shared/IEnumerableExtensions.Inspection.cs:122-153 | the index scan for minima |
| `Inspection.IndexOfLocalMaxima` | src/Anaximander.Linq.Shared/IEnumerableExtensions.Inspection.cs:160-191 | the index scan for maxima |
| `Inspection.IndexOfLocalMinimaBy` | src/Anaximander.Linq.Shared/IEnumerableExtensions.Inspection.cs:117-120 | the key-selector overload equals mapping the keys first and then scanning them |
| `Inspection.IndexOfLocalMaximaBy` | src/Anaximander.Linq.Shared/IEnumerableExtensions.Inspection.cs:155-158 | the key-selector overload equals mapping the keys first and then scanning them |
| `Ordering.Lookup` | src/Anaximander.Linq/IEnumerableExtensions.cs:21-23 | fails with DuplicateKey iff a key repeats; otherwise maps exactly the ordering's keys, each to its 0-based position, and is empty iff the ordering is |
| `Ordering.Position` | src/Anaximander.Linq/IEnumerableExtensions.cs:13 | the rank a key should get: its first position in the ordering, or the ordering's length iff it is absent |
| `Ordering.RankIsPosition` | src/Anaximander.Linq/IEnumerableExtensions.cs:33-41 | with distinct keys, the looked-up rank `Rank` (the `TryGetValue` lambda of lines 33-41) (absent keys ranked after all others) equals the key's position |
| `Ordering.Insert` | src/Anaximander.Linq/IEnumerableExtensions.cs:32-42 | inserting adds exactly one element: the result's multiset is the input's plus `x` |
| `Ordering.SortByRank` | src/Anaximander.Linq/IEnumerableExtensions.cs:30-33 | the sort's output is a permutation of its input |
| `Ordering.SortByRankSorted` | src/Anaximander.Linq/IEnumerableExtensions.cs:33-41 | the sort's output is ordered by rank |
| `Ordering.SortByRankStable` | src/Anaximander.Linq/IEnumerableExtensions.cs:42 | within each rank, the sort keeps the input order |
| `Ordering.OrderToMatch` | src/Anaximander.Linq/IEnumerableExtensions.cs:19-43 | sorting by `StableKey`, the rank of lines 33-41: fails iff the ordering is empty (EmptyOrdering) or repeats a key (DuplicateKey); otherwise a permutation of the source whose keys' positions never decrease, with every absent key after every present one |
| `Ordering.OrderToMatchStable` | src/Anaximander.Linq/IEnumerableExtensions.cs:13 | elements of equal rank keep their source order: those whose keys are absent, as line 13 promises, and those sharing a present key, the inferred purpose of line 42's tie-break |
| `Ordering.PresentKeysFollowOrdering` | src/Anaximander.Linq/IEnumerableExtensions.cs:33-38 | of two output elements with different present keys, the earlier one's key comes earlier in the ordering |
| `Ordering.CombinedKeyOrder` | src/Anaximander.Linq/IEnumerableExtensions.cs:33-42 | with both tie-breaks below n, `a * n + fa <= b * n + fb` iff `a < b`, or `a == b` and `fa <= fb`: sorting by the combined key of `WrittenKey` is `OrderBy(rank).ThenBy(IndexOf)` |
| `Ordering.OrderToMatchAsWritten` | src/Anaximander.Linq/IEnumerableExtensions.cs:19-43 | the code as written, sorting by `WrittenKey`: the same errors as `OrderToMatch`; otherwise a permutation of the source whose keys' positions never decrease, absent keys last, and within one key position ordered by `Array.IndexOf` in the source |
| `Ordering.SortOfThreeFiveThree` | src/Anaximander.Linq/IEnumerableExtensions.cs:42 | any key that puts 3 before 5 sorts `[3,5,3]` to `[3,3,5]` |
| `Ordering.WrittenKeyOfEqualKeys` | src/Anaximander.Linq/IEnumerableExtensions.cs:33-42 | with ordering `[1]` and key `x % 2`, the combined key of line 42 is 0 for 3 and 1 for 5 in `[3,5,3]` |
| `Ordering.TieBreakRegroupsEqualKeys` | src/Anaximander.Linq/IEnumerableExtensions.cs:42 | as written, `[3,5,3]` keyed by `x % 2` with ordering `[1]` comes out as `[3,3,5]`: equal keys lose their source order |
| `Ordering.SortOfTiedThreeFiveThree` | src/Anaximander.Linq/IEnumerableExtensions.cs:33 | any key that ties 3 with 5 leaves `[3,5,3]` unchanged |
| `Ordering.StableKeepsEqualKeysInOrder` | src/Anaximander.Linq/IEnumerableExtensions.cs:42 | with the stable tie-break the same input comes out as `[3,5,3]`, in source order |
| `Ordering.SortOfOneTwoOne` | src/Anaximander.Linq/IEnumerableExtensions.cs:42 | any key that puts 1 before 2 sorts `[1,2,1]` to `[1,1,2]` |
| `Ordering.WrittenKeyOfAbsentKeys` | src/Anaximander.Linq/IEnumerableExtensions.cs:33-42 | with ordering `[9]` and key `x % 2`, the combined key of line 42 is 4 for 1 and 5 for 2 in `[1,2,1]` |
| `Ordering.TieBreakReordersAbsentKeys` | src/Anaximander.Linq/IEnumerableExtensions.cs:42 | as written, `[1,2,1]` keyed by `x % 2` with ordering `[9]` comes out as `[1,1,2]`, though line 13 promises absent keys keep their original order |

## Left out

- Laziness and enumerator mechanics are not modelled: `yield return`, `GetEnumerator`/`MoveNext`, the second enumeration after `source.Any()` in the value scanners (lines 16 and 70), and the index scanners' `First()` (lines 133 and 171) followed by a fresh `foreach` (lines 140 and 178). The model keeps which windows each scanner tests, but not that a one-shot source would be enumerated twice. Each scanner is a function of a finite `seq`. Errors are raised when the result is built, not on first enumeration.
- A null source, and the `ArgumentNullException` `Window` throws for it, are not modelled, because a Dafny `seq` is never null.
- `Windows.Window`: the buffer algorithm is not modelled. `Window`'s body is not part of this model, so it is specified from the window tests. Window sizes below 1 are excluded by a precondition, because the behaviour for them is unspecified.
- .NET exception types and messages are modelled as the `Results.Error` values `EmptySource`, `NoElements`, `EmptyOrdering` and `DuplicateKey`.
- Generic `IComparable` keys are modelled as `int`. `CompareTo` becomes `<` and `>`.
- `Ordering.OrderToMatch`: the `Int32.MaxValue` rank of an absent key is modelled as the ordering's length. The two differ only for an ordering of more than `Int32.MaxValue` keys.
- `Ordering.OrderToMatch`: models an original-order tie-break (equal ranks keep source order; line 13 promises it for absent keys) rather than the `ThenBy(Array.IndexOf(sourceArray, x))` of line 42. The code as written is `Ordering.OrderToMatchAsWritten`, and the two differ; see "## Findings".
- `Ordering.OrderToMatchStable`: holds for `Ordering.OrderToMatch` only. The code as written (line 42) breaks it when equal elements of one rank are separated by a different element of that rank. For absent keys this breaks line 13 (`[1,2,1]` keyed by `x % 2` with ordering `[9]` gives `[1,1,2]`); for a shared present key it breaks the inferred intent (`[3,5,3]` with ordering `[1]` gives `[3,3,5]`).
- `Dictionary` hashing and .NET default equality are modelled as Dafny equality on the key type.

## Findings

| source | as written | input that shows it | evidently intended | confidence | as-written member | corrected member |
|---|---|---|---|---|---|---|
| src/Anaximander.Linq/IEnumerableExtensions.cs:42 | ties in rank are broken by `Array.IndexOf(sourceArray, x)`, the first index of an equal element, so all copies of an element sort together at its first position | `[1,2,1]`, key `x % 2`, ordering `[9]`: no key is present, and the result is `[1,1,2]` | line 13: items whose key is absent appear last in their original order, `[1,2,1]` | not executed | `Ordering.TieBreakReordersAbsentKeys` | `Ordering.OrderToMatchStable` |
| src/Anaximander.Linq/IEnumerableExtensions.cs:42 | the same tie-break, for elements sharing a present key | `[3,5,3]`, key `x % 2`, ordering `[1]` gives `[3,3,5]` | inferred, not documented: after the already-stable `OrderBy`, a `ThenBy` on source position is an original-order tie-break, so `[3,5,3]` | not executed | `Ordering.TieBreakRegroupsEqualKeys` | `Ordering.OrderToMatchStable` |

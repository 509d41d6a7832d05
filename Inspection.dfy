/** Local-extrema scanners over a sequence, after the `Inspection` part of the
    sequence extensions. Every scanner slides a window of three over the source,
    each element tagged with its position and its comparison key, and decides
    about three kinds of position: the front element, the middle of a window,
    and the back element.

    The value scanners (LocalMinima, LocalMaxima) and the index scanners
    (IndexOfLocalMinima, IndexOfLocalMaxima) differ on two points, both kept:
    - boundaries: the value scanners compare the front (back) element with
      both other elements of the first (last) window, ties resolved toward the
      earliest element; the index scanners compare it with its one neighbour;
    - the interior: the value scanners resume after the first window, so the
      middle of the first window (position 1) is never tested; the index
      scanners enumerate the windows again from the start and test it.

    The methods are the scanners; `Reports` and `ReportedBelow` are the
    position-by-position specification they are proved against. */
module Inspection {
  import opened Results
  import opened Windows

  /** Which kind of local extremum is sought. */
  datatype Extremum = Minimum | Maximum

  /** Which family of scanners, and so which boundary and interior rules. */
  datatype Scanner = ValueScanner | IndexScanner

  /** `a.CompareTo(b) < 0` when seeking minima, `a.CompareTo(b) > 0` when seeking maxima. */
  predicate Beats(kind: Extremum, a: int, b: int) {
    match kind
    case Minimum => a < b
    case Maximum => a > b
  }

  /** An element tagged with its position in the source and its comparison key. */
  datatype Tagged<T> = Tagged(index: nat, item: T, value: int)

  function Tag<T>(source: seq<T>, comparison: T -> int): seq<Tagged<T>> {
    seq(|source|, i requires 0 <= i < |source| => Tagged(i, source[i], comparison(source[i])))
  }

  /** The comparison keys of the source, `source.Select(comparison)`. */
  function Keys<T>(source: seq<T>, comparison: T -> int): seq<int> {
    seq(|source|, i requires 0 <= i < |source| => comparison(source[i]))
  }

  /** The keys with their order reversed. */
  function Negated(keys: seq<int>): seq<int> {
    seq(|keys|, i requires 0 <= i < |keys| => -keys[i])
  }

  /** The elements of `source` at the given positions, in that order. */
  function Pick<T>(source: seq<T>, positions: seq<nat>): seq<T>
    requires forall i :: 0 <= i < |positions| ==> positions[i] < |source|
  {
    if positions == [] then []
    else Pick(source, positions[..|positions| - 1]) + [source[positions[|positions| - 1]]]
  }

  /** `window.OrderBy(x => x.Value).First()` (or `OrderByDescending` for maxima):
      the sort is stable, so the first element is the EARLIEST one among those
      with the best key. The result is its place in the window. */
  function EarliestBest<T>(window: seq<Tagged<T>>, kind: Extremum): (j: nat)
    requires |window| > 0
    ensures j < |window|
    ensures forall i :: 0 <= i < |window| ==> !Beats(kind, window[i].value, window[j].value)
    ensures forall i :: 0 <= i < j ==> Beats(kind, window[j].value, window[i].value)
  {
    if |window| == 1 then 0
    else
      var j := EarliestBest(window[1..], kind) + 1;
      if Beats(kind, window[j].value, window[0].value) then j else 0
  }

  /** `window.Max(x => x.Index)`. */
  function MaxIndex<T>(window: seq<Tagged<T>>): (m: nat)
    requires |window| > 0
    ensures exists i :: 0 <= i < |window| && window[i].index == m
    ensures forall i :: 0 <= i < |window| ==> window[i].index <= m
  {
    if |window| == 1 then window[0].index
    else
      var m := MaxIndex(window[1..]);
      if window[0].index <= m then m else window[0].index
  }

  /** Whether a scanner of the given family reports position `p` of a source
      with these comparison keys. Nothing is reported below three elements. */
  predicate Reports(scanner: Scanner, kind: Extremum, keys: seq<int>, p: nat) {
    var n := |keys|;
    && n >= 3
    && p < n
    && match scanner
       case ValueScanner =>
         if p == 0 then
           // front: best or tied-best of the first window
           !Beats(kind, keys[1], keys[0]) && !Beats(kind, keys[2], keys[0])
         else if p == n - 1 then
           // back: strictly best of the last window
           Beats(kind, keys[p], keys[p - 1]) && Beats(kind, keys[p], keys[p - 2])
         else
           // interior, from the second window on
           2 <= p && Beats(kind, keys[p], keys[p - 1]) && Beats(kind, keys[p], keys[p + 1])
       case IndexScanner =>
         if p == 0 then Beats(kind, keys[0], keys[1])
         else if p == n - 1 then Beats(kind, keys[p], keys[p - 1])
         else Beats(kind, keys[p], keys[p - 1]) && Beats(kind, keys[p], keys[p + 1])
  }

  /** The reported positions below `m`, in the order the scanners emit them. */
  function ReportedBelow(scanner: Scanner, kind: Extremum, keys: seq<int>, m: nat): (ps: seq<nat>)
    ensures forall i :: 0 <= i < |ps| ==> ps[i] < m
  {
    if m == 0 then []
    else ReportedBelow(scanner, kind, keys, m - 1) + (if Reports(scanner, kind, keys, m - 1) then [m - 1] else [])
  }

  /** The scanners' output positions are exactly the reported positions, in
      strictly ascending order, so each is yielded once. */
  lemma {:induction false} ReportedBelowExactly(scanner: Scanner, kind: Extremum, keys: seq<int>, m: nat)
    ensures var ps := ReportedBelow(scanner, kind, keys, m);
      && (forall i :: 0 <= i < |ps| ==> ps[i] < m && Reports(scanner, kind, keys, ps[i]))
      && (forall i, j :: 0 <= i < j < |ps| ==> ps[i] < ps[j])
      && (forall p: nat :: p < m && Reports(scanner, kind, keys, p) ==> p in ps)
  {
    if m > 0 {
      ReportedBelowExactly(scanner, kind, keys, m - 1);
    }
  }

  /** The maxima rules are the minima rules with the comparison reversed:
      seeking maxima reports what seeking minima of the negated keys reports. */
  lemma {:induction false} MaximaAreMinimaOfNegated(scanner: Scanner, keys: seq<int>, m: nat)
    ensures ReportedBelow(scanner, Maximum, keys, m) == ReportedBelow(scanner, Minimum, Negated(keys), m)
  {
    if m > 0 {
      MaximaAreMinimaOfNegated(scanner, keys, m - 1);
      assert Reports(scanner, Maximum, keys, m - 1) == Reports(scanner, Minimum, Negated(keys), m - 1);
    }
  }

  function Reported(scanner: Scanner, kind: Extremum, keys: seq<int>): (ps: seq<nat>)
    ensures forall i :: 0 <= i < |ps| ==> ps[i] < |keys|
  {
    ReportedBelow(scanner, kind, keys, |keys|)
  }

  lemma PickSnoc<T>(source: seq<T>, ps: seq<nat>, p: nat)
    requires forall i :: 0 <= i < |ps| ==> ps[i] < |source|
    requires p < |source|
    ensures Pick(source, ps + [p]) == Pick(source, ps) + [source[p]]
  {
    assert (ps + [p])[..|ps|] == ps;
  }

  /** Picking keeps one element per position, in the order of the positions. */
  lemma {:induction false} PickAt<T>(source: seq<T>, positions: seq<nat>)
    requires forall i :: 0 <= i < |positions| ==> positions[i] < |source|
    ensures |Pick(source, positions)| == |positions|
    ensures forall k :: 0 <= k < |positions| ==> Pick(source, positions)[k] == source[positions[k]]
  {
    if positions != [] {
      PickAt(source, positions[..|positions| - 1]);
    }
  }

  /** The value scanners yield a subsequence of the source: the k-th element
      yielded is the element at the k-th reported position, the positions
      strictly ascend (so none is yielded twice), and every reported position
      is among them. */
  lemma ValuesAreSubsequence<T>(source: seq<T>, comparison: T -> int, kind: Extremum)
    ensures var ps := Reported(ValueScanner, kind, Keys(source, comparison));
      var values := Pick(source, ps);
      && |values| == |ps|
      && (forall k :: 0 <= k < |ps| ==> ps[k] < |source| && values[k] == source[ps[k]])
      && (forall k, l :: 0 <= k < l < |ps| ==> ps[k] < ps[l])
      && (forall p: nat :: p < |source| && Reports(ValueScanner, kind, Keys(source, comparison), p) ==> p in ps)
  {
    var keys := Keys(source, comparison);
    var ps := Reported(ValueScanner, kind, keys);
    assert ps == ReportedBelow(ValueScanner, kind, keys, |source|);
    ReportedBelowExactly(ValueScanner, kind, keys, |source|);
    PickAt(source, ps);
  }

  /** Below three elements there is no window, and nothing is reported. */
  lemma {:induction false} ShortSourceReportsNothing(scanner: Scanner, kind: Extremum, keys: seq<int>, m: nat)
    requires |keys| < 3
    ensures ReportedBelow(scanner, kind, keys, m) == []
  {
    if m > 0 {
      ShortSourceReportsNothing(scanner, kind, keys, m - 1);
    }
  }

  /** The tags carry each element's own position, item and key. */
  ghost predicate TaggedWith<T>(tagged: seq<Tagged<T>>, source: seq<T>, keys: seq<int>) {
    && |tagged| == |source| == |keys|
    && forall k :: 0 <= k < |tagged| ==> tagged[k] == Tagged(k, source[k], keys[k])
  }

  lemma TagIsTagged<T>(source: seq<T>, comparison: T -> int)
    ensures TaggedWith(Tag(source, comparison), source, Keys(source, comparison))
  {
  }

  /** Window i of a tagged source holds positions i, i+1, i+2 with their keys. */
  lemma WindowCells<T>(tagged: seq<Tagged<T>>, source: seq<T>, keys: seq<int>, i: nat)
    requires TaggedWith(tagged, source, keys) && i + 3 <= |tagged|
    ensures var w := Window(tagged, 3)[i];
      && |w| == 3
      && w[0] == Tagged(i, source[i], keys[i])
      && w[1] == Tagged(i + 1, source[i + 1], keys[i + 1])
      && w[2] == Tagged(i + 2, source[i + 2], keys[i + 2])
  {
    assert Window(tagged, 3)[i] == tagged[i..i + 3];
  }

  /** In a window of three, the stable sort puts the front element first exactly
      when no other element beats it, and the back element first exactly when it
      beats both others. */
  lemma {:induction false} EarliestBestOfThree<T>(w: seq<Tagged<T>>, kind: Extremum)
    requires |w| == 3
    ensures EarliestBest(w, kind) == 0 <==> !Beats(kind, w[1].value, w[0].value) && !Beats(kind, w[2].value, w[0].value)
    ensures EarliestBest(w, kind) == 2 <==> Beats(kind, w[2].value, w[0].value) && Beats(kind, w[2].value, w[1].value)
  {
    var j := EarliestBest(w, kind);
    assert !Beats(kind, w[j].value, w[j].value);
  }

  /** Line 36 (and 90): the front element comes first in the stably sorted front window. */
  predicate FrontTest<T>(front: seq<Tagged<T>>, kind: Extremum)
    requires |front| > 0
  {
    front[EarliestBest(front, kind)].index == 0
  }

  /** Lines 48 and 143 (and 102, 181): the middle element beats both neighbours. */
  predicate MiddleTest<T>(window: seq<Tagged<T>>, kind: Extremum)
    requires |window| == 3
  {
    Beats(kind, window[1].value, window[0].value) && Beats(kind, window[1].value, window[2].value)
  }

  /** Lines 55-56 (and 109-110): the element the stable sort puts first in the
      back window is not position 0 and has the largest index of the window. */
  predicate BackTest<T>(back: seq<Tagged<T>>, kind: Extremum)
    requires |back| > 0
  {
    var backLargest := back[EarliestBest(back, kind)];
    backLargest.index != 0 && backLargest.index == MaxIndex(back)
  }

  /** Window i of the tagged source holds positions i, i+1, i+2 with their
      items and keys. */
  lemma TaggedWindow<T>(source: seq<T>, comparison: T -> int, i: nat)
    requires i + 3 <= |source|
    ensures var keys := Keys(source, comparison);
      var windows := Window(Tag(source, comparison), 3);
      && |windows| == |source| - 2
      && |windows[i]| == 3
      && windows[i][0] == Tagged(i, source[i], keys[i])
      && windows[i][1] == Tagged(i + 1, source[i + 1], keys[i + 1])
      && windows[i][2] == Tagged(i + 2, source[i + 2], keys[i + 2])
  {
    TagIsTagged(source, comparison);
    WindowCells(Tag(source, comparison), source, Keys(source, comparison), i);
  }

  /** On the first window, the front test holds exactly when no other element
      of the window beats the front one. */
  lemma FrontTestOfThree<T>(w: seq<Tagged<T>>, kind: Extremum)
    requires |w| == 3 && w[0].index == 0 && w[1].index == 1 && w[2].index == 2
    ensures FrontTest(w, kind) <==> !Beats(kind, w[1].value, w[0].value) && !Beats(kind, w[2].value, w[0].value)
  {
    EarliestBestOfThree(w, kind);
  }

  /** On a window of consecutive positions, the back test holds exactly when the
      back element beats both others. */
  lemma BackTestOfThree<T>(w: seq<Tagged<T>>, kind: Extremum)
    requires |w| == 3 && w[1].index == w[0].index + 1 && w[2].index == w[0].index + 2
    ensures BackTest(w, kind) <==> Beats(kind, w[2].value, w[0].value) && Beats(kind, w[2].value, w[1].value)
  {
    EarliestBestOfThree(w, kind);
    assert MaxIndex(w) == w[2].index;
  }

  /** How the reported positions grow, one position at a time. */
  lemma ReportedStep(scanner: Scanner, kind: Extremum, keys: seq<int>, p: nat)
    requires |keys| >= 3 && p < |keys|
    ensures ReportedBelow(scanner, kind, keys, p + 1)
         == ReportedBelow(scanner, kind, keys, p) + if Reports(scanner, kind, keys, p) then [p] else []
    ensures scanner == ValueScanner && p == 1 ==> !Reports(scanner, kind, keys, p)
    ensures 0 < p < |keys| - 1 && (scanner == IndexScanner || p >= 2) ==>
      (Reports(scanner, kind, keys, p) <==> Beats(kind, keys[p], keys[p - 1]) && Beats(kind, keys[p], keys[p + 1]))
    ensures scanner == ValueScanner && p == 0 ==>
      (Reports(scanner, kind, keys, p) <==> !Beats(kind, keys[1], keys[0]) && !Beats(kind, keys[2], keys[0]))
    ensures scanner == ValueScanner && p == |keys| - 1 ==>
      (Reports(scanner, kind, keys, p) <==> Beats(kind, keys[p], keys[p - 1]) && Beats(kind, keys[p], keys[p - 2]))
    ensures scanner == IndexScanner && p == 0 ==> (Reports(scanner, kind, keys, p) <==> Beats(kind, keys[0], keys[1]))
    ensures scanner == IndexScanner && p == |keys| - 1 ==> (Reports(scanner, kind, keys, p) <==> Beats(kind, keys[p], keys[p - 1]))
  {
  }

  /** The elements the value scanners yield from the positions below `m`. */
  ghost function ValuesBelow<T>(source: seq<T>, comparison: T -> int, kind: Extremum, m: nat): seq<T>
    requires m <= |source|
  {
    if m == 0 then []
    else ValuesBelow(source, comparison, kind, m - 1)
         + if Reports(ValueScanner, kind, Keys(source, comparison), m - 1) then [source[m - 1]] else []
  }

  /** The yielded elements are the elements at the reported positions. */
  lemma {:induction false} ValuesBelowArePicked<T>(source: seq<T>, comparison: T -> int, kind: Extremum, m: nat)
    requires m <= |source|
    ensures ValuesBelow(source, comparison, kind, m)
         == Pick(source, ReportedBelow(ValueScanner, kind, Keys(source, comparison), m))
  {
    if m > 0 {
      var keys := Keys(source, comparison);
      ValuesBelowArePicked(source, comparison, kind, m - 1);
      var ps := ReportedBelow(ValueScanner, kind, keys, m - 1);
      if Reports(ValueScanner, kind, keys, m - 1) {
        PickSnoc(source, ps, m - 1);
      } else {
        assert ReportedBelow(ValueScanner, kind, keys, m) == ps;
      }
    }
  }

  /** All positions decided: the yielded elements are the elements at the
      reported positions. */
  lemma ValuesAreReportedElements<T>(source: seq<T>, comparison: T -> int, kind: Extremum)
    ensures ValuesBelow(source, comparison, kind, |source|)
         == Pick(source, Reported(ValueScanner, kind, Keys(source, comparison)))
  {
    ValuesBelowArePicked(source, comparison, kind, |source|);
  }

  /** Below three elements the value scanners yield nothing. */
  lemma ShortSourceYieldsNothing<T>(source: seq<T>, comparison: T -> int, kind: Extremum)
    requires |source| < 3
    ensures Pick(source, Reported(ValueScanner, kind, Keys(source, comparison))) == []
  {
    ShortSourceReportsNothing(ValueScanner, kind, Keys(source, comparison), |source|);
  }

  /** Deciding position `p` appends its element exactly when it is reported. */
  lemma ValuesStep<T>(source: seq<T>, comparison: T -> int, kind: Extremum, p: nat)
    requires p < |source|
    ensures ValuesBelow(source, comparison, kind, p + 1)
         == ValuesBelow(source, comparison, kind, p)
            + if Reports(ValueScanner, kind, Keys(source, comparison), p) then [source[p]] else []
  {
  }

  /** The front step of the value scanners: the first window's test decides
      whether the first element is yielded, and nothing is yielded for
      position 1. */
  lemma ValueFrontStep<T>(source: seq<T>, comparison: T -> int, kind: Extremum)
    requires |source| >= 3
    ensures var windows := Window(Tag(source, comparison), 3);
      && |windows| == |source| - 2
      && |windows[0]| == 3
      && windows[0][0].item == source[0]
      && ValuesBelow(source, comparison, kind, 2) == if FrontTest(windows[0], kind) then [source[0]] else []
  {
    var keys := Keys(source, comparison);
    TaggedWindow(source, comparison, 0);
    FrontTestOfThree(Window(Tag(source, comparison), 3)[0], kind);
    ReportedStep(ValueScanner, kind, keys, 0);
    ValuesStep(source, comparison, kind, 0);
    ValuesStep(source, comparison, kind, 1);
  }

  /** An interior step of either scanner: window i decides position i + 1. */
  lemma InteriorStep<T>(scanner: Scanner, source: seq<T>, comparison: T -> int, kind: Extremum, i: nat)
    requires i + 3 <= |source|
    requires scanner == ValueScanner ==> i >= 1
    ensures var w := Window(Tag(source, comparison), 3)[i];
      && |w| == 3
      && w[1].item == source[i + 1] && w[1].index == i + 1
      && (Reports(scanner, kind, Keys(source, comparison), i + 1) <==> MiddleTest(w, kind))
  {
    TaggedWindow(source, comparison, i);
    ReportedStep(scanner, kind, Keys(source, comparison), i + 1);
  }

  /** An interior step of the value scanners, on the yielded elements. */
  lemma ValueInteriorStep<T>(source: seq<T>, comparison: T -> int, kind: Extremum, i: nat)
    requires 1 <= i && i + 3 <= |source|
    ensures var w := Window(Tag(source, comparison), 3)[i];
      && |w| == 3
      && ValuesBelow(source, comparison, kind, i + 2)
         == ValuesBelow(source, comparison, kind, i + 1) + if MiddleTest(w, kind) then [w[1].item] else []
  {
    InteriorStep(ValueScanner, source, comparison, kind, i);
    ValuesStep(source, comparison, kind, i + 1);
  }

  /** The back step of the value scanners: the last window's back test decides
      whether the last element is yielded. */
  lemma ValueBackStep<T>(source: seq<T>, comparison: T -> int, kind: Extremum)
    requires |source| >= 3
    ensures var n := |source|;
      var w := Window(Tag(source, comparison), 3)[n - 3];
      && |w| == 3
      && ValuesBelow(source, comparison, kind, n)
         == ValuesBelow(source, comparison, kind, n - 1) + if BackTest(w, kind) then [w[2].item] else []
  {
    var n := |source|;
    TaggedWindow(source, comparison, n - 3);
    BackTestOfThree(Window(Tag(source, comparison), 3)[n - 3], kind);
    ReportedStep(ValueScanner, kind, Keys(source, comparison), n - 1);
    ValuesStep(source, comparison, kind, n - 1);
  }

  /** `IndexOfLocalMinima([5, 1, 1, 5])` reports nothing: the dip is two
      elements wide, and a tie with a neighbour disqualifies. */
  lemma IndexMinimaOfFlatDip()
    ensures Reported(IndexScanner, Minimum, [5, 1, 1, 5]) == []
  {
    var keys := [5, 1, 1, 5];
    assert ReportedBelow(IndexScanner, Minimum, keys, 1) == [];
    assert ReportedBelow(IndexScanner, Minimum, keys, 2) == [];
    assert ReportedBelow(IndexScanner, Minimum, keys, 3) == [];
    assert ReportedBelow(IndexScanner, Minimum, keys, 4) == [];
  }

  /** `LocalMinima([3, 1, 2])` yields nothing: 1 sits in the middle of the first
      window, which the value scanners never test. */
  lemma ValueMinimaSkipFirstMiddle()
    ensures Reported(ValueScanner, Minimum, [3, 1, 2]) == []
  {
    var keys := [3, 1, 2];
    assert ReportedBelow(ValueScanner, Minimum, keys, 1) == [];
    assert ReportedBelow(ValueScanner, Minimum, keys, 2) == [];
    assert ReportedBelow(ValueScanner, Minimum, keys, 3) == [];
  }

  /** `LocalMaxima([1, 5, 2, 8, 3])` yields only 8 (position 3), while
      `IndexOfLocalMaxima` on the same keys reports positions 1 and 3. */
  lemma MaximaOfZigzag()
    ensures Reported(ValueScanner, Maximum, [1, 5, 2, 8, 3]) == [3]
    ensures Reported(IndexScanner, Maximum, [1, 5, 2, 8, 3]) == [1, 3]
  {
    var keys := [1, 5, 2, 8, 3];
    assert ReportedBelow(ValueScanner, Maximum, keys, 1) == [];
    assert ReportedBelow(ValueScanner, Maximum, keys, 2) == [];
    assert ReportedBelow(ValueScanner, Maximum, keys, 3) == [];
    assert ReportedBelow(ValueScanner, Maximum, keys, 4) == [3];
    assert ReportedBelow(ValueScanner, Maximum, keys, 5) == [3];
    assert ReportedBelow(IndexScanner, Maximum, keys, 1) == [];
    assert ReportedBelow(IndexScanner, Maximum, keys, 2) == [1];
    assert ReportedBelow(IndexScanner, Maximum, keys, 3) == [1];
    assert ReportedBelow(IndexScanner, Maximum, keys, 4) == [1, 3];
    assert ReportedBelow(IndexScanner, Maximum, keys, 5) == [1, 3];
  }

  /** Lines 14-61 and 68-115: the body shared by LocalMinima and LocalMaxima
      with a key selector. One enumerator over the windows: the front window is
      taken, then the interior loop resumes with the SECOND window. */
  method ScanValues<T>(source: seq<T>, comparison: T -> int, kind: Extremum) returns (r: Result<seq<T>>)
    ensures r == if |source| == 0 then Err(EmptySource)
                 else Ok(Pick(source, Reported(ValueScanner, kind, Keys(source, comparison))))
  {
    if |source| == 0 {
      return Err(EmptySource);
    }
    var windows := Window(Tag(source, comparison), 3);
    var found: seq<T> := [];
    if |windows| == 0 {
      ShortSourceYieldsNothing(source, comparison, kind);
      return Ok(found);
    }
    ValueFrontStep(source, comparison, kind);
    var front := windows[0];
    if FrontTest(front, kind) {
      found := [front[0].item];
    }
    var back := front;
    var i := 1;
    while i < |windows|
      invariant 1 <= i <= |windows|
      invariant back == windows[i - 1]
      invariant found == ValuesBelow(source, comparison, kind, i + 1)
    {
      back := windows[i];
      ValueInteriorStep(source, comparison, kind, i);
      if |back| == 3 {
        if MiddleTest(back, kind) {
          found := found + [back[1].item];
        }
      }
      i := i + 1;
    }
    ValueBackStep(source, comparison, kind);
    assert back == windows[|source| - 3];
    if BackTest(back, kind) {
      found := found + [back[2].item];
    }
    assert found == ValuesBelow(source, comparison, kind, |source|);
    ValuesAreReportedElements(source, comparison, kind);
    assert found == Pick(source, Reported(ValueScanner, kind, Keys(source, comparison)));
    return Ok(found);
  }

  /** `LocalMinima(source, comparison)`: fails on an empty source, otherwise the
      elements at the positions the value rules report for minima. */
  method LocalMinimaBy<T>(source: seq<T>, comparison: T -> int) returns (r: Result<seq<T>>)
    ensures r == if |source| == 0 then Err(EmptySource)
                 else Ok(Pick(source, Reported(ValueScanner, Minimum, Keys(source, comparison))))
  {
    r := ScanValues(source, comparison, Minimum);
  }

  /** `LocalMaxima(source, comparison)`: the minima scan with the order reversed. */
  method LocalMaximaBy<T>(source: seq<T>, comparison: T -> int) returns (r: Result<seq<T>>)
    ensures r == if |source| == 0 then Err(EmptySource)
                 else Ok(Pick(source, Reported(ValueScanner, Maximum, Keys(source, comparison))))
  {
    r := ScanValues(source, comparison, Maximum);
  }

  /** The key-less overloads compare the elements themselves (`x => x`). */
  function Itself(x: int): int { x }

  lemma KeysOfItself(keys: seq<int>)
    ensures Keys(keys, Itself) == keys
  {
    forall i | 0 <= i < |keys|
      ensures Keys(keys, Itself)[i] == keys[i]
    {
      assert Itself(keys[i]) == keys[i];
    }
  }

  /** `LocalMinima(source)`: the elements are their own keys. */
  method LocalMinima(source: seq<int>) returns (r: Result<seq<int>>)
    ensures r == if |source| == 0 then Err(EmptySource)
                 else Ok(Pick(source, Reported(ValueScanner, Minimum, source)))
  {
    KeysOfItself(source);
    r := LocalMinimaBy(source, Itself);
  }

  /** `LocalMaxima(source)`: the elements are their own keys. */
  method LocalMaxima(source: seq<int>) returns (r: Result<seq<int>>)
    ensures r == if |source| == 0 then Err(EmptySource)
                 else Ok(Pick(source, Reported(ValueScanner, Maximum, source)))
  {
    KeysOfItself(source);
    r := LocalMaximaBy(source, Itself);
  }

  /** The front step of the index scanners: position 0 is reported exactly when
      the front element beats its one neighbour in the first window. */
  lemma IndexFrontStep(keys: seq<int>, kind: Extremum)
    requires |keys| >= 3
    ensures var windows := Window(Tag(keys, Itself), 3);
      && |windows| == |keys| - 2
      && |windows[0]| == 3
      && windows[0][0].index == 0
      && ReportedBelow(IndexScanner, kind, keys, 1)
         == if Beats(kind, windows[0][0].value, windows[0][1].value) then [0] else []
  {
    KeysOfItself(keys);
    TaggedWindow(keys, Itself, 0);
    ReportedStep(IndexScanner, kind, keys, 0);
  }

  /** An interior step of the index scanners: window i decides position i + 1. */
  lemma IndexInteriorStep(keys: seq<int>, kind: Extremum, i: nat)
    requires i + 3 <= |keys|
    ensures var w := Window(Tag(keys, Itself), 3)[i];
      && |w| == 3
      && w[1].index == i + 1
      && ReportedBelow(IndexScanner, kind, keys, i + 2)
         == ReportedBelow(IndexScanner, kind, keys, i + 1) + if MiddleTest(w, kind) then [i + 1] else []
  {
    KeysOfItself(keys);
    InteriorStep(IndexScanner, keys, Itself, kind, i);
    ReportedStep(IndexScanner, kind, keys, i + 1);
  }

  /** The back step of the index scanners: the last position is reported
      exactly when the back element beats its one neighbour in the last window. */
  lemma IndexBackStep(keys: seq<int>, kind: Extremum)
    requires |keys| >= 3
    ensures var n := |keys|;
      var w := Window(Tag(keys, Itself), 3)[n - 3];
      && |w| == 3
      && w[2].index == n - 1
      && Reported(IndexScanner, kind, keys)
         == ReportedBelow(IndexScanner, kind, keys, n - 1)
            + if Beats(kind, w[2].value, w[1].value) then [n - 1] else []
  {
    KeysOfItself(keys);
    TaggedWindow(keys, Itself, |keys| - 3);
    ReportedStep(IndexScanner, kind, keys, |keys| - 1);
  }

  /** Lines 122-153 and 160-191: the body shared by IndexOfLocalMinima and
      IndexOfLocalMaxima. `First()` takes the front window (and fails when there
      is none), then `foreach` enumerates the windows again FROM THE START. */
  method ScanIndices(source: seq<int>, kind: Extremum) returns (r: Result<seq<nat>>)
    ensures r == if |source| < 3 then Err(NoElements)
                 else Ok(Reported(IndexScanner, kind, source))
  {
    var windows := Window(Tag(source, Itself), 3);
    if |windows| == 0 {
      return Err(NoElements);
    }
    IndexFrontStep(source, kind);
    var front := windows[0];
    var found: seq<nat> := [];
    if Beats(kind, front[0].value, front[1].value) {
      found := [front[0].index];
    }
    var back := front;
    var i := 0;
    while i < |windows|
      invariant 0 <= i <= |windows|
      invariant i == 0 ==> back == front
      invariant i > 0 ==> back == windows[i - 1]
      invariant found == ReportedBelow(IndexScanner, kind, source, i + 1)
    {
      var x := windows[i];
      IndexInteriorStep(source, kind, i);
      back := x;
      if MiddleTest(x, kind) {
        found := found + [x[1].index];
      }
      i := i + 1;
    }
    IndexBackStep(source, kind);
    assert back == windows[|source| - 3];
    if Beats(kind, back[2].value, back[1].value) {
      found := found + [back[2].index];
    }
    assert found == Reported(IndexScanner, kind, source);
    return Ok(found);
  }

  /** `IndexOfLocalMinima(source)`. */
  method IndexOfLocalMinima(source: seq<int>) returns (r: Result<seq<nat>>)
    ensures r == if |source| < 3 then Err(NoElements)
                 else Ok(Reported(IndexScanner, Minimum, source))
  {
    r := ScanIndices(source, Minimum);
  }

  /** `IndexOfLocalMaxima(source)`. */
  method IndexOfLocalMaxima(source: seq<int>) returns (r: Result<seq<nat>>)
    ensures r == if |source| < 3 then Err(NoElements)
                 else Ok(Reported(IndexScanner, Maximum, source))
  {
    r := ScanIndices(source, Maximum);
  }

  /** `IndexOfLocalMinima(source, comparison)`: map to keys, then scan. */
  method IndexOfLocalMinimaBy<T>(source: seq<T>, comparison: T -> int) returns (r: Result<seq<nat>>)
    ensures r == if |source| < 3 then Err(NoElements)
                 else Ok(Reported(IndexScanner, Minimum, Keys(source, comparison)))
  {
    r := IndexOfLocalMinima(Keys(source, comparison));
  }

  /** `IndexOfLocalMaxima(source, comparison)`: map to keys, then scan. */
  method IndexOfLocalMaximaBy<T>(source: seq<T>, comparison: T -> int) returns (r: Result<seq<nat>>)
    ensures r == if |source| < 3 then Err(NoElements)
                 else Ok(Reported(IndexScanner, Maximum, Keys(source, comparison)))
  {
    r := IndexOfLocalMaxima(Keys(source, comparison));
  }
}

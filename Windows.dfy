/** The sliding-window stream `source.Window(size)`: every full window of `size`
    consecutive elements, in source order, advancing by one element per window. */
module Windows {

  function Window<T>(source: seq<T>, size: nat): (windows: seq<seq<T>>)
    requires size >= 1
    ensures |windows| == if |source| >= size then |source| - size + 1 else 0
    ensures forall i :: 0 <= i < |windows| ==> windows[i] == source[i..i + size]
    decreases |source|
  {
    if |source| < size then [] else [source[..size]] + Window(source[1..], size)
  }

  lemma WindowOfOne()
    ensures Window([1, 2, 3, 4, 5], 1) == [[1], [2], [3], [4], [5]]
  {
    var w := Window([1, 2, 3, 4, 5], 1);
    assert w[0] == [1] && w[1] == [2] && w[2] == [3] && w[3] == [4] && w[4] == [5];
  }

  lemma WindowOfTwo()
    ensures Window([1, 2, 3, 4, 5], 2) == [[1, 2], [2, 3], [3, 4], [4, 5]]
  {
    var w := Window([1, 2, 3, 4, 5], 2);
    assert w[0] == [1, 2] && w[1] == [2, 3] && w[2] == [3, 4] && w[3] == [4, 5];
  }

  lemma WindowOfThree()
    ensures Window([1, 2, 3, 4, 5], 3) == [[1, 2, 3], [2, 3, 4], [3, 4, 5]]
  {
    var w := Window([1, 2, 3, 4, 5], 3);
    assert w[0] == [1, 2, 3] && w[1] == [2, 3, 4] && w[2] == [3, 4, 5];
  }
}

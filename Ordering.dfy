/** `OrderToMatch`: order a sequence after a reference ordering of keys. Each
    element is ranked by the position of its key in the ordering; elements whose
    key the ordering does not hold rank after all others. The sort is stable, so
    elements of equal rank (the same key, or both absent) keep their original
    relative order. */
module Ordering {
  import opened Results

  /** No key occurs twice. */
  predicate Distinct<K(==)>(s: seq<K>) {
    forall i, j :: 0 <= i < j < |s| ==> s[i] != s[j]
  }

  lemma DistinctSnoc<K>(s: seq<K>)
    requires |s| > 0
    ensures Distinct(s) <==> Distinct(s[..|s| - 1]) && s[|s| - 1] !in s[..|s| - 1]
  {
    var init, last := s[..|s| - 1], s[|s| - 1];
    if Distinct(init) && last !in init {
      forall i, j | 0 <= i < j < |s| ensures s[i] != s[j] {
        if j == |s| - 1 {
          assert s[i] == init[i];
        } else {
          assert s[i] == init[i] && s[j] == init[j];
        }
      }
    }
    if Distinct(s) {
      forall i | 0 <= i < |init| ensures init[i] != last {
        assert init[i] == s[i];
      }
    }
  }

  /** Lines 21-23: `ordering.Select((x, i) => ...).ToDictionary(...)` maps each
      key to its 0-based position, and fails on the second occurrence of a key. */
  function Lookup<K(==)>(ordering: seq<K>): (r: Result<map<K, nat>>)
    ensures r.Ok? <==> Distinct(ordering)
    ensures r.Err? ==> r.error == DuplicateKey
    ensures r.Ok? ==> r.value.Keys == set i | 0 <= i < |ordering| :: ordering[i]
    ensures r.Ok? ==> (r.value == map[] <==> |ordering| == 0)
    ensures r.Ok? ==> forall i :: 0 <= i < |ordering| ==> r.value[ordering[i]] == i
    decreases |ordering|
  {
    if |ordering| == 0 then Ok(map[])
    else
      var init, last := ordering[..|ordering| - 1], ordering[|ordering| - 1];
      DistinctSnoc(ordering);
      assert forall i :: 0 <= i < |init| ==> ordering[i] == init[i];
      match Lookup(init)
      case Err(e) => Err(e)
      case Ok(m) => if last in m then Err(DuplicateKey) else Ok(m[last := |ordering| - 1])
  }

  /** Lines 33-41: the rank of a key, its looked-up position, or `absent` (the
      source's `Int32.MaxValue`) when the ordering does not hold it. */
  function Rank<K(==)>(lookup: map<K, nat>, absent: nat, k: K): nat {
    if k in lookup then lookup[k] else absent
  }

  /** The position of the first occurrence of `k` in `ordering`, or `|ordering|`
      when it does not occur. It is the reference meaning of a rank, and it is
      also `Array.IndexOf` (line 42). */
  function Position<K(==)>(ordering: seq<K>, k: K): (p: nat)
    ensures p <= |ordering|
    ensures p < |ordering| <==> k in ordering
    ensures p < |ordering| ==> ordering[p] == k
    ensures forall i :: 0 <= i < p ==> ordering[i] != k
  {
    if |ordering| == 0 then 0
    else if ordering[0] == k then 0
    else 1 + Position(ordering[1..], k)
  }

  /** With distinct keys, the looked-up rank of every key is its position. */
  lemma RankIsPosition<K>(ordering: seq<K>, k: K)
    requires Lookup(ordering).Ok?
    ensures Rank(Lookup(ordering).value, |ordering|, k) == Position(ordering, k)
  {
    var p := Position(ordering, k);
    if p < |ordering| {
      assert Lookup(ordering).value[ordering[p]] == p;
    } else {
      assert k !in Lookup(ordering).value;
    }
  }

  /** `rank` never decreases along `s`. */
  ghost predicate SortedBy<T>(s: seq<T>, rank: T -> nat) {
    forall i, j :: 0 <= i < j < |s| ==> rank(s[i]) <= rank(s[j])
  }

  /** The elements of `s` of rank `k`, in their order in `s`. */
  function WithRank<T>(s: seq<T>, rank: T -> nat, k: nat): seq<T> {
    if s == [] then []
    else (if rank(s[0]) == k then [s[0]] else []) + WithRank(s[1..], rank, k)
  }

  /** Puts `x` before the first element whose rank is not below its own. */
  function Insert<T>(x: T, s: seq<T>, rank: T -> nat): (r: seq<T>)
    ensures multiset(r) == multiset(s) + multiset{x}
  {
    if s == [] || rank(x) <= rank(s[0]) then [x] + s
    else
      assert s == [s[0]] + s[1..];
      [s[0]] + Insert(x, s[1..], rank)
  }

  /** The stable sort `OrderBy(rank)` (an insertion sort). */
  function SortByRank<T>(s: seq<T>, rank: T -> nat): (r: seq<T>)
    ensures multiset(r) == multiset(s)
  {
    if s == [] then []
    else
      assert s == [s[0]] + s[1..];
      Insert(s[0], SortByRank(s[1..], rank), rank)
  }

  lemma {:induction false} InsertSorted<T>(x: T, s: seq<T>, rank: T -> nat)
    requires SortedBy(s, rank)
    ensures SortedBy(Insert(x, s, rank), rank)
  {
    if s != [] && rank(x) > rank(s[0]) {
      InsertSorted(x, s[1..], rank);
      var r := Insert(x, s[1..], rank);
      assert multiset(r) == multiset(s[1..]) + multiset{x};
      forall y | y in r ensures rank(s[0]) <= rank(y) {
        assert y in multiset(r);
        if y != x {
          assert y in multiset(s[1..]);
          var j :| 0 <= j < |s[1..]| && s[1..][j] == y;
          assert s[j + 1] == y;
        }
      }
      assert forall j :: 0 <= j < |r| ==> r[j] in r;
    }
  }

  /** The sort's output is ordered by rank. */
  lemma {:induction false} SortByRankSorted<T>(s: seq<T>, rank: T -> nat)
    ensures SortedBy(SortByRank(s, rank), rank)
  {
    if s != [] {
      SortByRankSorted(s[1..], rank);
      InsertSorted(s[0], SortByRank(s[1..], rank), rank);
    }
  }

  /** Inserting `x` adds it at the front of its own rank class only: every
      element it is placed behind has a lower rank. */
  lemma {:induction false} InsertWithRank<T>(x: T, s: seq<T>, rank: T -> nat, k: nat)
    ensures WithRank(Insert(x, s, rank), rank, k)
         == (if rank(x) == k then [x] else []) + WithRank(s, rank, k)
  {
    if s == [] || rank(x) <= rank(s[0]) {
      assert ([x] + s)[1..] == s;
    } else {
      InsertWithRank(x, s[1..], rank, k);
      assert ([s[0]] + Insert(x, s[1..], rank))[1..] == Insert(x, s[1..], rank);
    }
  }

  /** Stability: within each rank, the sort keeps the original order. */
  lemma {:induction false} SortByRankStable<T>(s: seq<T>, rank: T -> nat, k: nat)
    ensures WithRank(SortByRank(s, rank), rank, k) == WithRank(s, rank, k)
  {
    if s != [] {
      SortByRankStable(s[1..], rank, k);
      InsertWithRank(s[0], SortByRank(s[1..], rank), rank, k);
    }
  }

  /** Two rankings that agree everywhere pick the same rank classes. */
  lemma {:induction false} WithRankAgrees<T>(s: seq<T>, rank1: T -> nat, rank2: T -> nat, k: nat)
    requires forall x :: rank1(x) == rank2(x)
    ensures WithRank(s, rank1, k) == WithRank(s, rank2, k)
  {
    if s != [] {
      WithRankAgrees(s[1..], rank1, rank2, k);
    }
  }

  /** Lines 33-41: the sort key of an element, the rank of its key. */
  function StableKey<T, K(==)>(lookup: map<K, nat>, absent: nat, sortKey: T -> K): T -> nat {
    x => Rank(lookup, absent, sortKey(x))
  }

  /** Lines 33-42: the rank of an element's key, then its `Array.IndexOf` in
      the source, combined into one key. */
  function WrittenKey<T(==), K(==)>(lookup: map<K, nat>, absent: nat, sortKey: T -> K, source: seq<T>): T -> nat {
    x => Rank(lookup, absent, sortKey(x)) * (|source| + 1) + Position(source, x)
  }

  /** Lines 19-43: `source.OrderToMatch(sortKey, ordering)`. Fails on a
      duplicate key in the ordering (ToDictionary), then on an empty ordering;
      otherwise a permutation of the source ordered by the keys' positions in
      the ordering, absent keys last. */
  function OrderToMatch<T, K(==)>(source: seq<T>, sortKey: T -> K, ordering: seq<K>): (r: Result<seq<T>>)
    ensures r.Err? <==> |ordering| == 0 || !Distinct(ordering)
    ensures r == Err(EmptyOrdering) <==> |ordering| == 0
    ensures r.Err? && |ordering| > 0 ==> r.error == DuplicateKey
    ensures r.Ok? ==> multiset(r.value) == multiset(source)
    ensures r.Ok? ==> forall i, j :: 0 <= i < j < |r.value| ==>
      Position(ordering, sortKey(r.value[i])) <= Position(ordering, sortKey(r.value[j]))
    ensures r.Ok? ==> forall i, j :: 0 <= i < j < |r.value| && sortKey(r.value[i]) !in ordering ==>
      sortKey(r.value[j]) !in ordering
  {
    match Lookup(ordering)
    case Err(e) => Err(e)
    case Ok(lookup) =>
      if lookup == map[] then Err(EmptyOrdering)
      else
        var rank := StableKey(lookup, |ordering|, sortKey);
        var sorted := SortByRank(source, rank);
        SortByRankSorted(source, rank);
        assert forall i :: 0 <= i < |sorted| ==> rank(sorted[i]) == Position(ordering, sortKey(sorted[i])) by {
          forall i | 0 <= i < |sorted| ensures rank(sorted[i]) == Position(ordering, sortKey(sorted[i])) {
            RankIsPosition(ordering, sortKey(sorted[i]));
          }
        }
        Ok(sorted)
  }

  /** The elements of `s` whose key has position `p` in the ordering. */
  function KeyedAt<T, K(==)>(s: seq<T>, sortKey: T -> K, ordering: seq<K>, p: nat): seq<T> {
    WithRank(s, x => Position(ordering, sortKey(x)), p)
  }

  /** Among elements of equal rank the output keeps the source order. For keys
      absent from the ordering (p == |ordering|) this is the promise of line 13.
      For elements sharing a present key it is the evident purpose of the
      `ThenBy(Array.IndexOf(...))` of line 42, an original-order tie-break. */
  lemma OrderToMatchStable<T, K>(source: seq<T>, sortKey: T -> K, ordering: seq<K>, p: nat)
    requires OrderToMatch(source, sortKey, ordering).Ok?
    ensures KeyedAt(OrderToMatch(source, sortKey, ordering).value, sortKey, ordering, p)
         == KeyedAt(source, sortKey, ordering, p)
  {
    var lookup := Lookup(ordering).value;
    var rank := StableKey(lookup, |ordering|, sortKey);
    var position := x => Position(ordering, sortKey(x));
    var sorted := SortByRank(source, rank);
    assert OrderToMatch(source, sortKey, ordering).value == sorted;
    forall x ensures rank(x) == position(x) {
      RankIsPosition(ordering, sortKey(x));
    }
    SortByRankStable(source, rank, p);
    WithRankAgrees(sorted, rank, position, p);
    WithRankAgrees(source, rank, position, p);
  }

  /** Lines 33-38: among elements whose keys the ordering holds, the output
      follows the ordering. */
  lemma PresentKeysFollowOrdering<T, K>(source: seq<T>, sortKey: T -> K, ordering: seq<K>, i: nat, j: nat)
    requires OrderToMatch(source, sortKey, ordering).Ok?
    requires i < j < |OrderToMatch(source, sortKey, ordering).value|
    ensures var r := OrderToMatch(source, sortKey, ordering).value;
      var a, b := sortKey(r[i]), sortKey(r[j]);
      a in ordering && b in ordering && a != b ==>
        exists p, q :: 0 <= p < q < |ordering| && ordering[p] == a && ordering[q] == b
  {
    var r := OrderToMatch(source, sortKey, ordering).value;
    var a, b := sortKey(r[i]), sortKey(r[j]);
    if a in ordering && b in ordering && a != b {
      var p, q := Position(ordering, a), Position(ordering, b);
      assert p <= q && p != q;
    }
  }

  /** One combined key `a * n + fa`, with both tie-breaks below `n`, orders by
      `a` first and then by the tie-break: `OrderBy(a).ThenBy(fa)`. */
  lemma CombinedKeyOrder(a: nat, fa: nat, b: nat, fb: nat, n: nat)
    requires fa < n && fb < n
    ensures a * n + fa <= b * n + fb <==> a < b || (a == b && fa <= fb)
  {
    if a < b {
      assert (a + 1) * n <= b * n;
    } else if b < a {
      assert (b + 1) * n <= a * n;
    }
  }

  /** Lines 19-43 as written: `OrderBy(rank).ThenBy(x => Array.IndexOf(sourceArray, x))`.
      The two sort keys are combined into `rank * (|source| + 1) + IndexOf`, which
      orders the same way because `IndexOf` never exceeds `|source|`. The errors,
      the permutation and the order by rank are those of `OrderToMatch`; inside a
      rank the output is ordered by the first index of an equal source element,
      not by source order. */
  function OrderToMatchAsWritten<T(==), K(==)>(source: seq<T>, sortKey: T -> K, ordering: seq<K>): (r: Result<seq<T>>)
    ensures r.Err? <==> |ordering| == 0 || !Distinct(ordering)
    ensures r == Err(EmptyOrdering) <==> |ordering| == 0
    ensures r.Err? && |ordering| > 0 ==> r.error == DuplicateKey
    ensures r.Ok? ==> multiset(r.value) == multiset(source)
    ensures r.Ok? ==> forall i, j :: 0 <= i < j < |r.value| ==>
      Position(ordering, sortKey(r.value[i])) <= Position(ordering, sortKey(r.value[j]))
    ensures r.Ok? ==> forall i, j :: 0 <= i < j < |r.value| && sortKey(r.value[i]) !in ordering ==>
      sortKey(r.value[j]) !in ordering
    ensures r.Ok? ==> forall i, j ::
      0 <= i < j < |r.value| && Position(ordering, sortKey(r.value[i])) == Position(ordering, sortKey(r.value[j]))
      ==> Position(source, r.value[i]) <= Position(source, r.value[j])
  {
    match Lookup(ordering)
    case Err(e) => Err(e)
    case Ok(lookup) =>
      if lookup == map[] then Err(EmptyOrdering)
      else
        var n := |source| + 1;
        var key := WrittenKey(lookup, |ordering|, sortKey, source);
        var sorted := SortByRank(source, key);
        SortByRankSorted(source, key);
        assert forall i, j :: 0 <= i < j < |sorted| ==>
          && Position(ordering, sortKey(sorted[i])) <= Position(ordering, sortKey(sorted[j]))
          && (Position(ordering, sortKey(sorted[i])) == Position(ordering, sortKey(sorted[j])) ==>
              Position(source, sorted[i]) <= Position(source, sorted[j])) by {
          forall i, j | 0 <= i < j < |sorted|
            ensures Position(ordering, sortKey(sorted[i])) <= Position(ordering, sortKey(sorted[j]))
            ensures Position(ordering, sortKey(sorted[i])) == Position(ordering, sortKey(sorted[j])) ==>
              Position(source, sorted[i]) <= Position(source, sorted[j])
          {
            var x, y := sorted[i], sorted[j];
            RankIsPosition(ordering, sortKey(x));
            RankIsPosition(ordering, sortKey(y));
            assert key(x) <= key(y);
            CombinedKeyOrder(Rank(lookup, |ordering|, sortKey(x)), Position(source, x),
                             Rank(lookup, |ordering|, sortKey(y)), Position(source, y), n);
          }
        }
        Ok(sorted)
  }

  /** The sort key of the examples below, `x % 2`. */
  function Parity(x: int): int { x % 2 }

  /** Any rank that puts 3 ahead of 5 sorts `[3, 5, 3]` to `[3, 3, 5]`. */
  lemma SortOfThreeFiveThree(key: int -> nat)
    requires key(3) < key(5)
    ensures SortByRank([3, 5, 3], key) == [3, 3, 5]
  {
    assert [3, 5, 3][1..] == [5, 3] && [5, 3][1..] == [3];
    assert SortByRank([3], key) == [3];
    assert Insert(5, [3], key) == [3] + Insert(5, [], key) == [3, 5];
    assert SortByRank([5, 3], key) == [3, 5];
    assert Insert(3, [3, 5], key) == [3, 3, 5];
  }

  /** The combined key of line 42 for `[3, 5, 3]` keyed by parity. */
  lemma WrittenKeyOfEqualKeys()
    ensures WrittenKey(map[1 := 0], 1, Parity, [3, 5, 3])(3) == 0
    ensures WrittenKey(map[1 := 0], 1, Parity, [3, 5, 3])(5) == 1
  {
    var source := [3, 5, 3];
    assert Position(source, 3) == 0 && Position(source, 5) == 1;
    assert Parity(3) == 1 && Parity(5) == 1 && Rank(map[1 := 0], 1, 1) == 0;
  }

  /** Line 42 against line 13, with the elements keyed by parity and the
      ordering `[1]`: every element of `[3, 5, 3]` has rank 0, and `IndexOf`
      gives 0, 1, 0, so the code moves the second 3 ahead of the 5. */
  lemma TieBreakRegroupsEqualKeys()
    ensures OrderToMatchAsWritten([3, 5, 3], Parity, [1]) == Ok([3, 3, 5])
  {
    assert Lookup([1]) == Ok(map[1 := 0]);
    WrittenKeyOfEqualKeys();
    SortOfThreeFiveThree(WrittenKey(map[1 := 0], 1, Parity, [3, 5, 3]));
  }

  /** Any rank that ties 3 with 5 leaves `[3, 5, 3]` as it is. */
  lemma SortOfTiedThreeFiveThree(key: int -> nat)
    requires key(3) == key(5)
    ensures SortByRank([3, 5, 3], key) == [3, 5, 3]
  {
    assert [3, 5, 3][1..] == [5, 3] && [5, 3][1..] == [3];
    assert SortByRank([3], key) == [3];
    assert Insert(5, [3], key) == [5, 3];
    assert SortByRank([5, 3], key) == [5, 3];
    assert Insert(3, [5, 3], key) == [3, 5, 3];
  }

  /** The same input keeps its source order when the tie is broken by
      stability alone. */
  lemma StableKeepsEqualKeysInOrder()
    ensures OrderToMatch([3, 5, 3], Parity, [1]) == Ok([3, 5, 3])
  {
    var rank := StableKey(map[1 := 0], 1, Parity);
    assert Lookup([1]) == Ok(map[1 := 0]);
    assert Parity(3) == 1 && Parity(5) == 1;
    assert rank(3) == Rank(map[1 := 0], 1, Parity(3)) && rank(5) == Rank(map[1 := 0], 1, Parity(5));
    SortOfTiedThreeFiveThree(rank);
  }

  /** Any rank that puts 1 ahead of 2 sorts `[1, 2, 1]` to `[1, 1, 2]`. */
  lemma SortOfOneTwoOne(key: int -> nat)
    requires key(1) < key(2)
    ensures SortByRank([1, 2, 1], key) == [1, 1, 2]
  {
    assert [1, 2, 1][1..] == [2, 1] && [2, 1][1..] == [1];
    assert SortByRank([1], key) == [1];
    assert Insert(2, [1], key) == [1] + Insert(2, [], key) == [1, 2];
    assert SortByRank([2, 1], key) == [1, 2];
    assert Insert(1, [1, 2], key) == [1, 1, 2];
  }

  /** The combined key of line 42 for `[1, 2, 1]` when no key is present. */
  lemma WrittenKeyOfAbsentKeys()
    ensures WrittenKey(map[9 := 0], 1, Parity, [1, 2, 1])(1) == 4
    ensures WrittenKey(map[9 := 0], 1, Parity, [1, 2, 1])(2) == 5
  {
    var source := [1, 2, 1];
    assert source[1..] == [2, 1];
    assert Position(source, 1) == 0 && Position(source, 2) == 1;
    assert Parity(1) == 1 && Parity(2) == 0;
    assert 1 !in map[9 := 0] && 0 !in map[9 := 0];
    assert Rank(map[9 := 0], 1, Parity(1)) == 1 && Rank(map[9 := 0], 1, Parity(2)) == 1;
  }

  /** Line 42 against the promise of line 13 that elements with absent keys
      keep their original order: with ordering `[9]` no parity of `[1, 2, 1]`
      is present, and the code moves the second 1 ahead of the 2. */
  lemma TieBreakReordersAbsentKeys()
    ensures OrderToMatchAsWritten([1, 2, 1], Parity, [9]) == Ok([1, 1, 2])
  {
    assert Lookup([9]) == Ok(map[9 := 0]);
    WrittenKeyOfAbsentKeys();
    SortOfOneTwoOne(WrittenKey(map[9 := 0], 1, Parity, [1, 2, 1]));
  }
}

/** The column sorter: the asc/desc toggle, the all-or-nothing numeric
    classification of a column, the comparator, and the stable sort that
    `Array.prototype.sort` performs with it. */
module Sorting {
  import opened Text
  import opened Rows

  datatype Option<T> = None | Some(value: T)

  datatype Order = Asc | Desc

  /** The sort direction after a click on header `index`: descending
      exactly when the same column was sorted ascending last time,
      ascending otherwise (also on the very first click, when no column
      has been sorted yet). */
  function NextOrder(sortedColumnIndex: Option<nat>, sortOrder: Option<Order>, index: nat): (r: Order)
    ensures r == Desc <==> sortedColumnIndex == Some(index) && sortOrder == Some(Asc)
    ensures r == Asc <==> !(sortedColumnIndex == Some(index) && sortOrder == Some(Asc))
  {
    if sortedColumnIndex == Some(index) && sortOrder == Some(Asc) then Desc else Asc
  }

  /** Two clicks in a row on the same header always give opposite
      directions: the toggle has two states, not three. */
  lemma ToggleAlternates(sortedColumnIndex: Option<nat>, sortOrder: Option<Order>, index: nat)
    ensures var first := NextOrder(sortedColumnIndex, sortOrder, index);
            NextOrder(Some(index), Some(first), index) != first
  {
  }

  /** The per-row test of the numeric-column scan: the trimmed cell in
      column `index` is a non-empty number. */
  predicate NumericAt(r: Row, index: nat) {
    IsNumericCell(Trim(Cell(r, index)))
  }

  /** The column is numeric exactly when every row's trimmed cell in it is
      a non-empty number (`rows.every(...)`); an empty selection of rows
      counts as numeric, as `every` on an empty array is true. */
  function IsNumericColumn(data: seq<Row>, index: nat): (r: bool)
    ensures r <==> forall i :: 0 <= i < |data| ==> NumericAt(data[i], index)
  {
    if data == [] then true
    else
      var init := data[..|data| - 1];
      assert forall i :: 0 <= i < |init| ==> init[i] == data[i];
      NumericAt(data[|data| - 1], index) && IsNumericColumn(init, index)
  }

  /** One empty or non-numeric cell makes the whole column text-compared. */
  lemma OneTextCellMakesTextColumn(data: seq<Row>, index: nat, i: nat)
    requires i < |data| && !NumericAt(data[i], index)
    ensures !IsNumericColumn(data, index)
  {
  }

  /** What a cell is compared by: its number in a numeric column, its
      trimmed text otherwise. */
  datatype SortKey = NumKey(n: real) | TextKey(s: string)

  /** A comparator: the key each row is compared by, and the direction. */
  datatype Comparator = Comparator(key: Row -> SortKey, order: Order)

  /** The key `sortColumn` compares a row by: the number in its trimmed
      cell when the column was classified numeric, the trimmed text
      otherwise. */
  function KeyOf(index: nat, numeric: bool, r: Row): SortKey {
    var v := Trim(Cell(r, index));
    if numeric && IsNumericCell(v) then NumKey(NumValue(v)) else TextKey(v)
  }

  /** The key function of column `index`; both directions share it. */
  function ColumnKey(index: nat, numeric: bool): Row -> SortKey {
    r => KeyOf(index, numeric, r)
  }

  /** The comparator `sortColumn` builds for column `index`. */
  function ColumnComparator(index: nat, numeric: bool, order: Order): Comparator {
    Comparator(ColumnKey(index, numeric), order)
  }

  /** Ascending comparison of keys: `numA - numB <= 0` for numbers,
      `cellA.localeCompare(cellB) <= 0` (here: code-point order) for text.
      A number and a text are never compared by the source, since a column
      is either all numbers or all text; numbers are put first. */
  predicate KeyLe(a: SortKey, b: SortKey) {
    match (a, b)
    case (NumKey(x), NumKey(y)) => x <= y
    case (TextKey(x), TextKey(y)) => LexLe(x, y)
    case (NumKey(_), TextKey(_)) => true
    case (TextKey(_), NumKey(_)) => false
  }

  /** "Row x may stay before row y", i.e. the comparator returns <= 0. */
  predicate Le(c: Comparator, x: Row, y: Row) {
    if c.order == Asc then KeyLe(c.key(x), c.key(y))
    else KeyLe(c.key(y), c.key(x))
  }

  lemma KeyLeTotal(a: SortKey, b: SortKey)
    ensures KeyLe(a, b) || KeyLe(b, a)
  {
    if a.TextKey? && b.TextKey? { LexLeTotal(a.s, b.s); }
  }

  lemma KeyLeTransitive(a: SortKey, b: SortKey, k: SortKey)
    requires KeyLe(a, b) && KeyLe(b, k)
    ensures KeyLe(a, k)
  {
    if a.TextKey? && b.TextKey? && k.TextKey? { LexLeTransitive(a.s, b.s, k.s); }
  }

  lemma KeyLeAntisymmetric(a: SortKey, b: SortKey)
    requires KeyLe(a, b) && KeyLe(b, a)
    ensures a == b
  {
    if a.TextKey? && b.TextKey? { LexLeAntisymmetric(a.s, b.s); }
  }

  /** The comparator is a total preorder whose ties are exactly the rows
      with equal keys: the conditions under which ECMA-262 fixes the
      result of `Array.prototype.sort`. */
  lemma LeTotal(c: Comparator, x: Row, y: Row)
    ensures Le(c, x, y) || Le(c, y, x)
  {
    KeyLeTotal(c.key(x), c.key(y));
  }

  lemma LeTransitive(c: Comparator, x: Row, y: Row, z: Row)
    requires Le(c, x, y) && Le(c, y, z)
    ensures Le(c, x, z)
  {
    if c.order == Asc {
      KeyLeTransitive(c.key(x), c.key(y), c.key(z));
    } else {
      KeyLeTransitive(c.key(z), c.key(y), c.key(x));
    }
  }

  lemma LeTies(c: Comparator, x: Row, y: Row)
    ensures Le(c, x, y) && Le(c, y, x) <==> c.key(x) == c.key(y)
  {
    if Le(c, x, y) && Le(c, y, x) {
      KeyLeAntisymmetric(c.key(x), c.key(y));
    } else {
      KeyLeTotal(c.key(x), c.key(x));
    }
  }

  // ---------------------------------------------------------------------
  // The stable sort
  // ---------------------------------------------------------------------

  /** Ordered by the comparator: every row may stay before every later row. */
  ghost predicate Sorted(c: Comparator, s: seq<Row>) {
    forall i, j :: 0 <= i < j < |s| ==> Le(c, s[i], s[j])
  }

  /** The rows of `s` whose key is `k`, in their order in `s`. */
  function WithKey(c: Comparator, s: seq<Row>, k: SortKey): seq<Row> {
    if s == [] then []
    else WithKey(c, s[..|s| - 1], k) + (if c.key(s[|s| - 1]) == k then [s[|s| - 1]] else [])
  }

  /** Stability: for every key, the rows having it come in the same
      relative order in `t` as in `s`. */
  ghost predicate SameTieOrder(c: Comparator, t: seq<Row>, s: seq<Row>) {
    forall k :: WithKey(c, t, k) == WithKey(c, s, k)
  }

  /** Places `x` after the last element of `t` that may stay before it,
      scanning from the end. */
  function Insert(c: Comparator, t: seq<Row>, x: Row): seq<Row>
  {
    if t == [] then [x]
    else if Le(c, t[|t| - 1], x) then t + [x]
    else Insert(c, t[..|t| - 1], x) + [t[|t| - 1]]
  }

  /** Sorting by insertion, one row at a time from the left. For a
      comparator that is a total preorder a stable sort has exactly one
      possible result, so this is what `Array.prototype.sort` returns. */
  function InsertionSort(c: Comparator, s: seq<Row>): seq<Row>
  {
    if s == [] then [] else Insert(c, InsertionSort(c, s[..|s| - 1]), s[|s| - 1])
  }

  lemma {:induction false} InsertMultiset(c: Comparator, t: seq<Row>, x: Row)
    ensures multiset(Insert(c, t, x)) == multiset(t) + multiset{x}
  {
    if t != [] && !Le(c, t[|t| - 1], x) {
      var t' := t[..|t| - 1];
      InsertMultiset(c, t', x);
      assert t == t' + [t[|t| - 1]];
    }
  }

  lemma {:induction false} InsertSorted(c: Comparator, t: seq<Row>, x: Row)
    requires Sorted(c, t)
    ensures Sorted(c, Insert(c, t, x))
  {
    if t == [] {
    } else if Le(c, t[|t| - 1], x) {
      var r := t + [x];
      forall i, j | 0 <= i < j < |r|
        ensures Le(c, r[i], r[j])
      {
        if j == |t| && i < |t| - 1 {
          LeTransitive(c, t[i], t[|t| - 1], x);
        }
      }
    } else {
      var t' := t[..|t| - 1];
      var last := t[|t| - 1];
      InsertSorted(c, t', x);
      InsertMultiset(c, t', x);
      var u := Insert(c, t', x);
      var r := u + [last];
      LeTotal(c, last, x);
      forall i, j | 0 <= i < j < |r|
        ensures Le(c, r[i], r[j])
      {
        if j == |u| {
          assert r[i] in multiset(u);
          assert r[i] in multiset(t') || r[i] == x;
          if r[i] != x {
            var k :| 0 <= k < |t'| && t'[k] == r[i];
            assert t[k] == r[i];
          }
        }
      }
    }
  }

  /** Inserting `x` appends it to the rows sharing its key and leaves the
      order of every key class alone. */
  lemma {:induction false} InsertTieOrder(c: Comparator, t: seq<Row>, x: Row, k: SortKey)
    ensures WithKey(c, Insert(c, t, x), k) == WithKey(c, t, k) + (if c.key(x) == k then [x] else [])
  {
    if t == [] {
      assert WithKey(c, [x], k) == WithKey(c, [], k) + (if c.key(x) == k then [x] else []);
    } else if Le(c, t[|t| - 1], x) {
      assert (t + [x])[..|t|] == t;
    } else {
      var t' := t[..|t| - 1];
      var last := t[|t| - 1];
      var u := Insert(c, t', x);
      InsertTieOrder(c, t', x, k);
      assert (u + [last])[..|u|] == u;
      LeTies(c, last, x);
      LeTotal(c, last, x);
    }
  }

  /** The sorted rows are a permutation of the input: no row added, none
      dropped, none duplicated. */
  lemma {:induction false} SortPermutation(c: Comparator, s: seq<Row>)
    ensures multiset(InsertionSort(c, s)) == multiset(s)
    ensures |InsertionSort(c, s)| == |s|
  {
    if s != [] {
      var init := s[..|s| - 1];
      SortPermutation(c, init);
      InsertMultiset(c, InsertionSort(c, init), s[|s| - 1]);
      assert s == init + [s[|s| - 1]];
    }
  }

  /** The sorted rows are ordered by the comparator. */
  lemma {:induction false} SortOrdered(c: Comparator, s: seq<Row>)
    ensures Sorted(c, InsertionSort(c, s))
  {
    if s != [] {
      SortOrdered(c, s[..|s| - 1]);
      InsertSorted(c, InsertionSort(c, s[..|s| - 1]), s[|s| - 1]);
    }
  }

  /** Ordered by the comparator means non-decreasing keys for an ascending
      sort and non-increasing keys for a descending one. */
  lemma SortDirection(c: Comparator, s: seq<Row>)
    ensures var t := InsertionSort(c, s);
            && (c.order == Asc ==> forall i, j :: 0 <= i < j < |t| ==> KeyLe(c.key(t[i]), c.key(t[j])))
            && (c.order == Desc ==> forall i, j :: 0 <= i < j < |t| ==> KeyLe(c.key(t[j]), c.key(t[i])))
  {
    SortOrdered(c, s);
  }

  /** The sort is stable: rows with equal keys keep their relative order. */
  lemma {:induction false} SortStable(c: Comparator, s: seq<Row>)
    ensures SameTieOrder(c, InsertionSort(c, s), s)
  {
    if s != [] {
      var init := s[..|s| - 1];
      SortStable(c, init);
      forall k ensures WithKey(c, InsertionSort(c, s), k) == WithKey(c, s, k) {
        InsertTieOrder(c, InsertionSort(c, init), s[|s| - 1], k);
      }
    }
  }

  /** When every row has the same key, sorting leaves the rows as they are. */
  lemma {:induction false} WithKeyUniform(c: Comparator, s: seq<Row>, k: SortKey)
    requires forall i :: 0 <= i < |s| ==> c.key(s[i]) == k
    ensures WithKey(c, s, k) == s
  {
    if s != [] {
      var n := |s| - 1;
      assert forall i :: 0 <= i < n ==> s[..n][i] == s[i];
      WithKeyUniform(c, s[..n], k);
      assert s == s[..n] + [s[n]];
    }
  }

  /** A sort by a key that all rows share changes nothing: stability keeps
      them all in place. */
  lemma UniformKeySortIdentity(c: Comparator, s: seq<Row>, k: SortKey)
    requires forall x :: x in s ==> c.key(x) == k
    ensures InsertionSort(c, s) == s
  {
    var t := InsertionSort(c, s);
    SortPermutation(c, s);
    SortStable(c, s);
    forall i | 0 <= i < |t|
      ensures c.key(t[i]) == k
    {
      assert t[i] in multiset(s);
    }
    WithKeyUniform(c, s, k);
    WithKeyUniform(c, t, k);
  }

  /** The classification looks only at which rows there are, so reordering
      the rows (as a first sort does) does not change it. */
  lemma NumericColumnPermutation(s: seq<Row>, t: seq<Row>, index: nat)
    requires multiset(s) == multiset(t)
    ensures IsNumericColumn(s, index) == IsNumericColumn(t, index)
  {
    if IsNumericColumn(s, index) {
      forall j | 0 <= j < |t|
        ensures NumericAt(t[j], index)
      {
        assert t[j] in multiset(s);
        var i :| 0 <= i < |s| && s[i] == t[j];
      }
    }
    if IsNumericColumn(t, index) {
      forall i | 0 <= i < |s|
        ensures NumericAt(s[i], index)
      {
        assert s[i] in multiset(t);
        var j :| 0 <= j < |t| && t[j] == s[i];
      }
    }
  }

  // ---------------------------------------------------------------------
  // Sorting the same column twice
  // ---------------------------------------------------------------------

  /** The other direction. */
  function Opposite(o: Order): Order {
    if o == Asc then Desc else Asc
  }

  /** `s` back to front. */
  function Reverse(s: seq<Row>): (r: seq<Row>)
    ensures |r| == |s|
  {
    if s == [] then [] else [s[|s| - 1]] + Reverse(s[..|s| - 1])
  }

  lemma {:induction false} ReverseAt(s: seq<Row>, i: nat)
    requires i < |s|
    ensures Reverse(s)[i] == s[|s| - 1 - i]
  {
    if i > 0 {
      ReverseAt(s[..|s| - 1], i - 1);
    }
  }

  lemma {:induction false} ReverseMultiset(s: seq<Row>)
    ensures multiset(Reverse(s)) == multiset(s)
  {
    if s != [] {
      ReverseMultiset(s[..|s| - 1]);
      assert s == s[..|s| - 1] + [s[|s| - 1]];
    }
  }

  /** Rows sorted one way, read back to front, are sorted the other way. */
  lemma ReverseSorted(c: Comparator, t: seq<Row>)
    requires Sorted(c, t)
    ensures Sorted(Comparator(c.key, Opposite(c.order)), Reverse(t))
  {
    var n := |t| - 1;
    forall i, j | 0 <= i < j < |t|
      ensures Le(Comparator(c.key, Opposite(c.order)), Reverse(t)[i], Reverse(t)[j])
    {
      ReverseAt(t, i);
      ReverseAt(t, j);
      assert Le(c, t[n - j], t[n - i]);
    }
  }

  /** No two rows of `s` share a key. */
  ghost predicate DistinctKeys(key: Row -> SortKey, s: seq<Row>) {
    forall i, j :: 0 <= i < j < |s| ==> key(s[i]) != key(s[j])
  }

  lemma {:induction false} NoneWithKey(c: Comparator, s: seq<Row>, k: SortKey)
    requires forall i :: 0 <= i < |s| ==> c.key(s[i]) != k
    ensures WithKey(c, s, k) == []
  {
    if s != [] {
      var n := |s| - 1;
      assert forall i :: 0 <= i < n ==> s[..n][i] == s[i];
      NoneWithKey(c, s[..n], k);
    }
  }

  /** With distinct keys, each key picks out at most one row. */
  lemma {:induction false} DistinctAtMostOne(c: Comparator, s: seq<Row>, k: SortKey)
    requires DistinctKeys(c.key, s)
    ensures |WithKey(c, s, k)| <= 1
  {
    if s != [] {
      var n := |s| - 1;
      assert forall i :: 0 <= i < n ==> s[..n][i] == s[i];
      DistinctAtMostOne(c, s[..n], k);
      if c.key(s[n]) == k {
        NoneWithKey(c, s[..n], k);
      }
    }
  }

  lemma {:induction false} OneWithKey(c: Comparator, s: seq<Row>, i: nat)
    requires i < |s|
    ensures |WithKey(c, s, c.key(s[i]))| >= 1
  {
    var n := |s| - 1;
    if i < n {
      assert s[..n][i] == s[i];
      OneWithKey(c, s[..n], i);
    }
  }

  lemma {:induction false} TwoWithKey(c: Comparator, s: seq<Row>, i: nat, j: nat)
    requires i < j < |s| && c.key(s[i]) == c.key(s[j])
    ensures |WithKey(c, s, c.key(s[j]))| >= 2
  {
    var n := |s| - 1;
    assert s[..n][i] == s[i];
    if j == n {
      OneWithKey(c, s[..n], i);
    } else {
      assert s[..n][j] == s[j];
      TwoWithKey(c, s[..n], i, j);
    }
  }

  /** A stable sort keeps the keys distinct. */
  lemma SortKeepsDistinctKeys(c: Comparator, s: seq<Row>)
    requires DistinctKeys(c.key, s)
    ensures DistinctKeys(c.key, InsertionSort(c, s))
  {
    var t := InsertionSort(c, s);
    SortStable(c, s);
    forall i, j | 0 <= i < j < |t|
      ensures c.key(t[i]) != c.key(t[j])
    {
      if c.key(t[i]) == c.key(t[j]) {
        TwoWithKey(c, t, i, j);
        DistinctAtMostOne(c, s, c.key(t[j]));
      }
    }
  }

  /** Two sorted orders of the same rows with distinct keys end in the
      same row: the one with the greatest key. */
  lemma SortedLastAgree(c: Comparator, t: seq<Row>, u: seq<Row>)
    requires Sorted(c, t) && Sorted(c, u) && multiset(t) == multiset(u)
    requires DistinctKeys(c.key, t) && |t| == |u| > 0
    ensures t[|t| - 1] == u[|u| - 1]
  {
    var n := |t| - 1;
    var x, y := t[n], u[n];
    assert y in multiset(t) && x in multiset(u);
    var i :| 0 <= i < |t| && t[i] == y;
    var j :| 0 <= j < |u| && u[j] == x;
    if x != y {
      assert Le(c, t[i], t[n]) && Le(c, u[j], u[n]);
      LeTies(c, x, y);
    }
  }

  lemma PrefixSortedDistinct(c: Comparator, t: seq<Row>, n: nat)
    requires Sorted(c, t) && n <= |t|
    ensures Sorted(c, t[..n])
    ensures DistinctKeys(c.key, t) ==> DistinctKeys(c.key, t[..n])
  {
    assert forall a :: 0 <= a < n ==> t[..n][a] == t[a];
  }

  lemma DropLastMultiset(t: seq<Row>, u: seq<Row>)
    requires multiset(t) == multiset(u) && |t| == |u| > 0 && t[|t| - 1] == u[|u| - 1]
    ensures multiset(t[..|t| - 1]) == multiset(u[..|u| - 1])
  {
    var n, x := |t| - 1, t[|t| - 1];
    assert t == t[..n] + [x] && u == u[..n] + [x];
    assert multiset(t) == multiset(t[..n]) + multiset{x};
    assert multiset(u) == multiset(u[..n]) + multiset{x};
    forall y
      ensures multiset(t[..n])[y] == multiset(u[..n])[y]
    {
      assert multiset(t)[y] == multiset(t[..n])[y] + multiset{x}[y];
      assert multiset(u)[y] == multiset(u[..n])[y] + multiset{x}[y];
    }
  }

  /** With distinct keys there is only one sorted order of a given
      collection of rows. */
  lemma {:induction false} SortedUnique(c: Comparator, t: seq<Row>, u: seq<Row>)
    requires Sorted(c, t) && Sorted(c, u) && multiset(t) == multiset(u)
    requires DistinctKeys(c.key, t)
    ensures t == u
  {
    assert |t| == |multiset(t)| == |u|;
    if t != [] {
      var n := |t| - 1;
      SortedLastAgree(c, t, u);
      DropLastMultiset(t, u);
      PrefixSortedDistinct(c, t, n);
      PrefixSortedDistinct(c, u, n);
      SortedUnique(c, t[..n], u[..n]);
    }
  }

  /** Sorting the same column a second time, in the other direction, when
      no two rows share a key: the result is the first order reversed. */
  lemma SecondSortReverses(c: Comparator, s: seq<Row>)
    requires DistinctKeys(c.key, s)
    ensures var once := InsertionSort(c, s);
            InsertionSort(Comparator(c.key, Opposite(c.order)), once) == Reverse(once)
  {
    var flipped := Comparator(c.key, Opposite(c.order));
    var once := InsertionSort(c, s);
    var twice := InsertionSort(flipped, once);
    SortOrdered(c, s);
    SortKeepsDistinctKeys(c, s);
    SortKeepsDistinctKeys(flipped, once);
    SortOrdered(flipped, once);
    SortPermutation(flipped, once);
    ReverseSorted(c, once);
    ReverseMultiset(once);
    SortedUnique(flipped, twice, Reverse(once));
  }

  // ---------------------------------------------------------------------
  // Sorting in place
  // ---------------------------------------------------------------------

  /** Moving past one row that must come after `x`. */
  lemma InsertStep(c: Comparator, s: seq<Row>, x: Row, j: nat)
    requires 0 < j <= |s| && !Le(c, s[j - 1], x)
    ensures Insert(c, s[..j], x) + s[j..] == Insert(c, s[..j - 1], x) + s[j - 1..]
  {
    assert s[..j][..j - 1] == s[..j - 1];
    assert s[j - 1..] == [s[j - 1]] + s[j..];
  }

  /** Stopping in front of a row that may stay before `x`, or at the start. */
  lemma InsertStop(c: Comparator, s: seq<Row>, x: Row, j: nat)
    requires j <= |s| && (j == 0 || Le(c, s[j - 1], x))
    ensures Insert(c, s[..j], x) == s[..j] + [x]
  {
  }

  /** One step of the insertion sort: moves `a[i]` left past the rows of
      the prefix `a[..i]` that must come after it. */
  method InsertInPlace(a: array<Row>, i: nat, c: Comparator)
    requires i < a.Length
    modifies a
    ensures a[..i + 1] == Insert(c, old(a[..i]), old(a[i]))
    ensures a[i + 1..] == old(a[i + 1..])
  {
    ghost var before := a[..];
    ghost var sorted := a[..i];
    var x := a[i];
    var j := i;
    assert sorted[..j] == sorted && sorted[j..] == [];
    while j > 0 && !Le(c, a[j - 1], x)
      invariant 0 <= j <= i
      invariant forall k :: 0 <= k < j ==> a[k] == sorted[k]
      invariant forall k :: j < k <= i ==> a[k] == sorted[k - 1]
      invariant forall k :: i < k < a.Length ==> a[k] == before[k]
      invariant Insert(c, sorted, x) == Insert(c, sorted[..j], x) + sorted[j..]
    {
      InsertStep(c, sorted, x, j);
      a[j] := a[j - 1];
      j := j - 1;
    }
    a[j] := x;
    FinishInsert(c, a[..], before, x, i, j);
  }

  /** The state the loop of `InsertInPlace` ends in is the insertion, with
      the rows after position `i` untouched. */
  lemma FinishInsert(c: Comparator, cur: seq<Row>, before: seq<Row>, x: Row, i: nat, j: nat)
    requires i < |before| == |cur| && x == before[i] && j <= i
    requires forall k :: 0 <= k < j ==> cur[k] == before[..i][k]
    requires cur[j] == x
    requires forall k :: j < k <= i ==> cur[k] == before[..i][k - 1]
    requires forall k :: i < k < |cur| ==> cur[k] == before[k]
    requires Insert(c, before[..i], x) == Insert(c, before[..i][..j], x) + before[..i][j..]
    requires j == 0 || Le(c, before[..i][j - 1], x)
    ensures cur[..i + 1] == Insert(c, before[..i], x)
    ensures cur[i + 1..] == before[i + 1..]
  {
    var sorted := before[..i];
    InsertStop(c, sorted, x, j);
    Assemble(cur, sorted, x, j);
  }

  /** A prefix laid out as `sorted[..j]`, then `x`, then the rest of `sorted`. */
  lemma Assemble(cur: seq<Row>, sorted: seq<Row>, x: Row, j: nat)
    requires j <= |sorted| < |cur|
    requires forall k :: 0 <= k < j ==> cur[k] == sorted[k]
    requires cur[j] == x
    requires forall k :: j < k <= |sorted| ==> cur[k] == sorted[k - 1]
    ensures cur[..|sorted| + 1] == sorted[..j] + [x] + sorted[j..]
  {
    var result := sorted[..j] + [x] + sorted[j..];
    forall k | 0 <= k <= |sorted|
      ensures cur[k] == result[k]
    {
      if k > j {
        assert result[k] == sorted[j..][k - j - 1];
      }
    }
  }

  /** `rows.sort(comparator)` on the copy of `filteredData`: an insertion
      sort in place, whose result is `InsertionSort` of the old contents. */
  method SortInPlace(a: array<Row>, c: Comparator)
    modifies a
    ensures a[..] == InsertionSort(c, old(a[..]))
  {
    ghost var input := a[..];
    var i := 0;
    while i < a.Length
      invariant 0 <= i <= a.Length
      invariant a[..i] == InsertionSort(c, input[..i])
      invariant a[i..] == input[i..]
    {
      assert input[..i + 1][..i] == input[..i];
      assert a[i] == input[i];
      InsertInPlace(a, i, c);
      i := i + 1;
    }
    assert a[..] == a[..a.Length] && input == input[..a.Length];
  }
}

/** The search filter: which rows of the store a search term keeps. */
module Search {
  import opened Text
  import opened Rows

  /** The filter predicate of the search handler: the lower-cased row text
      contains the (already lower-cased) search term. */
  predicate Matches(r: Row, searchTerm: string) {
    Contains(Lower(RowText(r)), searchTerm)
  }

  /** `rows.filter(row => Matches(row, searchTerm))`: exactly the matching
      rows, never more copies than the store holds. */
  function Filter(rows: seq<Row>, searchTerm: string): (r: seq<Row>)
    ensures forall x :: x in r <==> x in rows && Matches(x, searchTerm)
    ensures multiset(r) <= multiset(rows)
    ensures |r| <= |rows|
  {
    if rows == [] then []
    else
      var init := rows[..|rows| - 1];
      var last := rows[|rows| - 1];
      assert rows == init + [last];
      var t := Filter(init, searchTerm);
      if Matches(last, searchTerm) then t + [last] else t
  }

  /** The filter keeps the rows in their original relative order. */
  lemma {:induction false} FilterIsSubsequence(rows: seq<Row>, searchTerm: string)
    ensures IsSubsequence(Filter(rows, searchTerm), rows)
  {
    if rows != [] {
      var init := rows[..|rows| - 1];
      var last := rows[|rows| - 1];
      FilterIsSubsequence(init, searchTerm);
      var t := Filter(init, searchTerm);
      if Matches(last, searchTerm) {
        assert (t + [last])[..|t|] == t;
      } else if t != [] {
        assert t[|t| - 1] in t;
      }
    }
  }

  /** An empty search term keeps every row, in the original order. */
  lemma {:induction false} FilterEmptyTerm(rows: seq<Row>)
    ensures Filter(rows, []) == rows
  {
    if rows != [] {
      var init := rows[..|rows| - 1];
      FilterEmptyTerm(init);
      ContainsEmpty(Lower(RowText(rows[|rows| - 1])));
    }
  }

  /** Filtering twice with the same term keeps what filtering once keeps. */
  lemma {:induction false} FilterIdempotent(rows: seq<Row>, searchTerm: string)
    ensures Filter(Filter(rows, searchTerm), searchTerm) == Filter(rows, searchTerm)
  {
    if rows != [] {
      var init := rows[..|rows| - 1];
      var last := rows[|rows| - 1];
      FilterIdempotent(init, searchTerm);
      var t := Filter(init, searchTerm);
      if Matches(last, searchTerm) {
        assert (t + [last])[..|t|] == t;
      }
    }
  }

  /** The search is case-insensitive in the term: terms that differ only in
      the case of their letters keep the same rows. */
  lemma SearchIgnoresTermCase(rows: seq<Row>, a: string, b: string)
    requires CaseVariants(a, b)
    ensures Filter(rows, Lower(a)) == Filter(rows, Lower(b))
  {
    LowerIgnoresCase(a, b);
  }

  /** The search is case-insensitive in the rows: two rows whose texts
      differ only in the case of their letters match the same terms. */
  lemma MatchIgnoresRowCase(x: Row, y: Row, searchTerm: string)
    requires CaseVariants(RowText(x), RowText(y))
    ensures Matches(x, searchTerm) <==> Matches(y, searchTerm)
  {
    LowerIgnoresCase(RowText(x), RowText(y));
  }
}

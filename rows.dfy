/** The row store: table rows as the engine sees them, and the
    "order-preserving subsequence" relation between row sequences. */
module Rows {

  /** One `<tr>` of the table body: an identity that survives filtering and
      sorting (the DOM element itself), and the text of its cells. */
  datatype Row = Row(id: nat, cells: seq<string>)

  /** The concatenation of a list of strings, first to last. */
  function Concat(parts: seq<string>): string {
    if parts == [] then [] else Concat(parts[..|parts| - 1]) + parts[|parts| - 1]
  }

  /** `row.textContent`: the text of all cells, left to right. */
  function RowText(r: Row): string {
    Concat(r.cells)
  }

  /** The text of the cell in column `index`; a row too short for the
      column reads as empty. */
  function Cell(r: Row, index: nat): string {
    if index < |r.cells| then r.cells[index] else ""
  }

  /** `addCheckboxesToRows` for one row: a new first cell holding only the
      checkbox, whose text is empty. */
  function WithCheckboxCell(r: Row): Row {
    Row(r.id, [""] + r.cells)
  }

  /** `addCheckboxesToRows`: every row of the store gets its checkbox cell. */
  function AddCheckboxCells(rows: seq<Row>): seq<Row> {
    seq(|rows|, i requires 0 <= i < |rows| => WithCheckboxCell(rows[i]))
  }

  /** Prepending an empty string leaves a concatenation as it was. */
  lemma {:induction false} ConcatEmptyFirst(parts: seq<string>)
    ensures Concat([""] + parts) == Concat(parts)
  {
    if parts != [] {
      var n := |parts| - 1;
      ConcatEmptyFirst(parts[..n]);
      assert ([""] + parts)[..n + 1] == [""] + parts[..n];
    }
  }

  /** The checkbox cell changes neither the text a search sees nor the
      identity of the row; it shifts every other cell one column right. */
  lemma CheckboxCellShiftsColumns(r: Row, index: nat)
    ensures RowText(WithCheckboxCell(r)) == RowText(r)
    ensures WithCheckboxCell(r).id == r.id
    ensures Cell(WithCheckboxCell(r), 0) == ""
    ensures Cell(WithCheckboxCell(r), index + 1) == Cell(r, index)
  {
    ConcatEmptyFirst(r.cells);
  }

  /** `t` is `s` with some elements left out and the rest in their order
      (matched greedily from the end). */
  predicate IsSubsequence(t: seq<Row>, s: seq<Row>)
    decreases |s|
  {
    if t == [] then true
    else if s == [] then false
    else if t[|t| - 1] == s[|s| - 1] then IsSubsequence(t[..|t| - 1], s[..|s| - 1])
    else IsSubsequence(t, s[..|s| - 1])
  }

  /** A subsequence takes each row at most as often as the original has it. */
  lemma {:induction false} SubsequenceMultiset(t: seq<Row>, s: seq<Row>)
    requires IsSubsequence(t, s)
    ensures multiset(t) <= multiset(s)
  {
    if t != [] {
      var s' := s[..|s| - 1];
      assert s == s' + [s[|s| - 1]];
      if t[|t| - 1] == s[|s| - 1] {
        SubsequenceMultiset(t[..|t| - 1], s');
        assert t == t[..|t| - 1] + [t[|t| - 1]];
      } else {
        SubsequenceMultiset(t, s');
      }
    }
  }

  /** Every sequence is a subsequence of itself. */
  lemma {:induction false} SubsequenceReflexive(s: seq<Row>)
    ensures IsSubsequence(s, s)
  {
    if s != [] {
      SubsequenceReflexive(s[..|s| - 1]);
    }
  }

  /** A subsequence of all but the last row is a subsequence of all rows. */
  lemma {:induction false} SubsequenceAfterDrop(t: seq<Row>, s: seq<Row>)
    requires s != [] && IsSubsequence(t, s[..|s| - 1])
    ensures IsSubsequence(t, s)
    decreases |s|, |t|
  {
    var s' := s[..|s| - 1];
    if t != [] && t[|t| - 1] == s[|s| - 1] {
      // Matching the last row early also works: what is left of `t` fits in `s'`.
      SubsequenceShrink(t, s');
    }
  }

  /** Dropping the last element of `t` keeps it a subsequence. */
  lemma {:induction false} SubsequenceShrink(t: seq<Row>, s: seq<Row>)
    requires t != [] && IsSubsequence(t, s)
    ensures IsSubsequence(t[..|t| - 1], s)
    decreases |s|, |t|
  {
    assert s != [];
    var s' := s[..|s| - 1];
    if t[|t| - 1] == s[|s| - 1] {
      SubsequenceAfterDrop(t[..|t| - 1], s);
    } else {
      SubsequenceShrink(t, s');
      SubsequenceAfterDrop(t[..|t| - 1], s);
    }
  }
}

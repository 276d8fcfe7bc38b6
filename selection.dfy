/** The selection tracker: which rows of the store are checked, and the
    action that runs on them. */
module Selection {
  import opened Rows

  /** The checked rows of the store, in store order (`getSelectedItems`). */
  function Selected(rows: seq<Row>, flags: seq<bool>): (r: seq<Row>)
    requires |flags| == |rows|
    ensures |r| <= |rows|
  {
    if rows == [] then []
    else
      var n := |rows| - 1;
      Selected(rows[..n], flags[..n]) + (if flags[n] then [rows[n]] else [])
  }

  /** The selection holds exactly the checked rows: every checked row is in
      it, and every row in it is a checked row of the store. */
  lemma {:induction false} SelectedExactly(rows: seq<Row>, flags: seq<bool>)
    requires |flags| == |rows|
    ensures forall i :: 0 <= i < |rows| && flags[i] ==> rows[i] in Selected(rows, flags)
    ensures forall x :: x in Selected(rows, flags) ==> exists i :: 0 <= i < |rows| && flags[i] && rows[i] == x
  {
    if rows != [] {
      var n := |rows| - 1;
      SelectedExactly(rows[..n], flags[..n]);
      forall i | 0 <= i < n && flags[i]
        ensures rows[i] in Selected(rows, flags)
      {
        assert rows[..n][i] == rows[i] && flags[..n][i] == flags[i];
      }
      forall x | x in Selected(rows, flags)
        ensures exists i :: 0 <= i < |rows| && flags[i] && rows[i] == x
      {
        if x in Selected(rows[..n], flags[..n]) {
          var i :| 0 <= i < n && flags[..n][i] && rows[..n][i] == x;
          assert flags[i] && rows[i] == x;
        } else {
          assert flags[n] && rows[n] == x;
        }
      }
    }
  }

  /** The selection keeps the store's order. */
  lemma {:induction false} SelectedIsSubsequence(rows: seq<Row>, flags: seq<bool>)
    requires |flags| == |rows|
    ensures IsSubsequence(Selected(rows, flags), rows)
  {
    if rows != [] {
      var n := |rows| - 1;
      SelectedIsSubsequence(rows[..n], flags[..n]);
      var t := Selected(rows[..n], flags[..n]);
      if flags[n] {
        assert (t + [rows[n]])[..|t|] == t;
      } else {
        assert Selected(rows, flags) == t;
        SubsequenceAfterDrop(t, rows);
      }
    }
  }

  /** With every box checked the selection is the whole store; with none
      checked it is empty. */
  lemma {:induction false} SelectedAllOrNone(rows: seq<Row>, flags: seq<bool>, v: bool)
    requires |flags| == |rows| && forall i :: 0 <= i < |flags| ==> flags[i] == v
    ensures Selected(rows, flags) == if v then rows else []
  {
    if rows != [] {
      var n := |rows| - 1;
      SelectedAllOrNone(rows[..n], flags[..n], v);
      assert rows == rows[..n] + [rows[n]];
    }
  }

  /** What `performActionOnSelected` does: call the host's callback with the
      selection, or report that nothing is selected. */
  datatype ActionOutcome = CallbackInvoked(selection: seq<Row>) | NothingSelected
}

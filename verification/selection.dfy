/** Removing the selected rows, as deleteSelectedRow does it: the selected
    indices are pushed on a stack and popped, so the last selected index is
    removed first, each removal shifting the rows after it. */
module Selection {
  import opened Cells

  /** The rows without the one at index `i` (DefaultTableModel.removeRow). */
  function RemoveAt(rows: seq<Row>, i: int): (r: seq<Row>)
    requires 0 <= i < |rows|
    ensures |r| == |rows| - 1
    ensures forall k :: 0 <= k < |r| ==> r[k] == rows[if k < i then k else k + 1]
  {
    rows[..i] + rows[i + 1..]
  }

  /** Every pop finds its index in range: the last index is below `n`, the
      one before it below `n - 1`, and so on. Java throws otherwise. */
  predicate PopsInRange(n: nat, selected: seq<int>)
    decreases |selected|
  {
    |selected| == 0 ||
    (0 <= selected[|selected| - 1] < n && n > 0 && PopsInRange(n - 1, selected[..|selected| - 1]))
  }

  /** The removals in stack order: last selected first. */
  function RemoveInReverse(rows: seq<Row>, selected: seq<int>): (r: seq<Row>)
    requires PopsInRange(|rows|, selected)
    ensures |r| == |rows| - |selected|
    ensures forall k :: 0 <= k < |r| ==> r[k] in rows
    decreases |selected|
  {
    if |selected| == 0 then rows
    else
      var last := selected[|selected| - 1];
      RemoveInReverse(RemoveAt(rows, last), selected[..|selected| - 1])
  }

  /** The rows whose indices are not in `drop`, in their order. */
  function Without(rows: seq<Row>, drop: set<int>): (r: seq<Row>)
    ensures |r| <= |rows|
    decreases |rows|
  {
    if |rows| == 0 then []
    else
      var n := |rows| - 1;
      Without(rows[..n], drop) + (if n in drop then [] else [rows[n]])
  }

  /** Without looks at the indices of the rows only. */
  lemma {:induction false} WithoutIgnoresOutside(rows: seq<Row>, d1: set<int>, d2: set<int>)
    requires forall i :: 0 <= i < |rows| ==> (i in d1 <==> i in d2)
    ensures Without(rows, d1) == Without(rows, d2)
    decreases |rows|
  {
    if |rows| > 0 {
      WithoutIgnoresOutside(rows[..|rows| - 1], d1, d2);
    }
  }

  /** Nothing dropped: every row is kept. */
  lemma {:induction false} WithoutNothing(rows: seq<Row>)
    ensures Without(rows, {}) == rows
    decreases |rows|
  {
    if |rows| > 0 {
      WithoutNothing(rows[..|rows| - 1]);
      assert rows == rows[..|rows| - 1] + [rows[|rows| - 1]];
    }
  }

  /** Removing a row that lies beyond every dropped index is the same as
      dropping it too. */
  lemma {:induction false} RemoveThenWithout(rows: seq<Row>, l: int, drop: set<int>)
    requires 0 <= l < |rows|
    requires forall i :: i in drop ==> i < l
    ensures Without(RemoveAt(rows, l), drop) == Without(rows, drop + {l})
    decreases |rows|
  {
    var n := |rows| - 1;
    var front := rows[..n];
    if l == n {
      assert RemoveAt(rows, l) == front;
      WithoutIgnoresOutside(front, drop, drop + {l});
    } else {
      var r := RemoveAt(rows, l);
      assert r[..n - 1] == RemoveAt(front, l);
      assert r[n - 1] == rows[n];
      RemoveThenWithout(front, l, drop);
      assert n - 1 !in drop;
    }
  }

  /** The selection JTable reports: strictly ascending indices of rows. */
  predicate Ascending(selected: seq<int>, n: nat)
  {
    (forall i :: 0 <= i < |selected| ==> 0 <= selected[i] < n) &&
    (forall i, j :: 0 <= i < j < |selected| ==> selected[i] < selected[j])
  }

  /** The selected indices as a set. */
  function Picked(selected: seq<int>): (r: set<int>)
    ensures forall i :: i in r <==> i in selected
  {
    set i | i in selected
  }

  /** The last selected index joins the set of the ones before it. */
  lemma PickedSnoc(selected: seq<int>)
    requires |selected| > 0
    ensures Picked(selected) == Picked(selected[..|selected| - 1]) + {selected[|selected| - 1]}
  {
    assert selected == selected[..|selected| - 1] + [selected[|selected| - 1]];
  }

  /** For an ascending selection of existing rows every pop is in range, and
      popping removes exactly the selected rows, the others keeping their
      order. */
  lemma {:induction false} RemoveAscending(rows: seq<Row>, selected: seq<int>)
    requires Ascending(selected, |rows|)
    ensures PopsInRange(|rows|, selected)
    ensures RemoveInReverse(rows, selected) == Without(rows, Picked(selected))
    decreases |selected|
  {
    if |selected| == 0 {
      WithoutNothing(rows);
      assert Picked(selected) == {};
    } else {
      var m := |selected| - 1;
      var l := selected[m];
      var front := selected[..m];
      var removed := RemoveAt(rows, l);
      assert forall i :: 0 <= i < m ==> front[i] == selected[i] && front[i] < l;
      assert Ascending(front, |removed|);
      RemoveAscending(removed, front);
      RemoveThenWithout(rows, l, Picked(front));
      PickedSnoc(selected);
    }
  }
}

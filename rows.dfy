/**
 * Row selection shared by both tables: a row is kept when it has at least a
 * minimum number of cells, and kept rows stay in document order.
 */
module Rows {

  /** The positions of the rows with at least `min` cells, ascending. */
  function KeptPositions<T>(rows: seq<seq<T>>, min: nat): (ks: seq<nat>)
    ensures forall k :: 0 <= k < |ks| ==> ks[k] < |rows| && |rows[ks[k]]| >= min
    ensures forall i, j :: 0 <= i < j < |ks| ==> ks[i] < ks[j]
    ensures forall i :: 0 <= i < |rows| && |rows[i]| >= min ==> i in ks
  {
    if rows == [] then []
    else
      var n := |rows| - 1;
      var ks := KeptPositions(rows[..n], min);
      assert forall i :: 0 <= i < n ==> rows[..n][i] == rows[i];
      ks + (if |rows[n]| < min then [] else [n])
  }
}

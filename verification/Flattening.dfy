/** Sequences of fixed-width rows laid end to end. */
module Flattening {

  function Flatten<T>(rows: seq<seq<T>>): seq<T> {
    if rows == [] then [] else Flatten(rows[..|rows| - 1]) + rows[|rows| - 1]
  }

  ghost predicate Rectangular<T>(rows: seq<seq<T>>, width: nat) {
    forall i :: 0 <= i < |rows| ==> |rows[i]| == width
  }

  lemma FlattenSnoc<T>(rows: seq<seq<T>>, row: seq<T>)
    ensures Flatten(rows + [row]) == Flatten(rows) + row
  {
    assert (rows + [row])[..|rows|] == rows;
  }

  lemma {:induction false} FlattenLength<T>(rows: seq<seq<T>>, width: nat)
    requires Rectangular(rows, width)
    ensures |Flatten(rows)| == |rows| * width
  {
    if rows != [] {
      FlattenLength(rows[..|rows| - 1], width);
      assert (|rows| - 1) * width + width == |rows| * width;
    }
  }

  lemma {:induction false} FlattenRow<T>(rows: seq<seq<T>>, width: nat, i: nat)
    requires Rectangular(rows, width) && i < |rows|
    ensures 0 <= i * width && i * width + width <= |Flatten(rows)|
    ensures Flatten(rows)[i * width..i * width + width] == rows[i]
  {
    var front := rows[..|rows| - 1];
    FlattenLength(front, width);
    FlattenLength(rows, width);
    if i < |front| {
      FlattenRow(front, width, i);
      assert Flatten(rows)[i * width..i * width + width] == Flatten(front)[i * width..i * width + width];
    } else {
      assert i == |front| && Flatten(rows)[i * width..i * width + width] == rows[i];
    }
  }
}

/** Row-major layout: facts about offsets `y * stride + k`, and rows of equal
    length laid end to end. */
module Arithmetic {

  lemma MulSucc(y: nat, stride: nat)
    ensures (y + 1) * stride == y * stride + stride
  {
  }

  lemma {:induction false} MulMono(a: nat, b: nat, stride: nat)
    requires a <= b
    ensures a * stride <= b * stride
  {
    if a < b {
      MulMono(a, b - 1, stride);
      MulSucc(b - 1, stride);
    }
  }

  /** Row `y < rows` ends within `rows * stride`. */
  lemma RowEnd(y: nat, k: nat, stride: nat, rows: nat)
    requires y < rows && k <= stride
    ensures y * stride + k <= rows * stride
  {
    MulMono(y + 1, rows, stride);
    MulSucc(y, stride);
  }

  /** The rows laid end to end. */
  function Concat<T>(rows: seq<seq<T>>): seq<T>
  {
    if rows == [] then [] else rows[0] + Concat(rows[1..])
  }

  /** In rows of `stride` elements laid end to end, element `k` of row `y` is
      at `y * stride + k`. */
  lemma {:induction false} ConcatAt<T>(rows: seq<seq<T>>, stride: nat, y: nat, k: nat)
    requires forall j :: 0 <= j < |rows| ==> |rows[j]| == stride
    requires y < |rows| && k < stride
    ensures |Concat(rows)| == |rows| * stride
    ensures y * stride + k < |Concat(rows)| && Concat(rows)[y * stride + k] == rows[y][k]
  {
    ConcatLength(rows, stride);
    assert Concat(rows) == rows[0] + Concat(rows[1..]);
    if y > 0 {
      ConcatAt(rows[1..], stride, y - 1, k);
      MulSucc(y - 1, stride);
      assert y * stride + k == stride + ((y - 1) * stride + k);
    }
  }

  lemma {:induction false} ConcatLength<T>(rows: seq<seq<T>>, stride: nat)
    requires forall j :: 0 <= j < |rows| ==> |rows[j]| == stride
    ensures |Concat(rows)| == |rows| * stride
  {
    if rows != [] {
      ConcatLength(rows[1..], stride);
      MulSucc(|rows| - 1, stride);
    }
  }
}

/** Dense numeric matrices as values: a sequence of rows. */
module Matrices {
  /** A numpy matrix read as a value: row k is m[k]. */
  type Matrix = seq<seq<real>>

  /** m has `rows` rows, each of `cols` entries. */
  predicate IsMatrix(m: Matrix, rows: nat, cols: nat)
  {
    |m| == rows && forall k :: 0 <= k < rows ==> |m[k]| == cols
  }
}

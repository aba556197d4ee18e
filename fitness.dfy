/** Shared vocabulary of the selection operators: the fitness matrix (individuals
    by objectives, higher is better), the optional result length and columns. */
module Fitness {

  datatype Option<T> = None | Some(value: T)

  /** A dense fitness matrix: at least one individual, every row as wide as the first. */
  predicate IsMatrix(f: seq<seq<real>>) {
    |f| >= 1 && forall i :: 0 <= i < |f| ==> |f[i]| == |f[0]|
  }

  /** The number of objectives M of a matrix. */
  function Width(f: seq<seq<real>>): nat
    requires IsMatrix(f)
  {
    |f[0]|
  }

  /** The length of the result: `num_to_select` when given, otherwise the population size. */
  function SelectionCount(numToSelect: Option<nat>, n: nat): nat {
    match numToSelect
    case None => n
    case Some(k) => k
  }

  /** The scores of every individual on objective j (`fitnesses[:, j]`). */
  function Column(f: seq<seq<real>>, j: nat): (col: seq<real>)
    requires IsMatrix(f) && j < Width(f)
    ensures |col| == |f| && forall i :: 0 <= i < |f| ==> col[i] == f[i][j]
  {
    seq(|f|, i requires 0 <= i < |f| => f[i][j])
  }

  /** The all-zero tolerance vector used when epsilon relaxation is off. */
  function Zeros(m: nat): (z: seq<real>)
    ensures |z| == m && forall j :: 0 <= j < m ==> z[j] == 0.0
  {
    seq(m, _ => 0.0)
  }
}

/** The pairwise distance table of the current node: row `i` holds the distances from
    row `i` to every earlier row, so the table is lower-triangular with no diagonal. */
module DistanceMatrix {
  import opened Wrappers
  import opened Errors
  import opened Library
  import opened Features
  import opened Distance
  import SD = StringDistance

  ghost predicate LowerTriangular(M: seq<seq<real>>)
  {
    forall i :: 0 <= i < |M| ==> |M[i]| == i
  }

  /** The stored distance between rows `i` and `j`, read from whichever of the two rows is
      later; a row is at distance 0 from itself. */
  function Lookup(M: seq<seq<real>>, i: nat, j: nat): real
    requires LowerTriangular(M) && i < |M| && j < |M|
  {
    if i == j then 0.0 else if j < i then M[i][j] else M[j][i]
  }

  /** Looking a pair up in either order gives the same distance. */
  lemma LookupSymmetric(M: seq<seq<real>>, i: nat, j: nat)
    requires LowerTriangular(M) && i < |M| && j < |M|
    ensures Lookup(M, i, j) == Lookup(M, j, i)
    ensures i != j ==> Lookup(M, i, j) == if j < i then M[i][j] else M[j][i]
  {
  }

  /** The feature vector of table row `i`. */
  function RowFeatures(rows: seq<seq<Cell>>, labelCol: int, included: seq<bool>, i: nat): FeatureVector
    requires i < |rows| && |rows[i]| == |included|
  {
    Extract(rows[i], labelCol, included)
  }

  ghost predicate Uniform(rows: seq<seq<Cell>>, included: seq<bool>)
  {
    forall i :: 0 <= i < |rows| ==> |rows[i]| == |included|
  }

  /** One row of the table: the distances from row `i` to rows `0..i-1`, in order, or the
      first error among them. */
  method DistancesToEarlier(lib: Library, m: SD.Method, rows: seq<seq<Cell>>, labelCol: int, included: seq<bool>, i: nat)
    returns (r: Result<seq<real>, Error>)
    requires i < |rows| && Uniform(rows, included)
    ensures r.Ok? ==> |r.value| == i && forall j :: 0 <= j < i ==>
              EuclideanDistance(lib, m, RowFeatures(rows, labelCol, included, i), RowFeatures(rows, labelCol, included, j))
              == Ok(r.value[j])
    ensures r.Err? ==>
              exists j :: 0 <= j < i &&
                EuclideanDistance(lib, m, RowFeatures(rows, labelCol, included, i), RowFeatures(rows, labelCol, included, j))
                == Err(r.error)
  {
    var a := RowFeatures(rows, labelCol, included, i);
    var values: seq<real> := [];
    var j := 0;
    while j < i
      invariant 0 <= j <= i && |values| == j
      invariant forall k :: 0 <= k < j ==>
                  EuclideanDistance(lib, m, a, RowFeatures(rows, labelCol, included, k)) == Ok(values[k])
    {
      var d := EuclideanDistance(lib, m, a, RowFeatures(rows, labelCol, included, j));
      if d.Err? {
        return Err(d.error);
      }
      values := values + [d.value];
      j := j + 1;
    }
    return Ok(values);
  }

  /** Building the table: for every row, the distances to all earlier rows, in order. The
      first pair whose distance fails (mismatched dimensions, a Hamming length mismatch)
      aborts the whole computation with that error. */
  method BuildMatrix(lib: Library, m: SD.Method, rows: seq<seq<Cell>>, labelCol: int, included: seq<bool>)
    returns (r: Result<seq<seq<real>>, Error>)
    requires Uniform(rows, included)
    ensures r.Ok? ==> |r.value| == |rows| && LowerTriangular(r.value)
    ensures r.Ok? ==> forall i, j :: 0 <= j < i < |rows| ==>
              EuclideanDistance(lib, m, RowFeatures(rows, labelCol, included, i), RowFeatures(rows, labelCol, included, j))
              == Ok(r.value[i][j])
    ensures r.Err? ==>
              exists i, j :: 0 <= j < i < |rows| &&
                EuclideanDistance(lib, m, RowFeatures(rows, labelCol, included, i), RowFeatures(rows, labelCol, included, j))
                == Err(r.error)
  {
    var M: seq<seq<real>> := [];
    var i := 0;
    while i < |rows|
      invariant 0 <= i <= |rows| && |M| == i
      invariant LowerTriangular(M)
      invariant forall i', j :: 0 <= j < i' < i ==>
                  EuclideanDistance(lib, m, RowFeatures(rows, labelCol, included, i'), RowFeatures(rows, labelCol, included, j))
                  == Ok(M[i'][j])
    {
      var values := DistancesToEarlier(lib, m, rows, labelCol, included, i);
      if values.Err? {
        return Err(values.error);
      }
      M := M + [values.value];
      i := i + 1;
    }
    return Ok(M);
  }

  /** With a lawful square root every stored distance is non-negative. */
  lemma MatrixNonNegative(lib: Library, m: SD.Method, rows: seq<seq<Cell>>, labelCol: int, included: seq<bool>,
                          M: seq<seq<real>>)
    requires LawfulSqrt(lib) && Uniform(rows, included) && |M| == |rows| && LowerTriangular(M)
    requires forall i, j :: 0 <= j < i < |rows| ==>
               EuclideanDistance(lib, m, RowFeatures(rows, labelCol, included, i), RowFeatures(rows, labelCol, included, j))
               == Ok(M[i][j])
    ensures forall i, j :: 0 <= i < |M| && 0 <= j < |M| ==> Lookup(M, i, j) >= 0.0
  {
    forall i, j | 0 <= i < |M| && 0 <= j < |M|
      ensures Lookup(M, i, j) >= 0.0
    {
      if j < i {
        assert EuclideanDistance(lib, m, RowFeatures(rows, labelCol, included, i), RowFeatures(rows, labelCol, included, j))
               == Ok(M[i][j]);
      } else if i < j {
        assert EuclideanDistance(lib, m, RowFeatures(rows, labelCol, included, j), RowFeatures(rows, labelCol, included, i))
               == Ok(M[j][i]);
      }
    }
  }
}

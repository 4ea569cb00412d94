/** The matrix helpers of InferNetHOL.CSharp.Tests/Program.cs: the two
    `GetMatrix` overloads and `GetRows`. (`GetDates` of the same file is in
    module DateGroups.) A `double[][]` is read as a sequence of rows. */
module TestsProgram {
  import opened Wrappers
  import opened Matrices

  /** `GetMatrix(IEnumerable<IEnumerable<double>>)`: each row copied to an
      array, rows and entries in their order. */
  function CopyRows<E>(source: seq<seq<E>>): (r: seq<seq<E>>)
    ensures r == source
  {
    seq(|source|, i requires 0 <= i < |source| => source[i][..])
  }

  /** `GetMatrix(double[][])`: a `source.Length × source[0].Length` array with
      `result[x, y] == source[x][y]`, so each row is cut to the first row's
      length. `source[0]` on an empty source, and `source[x][y]` on a row
      shorter than the first, throw `IndexOutOfRangeException`. */
  method GetMatrix<E(0)>(source: seq<seq<E>>) returns (r: Result<array2<E>>)
    ensures r.Failure? <==> !CoversFirstRow(source)
    ensures r.Failure? ==> r.error == IndexOutOfRange
    ensures r.Success? ==> fresh(r.value) && r.value.Length0 == |source| && r.value.Length1 == |source[0]|
    ensures r.Success? ==> Matrix(r.value) == Truncated(source)
  {
    if |source| == 0 {
      return Failure(IndexOutOfRange);
    }
    var result := new E[|source|, |source[0]|];
    var x := 0;
    while x < result.Length0
      invariant 0 <= x <= result.Length0
      invariant forall i :: 0 <= i < x ==> |source[0]| <= |source[i]|
      invariant forall i, j :: 0 <= i < x && 0 <= j < result.Length1 ==> result[i, j] == source[i][j]
    {
      var y := 0;
      while y < result.Length1
        invariant 0 <= y <= result.Length1
        invariant y <= |source[x]|
        invariant forall i, j :: 0 <= i < x && 0 <= j < result.Length1 ==> result[i, j] == source[i][j]
        invariant forall j :: 0 <= j < y ==> result[x, j] == source[x][j]
      {
        if y >= |source[x]| {
          return Failure(IndexOutOfRange);
        }
        result[x, y] := source[x][y];
        y := y + 1;
      }
      x := x + 1;
    }
    MatrixEquals(result, Truncated(source));
    return Success(result);
  }

  /** `GetRows(source)`: `source[0].Length` rows, row `r` holding entry `r` of
      every row of `source`: the transpose. `source[0]` on an empty source,
      and `source[c][r]` on a row `c` shorter than the first, throw. */
  method GetRows<E(0)>(source: seq<seq<E>>) returns (r: Result<seq<seq<E>>>)
    ensures r.Failure? <==> !CoversFirstRow(source)
    ensures r.Failure? ==> r.error == IndexOutOfRange
    ensures r.Success? ==> r.value == Transpose(source)
  {
    if |source| == 0 {
      return Failure(IndexOutOfRange);
    }
    var cols := |source|;
    var rows := |source[0]|;
    var out: seq<seq<E>> := [];
    var row := 0;
    while row < rows
      invariant 0 <= row <= rows
      invariant forall c :: 0 <= c < cols ==> row <= |source[c]|
      invariant |out| == row
      invariant forall k :: 0 <= k < row ==> out[k] == Column(source, k)
    {
      var result := new E[cols];
      var c := 0;
      while c < cols
        invariant 0 <= c <= cols
        invariant forall i :: 0 <= i < c ==> row < |source[i]| && result[i] == source[i][row]
      {
        if row >= |source[c]| {
          return Failure(IndexOutOfRange);
        }
        result[c] := source[c][row];
        c := c + 1;
      }
      out := out + [result[..]];
      row := row + 1;
    }
    return Success(out);
  }
}

/** Jagged matrices (`double[][]`, `float[][]`) as sequences of rows, and the
    value-level specifications that the array-filling loops of
    InferNetHOL.CSharp.Tests/Program.cs and
    InferNetHOL.Clustering/Views/ILGraphView.xaml.cs are proved against.
    Elements are of an arbitrary type: they are only copied. */
module Matrices {

  /** `source[0]` exists and no row is shorter than it, so `source[y][x]`
      exists for every row `y` and every `x < |source[0]|`. */
  predicate CoversFirstRow<E>(source: seq<seq<E>>) {
    |source| > 0 && forall y :: 0 <= y < |source| ==> |source[0]| <= |source[y]|
  }

  /** Every row has the length of the first. */
  predicate Rectangular<E>(source: seq<seq<E>>) {
    |source| > 0 && forall y :: 0 <= y < |source| ==> |source[y]| == |source[0]|
  }

  /** Entry `x` of every row, in row order. */
  function Column<E>(source: seq<seq<E>>, x: nat): (r: seq<E>)
    requires forall y :: 0 <= y < |source| ==> x < |source[y]|
    ensures |r| == |source|
    ensures forall y :: 0 <= y < |source| ==> r[y] == source[y][x]
  {
    seq(|source|, y requires 0 <= y < |source| => source[y][x])
  }

  /** The columns of `source`, as far as the first row reaches, read as rows. */
  function Transpose<E>(source: seq<seq<E>>): (r: seq<seq<E>>)
    requires CoversFirstRow(source)
    ensures |r| == |source[0]|
    ensures forall x :: 0 <= x < |r| ==> r[x] == Column(source, x)
  {
    seq(|source[0]|, x requires 0 <= x < |source[0]| => Column(source, x))
  }

  /** Every row cut to the length of the first. */
  function Truncated<E>(source: seq<seq<E>>): (r: seq<seq<E>>)
    requires CoversFirstRow(source)
    ensures |r| == |source|
    ensures forall y :: 0 <= y < |r| ==> r[y] == source[y][..|source[0]|]
  {
    seq(|source|, y requires 0 <= y < |source| => source[y][..|source[0]|])
  }

  /** On rectangular input cutting changes nothing. */
  lemma TruncatedRectangular<E>(source: seq<seq<E>>)
    requires Rectangular(source)
    ensures CoversFirstRow(source) && Truncated(source) == source
  {
    var t := Truncated(source);
    forall y | 0 <= y < |source| ensures t[y] == source[y] {
      assert source[y][..|source[0]|] == source[y];
    }
  }

  /** The transpose of any input with a non-empty first row is rectangular,
      and transposing it back gives the input cut to its first row. */
  lemma TransposeTwice<E>(source: seq<seq<E>>)
    requires CoversFirstRow(source) && |source[0]| > 0
    ensures Rectangular(Transpose(source))
    ensures Transpose(Transpose(source)) == Truncated(source)
  {
    var t := Transpose(source);
    assert |t[0]| == |source|;
    var tt := Transpose(t);
    assert |tt| == |source|;
    forall y | 0 <= y < |source| ensures tt[y] == Truncated(source)[y] {
      assert tt[y] == Column(t, y);
      forall x | 0 <= x < |source[0]| ensures tt[y][x] == source[y][x] {
        assert t[x] == Column(source, x);
      }
    }
  }

  /** On rectangular input with non-empty rows, transposing twice is the identity. */
  lemma TransposeTwiceRectangular<E>(source: seq<seq<E>>)
    requires Rectangular(source) && |source[0]| > 0
    ensures CoversFirstRow(Transpose(source)) && Transpose(Transpose(source)) == source
  {
    TransposeTwice(source);
    TruncatedRectangular(source);
  }

  /** The rows of a 2-D array. */
  ghost function Matrix<E>(a: array2<E>): (r: seq<seq<E>>)
    reads a
    ensures |r| == a.Length0
    ensures forall x :: 0 <= x < a.Length0 ==> |r[x]| == a.Length1
  {
    seq(a.Length0, x requires 0 <= x < a.Length0 reads a =>
      seq(a.Length1, y requires 0 <= y < a.Length1 reads a => a[x, y]))
  }

  /** Two arrays of the given shape hold the same rows. */
  lemma MatrixEquals<E>(a: array2<E>, m: seq<seq<E>>)
    requires |m| == a.Length0
    requires forall x :: 0 <= x < |m| ==> |m[x]| == a.Length1
    requires forall x, y :: 0 <= x < a.Length0 && 0 <= y < a.Length1 ==> a[x, y] == m[x][y]
    ensures Matrix(a) == m
  {
    forall x | 0 <= x < |m| ensures Matrix(a)[x] == m[x] {
    }
  }
}

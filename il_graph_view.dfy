/** The data side of InferNetHOL.Clustering/Views/ILGraphView.xaml.cs: which
    series `Display` draws, in which colour, and the point positions it hands
    to the plot, built by the transposing `GetMatrix`. The cast of each
    coordinate to `float` is a parameter. */
module ILGraphViews {
  import opened Wrappers
  import opened Sequences
  import opened Matrices
  import opened Charting

  /** The colours of `PlotColors`, by name. */
  datatype PlotColor = Blue | Red | Violet | Brown | Green | Gold | Olive

  const PlotColors: seq<PlotColor> := [Blue, Red, Violet, Brown, Green, Gold, Olive]

  /** `i % (PlotColors.Length - 1)`. */
  function ColorIndex(i: nat): (k: nat)
    ensures k < |PlotColors| - 1
    ensures i < |PlotColors| - 1 ==> k == i
  {
    i % (|PlotColors| - 1)
  }

  /** The modulus is one short, so the last colour is never chosen, and the
      colours repeat every six series. */
  lemma NeverOlive(i: nat)
    ensures PlotColors[ColorIndex(i)] != Olive
    ensures PlotColors[ColorIndex(i + 6)] == PlotColors[ColorIndex(i)]
  {
  }

  /** `GetMatrix(source)`: a `source[0].Length × source.Length` array with
      `result[x, y] == source[y][x]`, the transpose. `source[0]` on an empty
      source, and `source[y][x]` on a row shorter than the first, throw
      `IndexOutOfRangeException`. */
  method GetMatrix<F(0)>(source: seq<seq<F>>) returns (r: Result<array2<F>>)
    ensures r.Failure? <==> !CoversFirstRow(source)
    ensures r.Failure? ==> r.error == IndexOutOfRange
    ensures r.Success? ==> fresh(r.value) && r.value.Length0 == |source[0]| && r.value.Length1 == |source|
    ensures r.Success? ==> Matrix(r.value) == Transpose(source)
  {
    if |source| == 0 {
      return Failure(IndexOutOfRange);
    }
    var result := new F[|source[0]|, |source|];
    var x := 0;
    while x < result.Length0
      invariant 0 <= x <= result.Length0
      invariant forall y :: 0 <= y < |source| ==> x <= |source[y]|
      invariant forall i, j :: 0 <= i < x && 0 <= j < result.Length1 ==> result[i, j] == source[j][i]
    {
      var y := 0;
      while y < result.Length1
        invariant 0 <= y <= result.Length1
        invariant forall j :: 0 <= j < y ==> x < |source[j]| && result[x, j] == source[j][x]
        invariant forall i, j :: 0 <= i < x && 0 <= j < result.Length1 ==> result[i, j] == source[j][i]
      {
        if x >= |source[y]| {
          return Failure(IndexOutOfRange);
        }
        result[x, y] := source[y][x];
        y := y + 1;
      }
      x := x + 1;
    }
    MatrixEquals(result, Transpose(source));
    return Success(result);
  }

  /** The three rows `Display` passes to `GetMatrix` for a series: the cast
      first coordinates, the cast second coordinates, and zeros. */
  function Coordinates<E, F>(points: seq<(E, E)>, cast: E -> F, zero: F): (r: seq<seq<F>>)
    ensures |r| == 3 && Rectangular(r) && CoversFirstRow(r) && |r[0]| == |points|
    ensures forall k :: 0 <= k < |points| ==> r[0][k] == cast(points[k].0) && r[1][k] == cast(points[k].1) && r[2][k] == zero
  {
    [seq(|points|, k requires 0 <= k < |points| => cast(points[k].0)),
     seq(|points|, k requires 0 <= k < |points| => cast(points[k].1)),
     seq(|points|, _ => zero)]
  }

  /** Row `k` of the transposed coordinates is the position of point `k`
      in the plane `z = 0`. */
  lemma PointPositions<E, F>(points: seq<(E, E)>, cast: E -> F, zero: F, k: nat)
    requires k < |points|
    ensures |Transpose(Coordinates(points, cast, zero))| == |points|
    ensures Transpose(Coordinates(points, cast, zero))[k] == [cast(points[k].0), cast(points[k].1), zero]
  {
    var c := Coordinates(points, cast, zero);
    assert Transpose(c)[k] == Column(c, k);
  }

  /** `count > 0`: a series with points. */
  predicate HasPoints<T>(s: LabelledSeries<T>) {
    |s.Series| > 0
  }

  /** An `ILPoints` inside its `ILPlotCube`. */
  datatype PlotCube<F> = PlotCube(Positions: array2<F>, Color: PlotColor)

  /** `cubes` draw the series at `shown`, one cube per index, in order: the
      colour chosen by the index, and the transposed coordinates. */
  ghost predicate Draws<E, F>(cubes: seq<PlotCube<F>>, series: seq<LabelledSeries<(E, E)>>, shown: seq<nat>, cast: E -> F, zero: F)
    reads set k | 0 <= k < |cubes| :: cubes[k].Positions
  {
    |cubes| == |shown| &&
    forall k :: 0 <= k < |cubes| ==>
      shown[k] < |series| &&
      cubes[k].Color == PlotColors[ColorIndex(shown[k])] &&
      Matrix(cubes[k].Positions) == Transpose(Coordinates(series[shown[k]].Series, cast, zero))
  }

  /** Drawing one more series keeps the earlier cubes. */
  lemma DrawsSnoc<E, F>(cubes: seq<PlotCube<F>>, cube: PlotCube<F>, series: seq<LabelledSeries<(E, E)>>, shown: seq<nat>, i: nat, cast: E -> F, zero: F)
    requires Draws(cubes, series, shown, cast, zero)
    requires i < |series| && cube.Color == PlotColors[ColorIndex(i)]
    requires Matrix(cube.Positions) == Transpose(Coordinates(series[i].Series, cast, zero))
    ensures Draws(cubes + [cube], series, shown + [i], cast, zero)
  {
    var c, s := cubes + [cube], shown + [i];
    forall k | 0 <= k < |c|
      ensures s[k] < |series| && c[k].Color == PlotColors[ColorIndex(s[k])]
      ensures Matrix(c[k].Positions) == Transpose(Coordinates(series[s[k]].Series, cast, zero))
    {
      if k < |cubes| {
        assert c[k] == cubes[k] && s[k] == shown[k];
      }
    }
  }

  /** Lines 74-81 of `Display`: the cube of one series with points. */
  method PlotCubeOf<E, F(0)>(points: seq<(E, E)>, color: PlotColor, cast: E -> F, zero: F) returns (cube: PlotCube<F>)
    requires |points| > 0
    ensures fresh(cube.Positions) && cube.Color == color
    ensures Matrix(cube.Positions) == Transpose(Coordinates(points, cast, zero))
  {
    var positions := GetMatrix(Coordinates(points, cast, zero));
    cube := PlotCube(positions.value, color);
  }

  /** One iteration of the loop of `Display`: series `i` gets a cube when it
      has points, in the colour of its index. */
  method DrawSeries<E, F(0)>(scene: seq<PlotCube<F>>, series: seq<LabelledSeries<(E, E)>>, i: nat, cast: E -> F, zero: F)
    returns (next: seq<PlotCube<F>>)
    requires i < |series|
    requires Draws(scene, series, IndicesWhere(series[..i], HasPoints), cast, zero)
    ensures Draws(next, series, IndicesWhere(series[..i + 1], HasPoints), cast, zero)
    ensures |scene| <= |next| && next[..|scene|] == scene
    ensures forall k :: |scene| <= k < |next| ==> fresh(next[k].Positions)
  {
    IndicesWhereSnoc(series, HasPoints, i);
    var item := series[i];
    var plotColor := PlotColors[ColorIndex(i)];
    next := scene;
    if |item.Series| > 0 {
      var cube := PlotCubeOf(item.Series, plotColor, cast, zero);
      DrawsSnoc(scene, cube, series, IndicesWhere(series[..i], HasPoints), i, cast, zero);
      next := scene + [cube];
    }
  }

  class ILGraphView<F(0)> {
    /** The plot cubes of `plotter.Scene`. */
    var Scene: seq<PlotCube<F>>

    /** `Display(dataSeries)`: nothing changes when the array is null;
        otherwise the scene holds one cube for every series with points, in
        order, coloured by the series' index. */
    method Display<E>(dataSeries: Option<seq<LabelledSeries<(E, E)>>>, cast: E -> F, zero: F)
      modifies this`Scene
      ensures dataSeries.None? ==> Scene == old(Scene)
      ensures dataSeries.Some? ==> Draws(Scene, dataSeries.value, IndicesWhere(dataSeries.value, HasPoints), cast, zero)
      ensures dataSeries.Some? ==> forall k :: 0 <= k < |Scene| ==> fresh(Scene[k].Positions)
    {
      if dataSeries.None? {
        return;
      }
      var series := dataSeries.value;
      var scene: seq<PlotCube<F>> := [];
      for i := 0 to |series|
        invariant Draws(scene, series, IndicesWhere(series[..i], HasPoints), cast, zero)
        invariant forall k :: 0 <= k < |scene| ==> fresh(scene[k].Positions)
      {
        scene := DrawSeries(scene, series, i, cast, zero);
      }
      assert series[..|series|] == series;
      Scene := scene;
    }
  }
}

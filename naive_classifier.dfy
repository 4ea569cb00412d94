/** The feature vectors of InferNetHOL.CSharp/NaiveClassifier.cs: a colour as
    its three channel values, a shape as a one-hot block of ten, and a size,
    joined into one vector of 14 entries. The values are small integers, so
    `double` is modelled by `real` without rounding. */
module NaiveClassifier {
  import opened Wrappers
  import opened Sequences

  /** The `Shapes` enum, in declaration order. */
  datatype Shape = Rectangle | Circle | Star | Ring | Arrow | Triangle | Ellipse | Trapezium | Diamond | Crescent

  /** The number of members of `Shapes`, and the length of `GetShapeAttributeArray`. */
  const ShapeCount: nat := 10

  /** `(int)shape`: members without explicit values count up from 0. */
  function Ordinal(s: Shape): (k: nat)
    ensures k < ShapeCount
  {
    match s
    case Rectangle => 0
    case Circle => 1
    case Star => 2
    case Ring => 3
    case Arrow => 4
    case Triangle => 5
    case Ellipse => 6
    case Trapezium => 7
    case Diamond => 8
    case Crescent => 9
  }

  /** `(Shapes)k`, for the values that name a member. */
  function ShapeOf(k: nat): (r: Option<Shape>)
    ensures r.Some? <==> k < ShapeCount
  {
    if k == 0 then Some(Rectangle)
    else if k == 1 then Some(Circle)
    else if k == 2 then Some(Star)
    else if k == 3 then Some(Ring)
    else if k == 4 then Some(Arrow)
    else if k == 5 then Some(Triangle)
    else if k == 6 then Some(Ellipse)
    else if k == 7 then Some(Trapezium)
    else if k == 8 then Some(Diamond)
    else if k == 9 then Some(Crescent)
    else None
  }

  /** Every member has its own value, and every value below ten names one. */
  lemma OrdinalRoundTrip(s: Shape, k: nat)
    ensures ShapeOf(Ordinal(s)) == Some(s)
    ensures k < ShapeCount ==> Ordinal(ShapeOf(k).value) == k
  {
  }

  newtype byte = x: int | 0 <= x < 256

  /** A colour's channels (`Color.R`, `Color.G`, `Color.B` are bytes). */
  datatype Color = Color(R: byte, G: byte, B: byte)

  /** `GetColorAttributeArray(color)`: `[R, G, B]`. */
  function ColorAttributes(c: Color): (r: seq<real>)
    ensures |r| == 3
  {
    [c.R as real, c.G as real, c.B as real]
  }

  /** A channel value read back, if it is a whole number in byte range. */
  function ChannelOf(v: real): Option<byte> {
    if v == v.Floor as real && 0 <= v.Floor < 256 then Some(v.Floor as byte) else None
  }

  /** The colour that three attribute values stand for. */
  function ColorOf(a: seq<real>): Option<Color> {
    if |a| != 3 then None
    else
      match (ChannelOf(a[0]), ChannelOf(a[1]), ChannelOf(a[2]))
      case (Some(r), Some(g), Some(b)) => Some(Color(r, g, b))
      case _ => None
  }

  /** The three attributes determine the colour. */
  lemma ColorRoundTrip(c: Color)
    ensures ColorOf(ColorAttributes(c)) == Some(c)
  {
    var a := ColorAttributes(c);
    assert (c.R as int as real).Floor == c.R as int;
    assert (c.G as int as real).Floor == c.G as int;
    assert (c.B as int as real).Floor == c.B as int;
    assert ChannelOf(a[0]) == Some(c.R);
    assert ChannelOf(a[1]) == Some(c.G);
    assert ChannelOf(a[2]) == Some(c.B);
  }

  /** `n` entries, 1 at index `k` and 0 everywhere else. */
  function OneHot(k: nat, n: nat): (r: seq<real>)
    ensures |r| == n
    ensures forall i :: 0 <= i < n ==> (r[i] == 1.0 <==> i == k)
    ensures forall i :: 0 <= i < n && i != k ==> r[i] == 0.0
  {
    seq(n, i requires 0 <= i < n => if i == k then 1.0 else 0.0)
  }

  /** `GetShapeAttributeArray(shape)`: a fresh array of ten zeros with a 1 at
      `(int)shape`. */
  method GetShapeAttributeArray(shape: Shape) returns (result: array<real>)
    ensures fresh(result)
    ensures result[..] == OneHot(Ordinal(shape), ShapeCount)
  {
    result := new real[ShapeCount](_ => 0.0);
    result[Ordinal(shape)] := 1.0;
    assert result[..] == OneHot(Ordinal(shape), ShapeCount);
  }

  /** The index of the first entry equal to 1, or -1 when there is none. */
  function FirstOne(v: seq<real>): (k: int)
    ensures -1 <= k < |v|
    ensures k >= 0 ==> v[k] == 1.0 && forall i :: 0 <= i < k ==> v[i] != 1.0
    ensures k == -1 ==> forall i :: 0 <= i < |v| ==> v[i] != 1.0
  {
    if |v| == 0 then -1
    else if v[0] == 1.0 then 0
    else
      var k := FirstOne(v[1..]);
      if k < 0 then -1 else k + 1
  }

  /** The shape that a block of shape attributes stands for. */
  function ShapeOfAttributes(v: seq<real>): Option<Shape> {
    if |v| != ShapeCount || FirstOne(v) < 0 then None else ShapeOf(FirstOne(v))
  }

  /** The one-hot block determines the shape, so distinct shapes give
      distinct blocks. */
  lemma ShapeAttributesRoundTrip(s: Shape, t: Shape)
    ensures ShapeOfAttributes(OneHot(Ordinal(s), ShapeCount)) == Some(s)
    ensures s != t ==> OneHot(Ordinal(s), ShapeCount) != OneHot(Ordinal(t), ShapeCount)
  {
    var v := OneHot(Ordinal(s), ShapeCount);
    assert v[Ordinal(s)] == 1.0;
    assert FirstOne(v) == Ordinal(s);
    OrdinalRoundTrip(s, 0);
    if s != t {
      OrdinalRoundTrip(t, 0);
      assert OneHot(Ordinal(t), ShapeCount)[Ordinal(s)] == 0.0;
    }
  }

  /** `JoinArrays(source)`: the arrays one after another, as `List.AddRange`
      appends them. */
  method JoinArrays(source: seq<seq<real>>) returns (r: seq<real>)
    ensures r == Flatten(source)
  {
    r := [];
    var i := 0;
    while i < |source|
      invariant 0 <= i <= |source|
      invariant r == Flatten(source[..i])
    {
      assert source[..i + 1][..i] == source[..i];
      r := r + source[i];
      i := i + 1;
    }
    assert source[..i] == source;
  }

  /** The vector `Run` builds for one sample:
      `JoinArrays(GetColorAttributeArray(c), GetShapeAttributeArray(s), new double[] { size })`. */
  function FeatureVector(c: Color, s: Shape, size: real): seq<real> {
    Flatten([ColorAttributes(c), OneHot(Ordinal(s), ShapeCount), [size]])
  }

  /** A feature vector has 3 + 10 + 1 entries: the colour, the shape block
      and the size, in that order. */
  lemma FeatureVectorLayout(c: Color, s: Shape, size: real)
    ensures |FeatureVector(c, s, size)| == 14
    ensures FeatureVector(c, s, size)[..3] == ColorAttributes(c)
    ensures FeatureVector(c, s, size)[3..13] == OneHot(Ordinal(s), ShapeCount)
    ensures FeatureVector(c, s, size)[13] == size
  {
    var parts := [ColorAttributes(c), OneHot(Ordinal(s), ShapeCount), [size]];
    assert parts[..2][..1] == [ColorAttributes(c)];
    assert Flatten(parts[..2][..1]) == Flatten([]) + ColorAttributes(c);
    assert parts[..2] == [ColorAttributes(c), OneHot(Ordinal(s), ShapeCount)];
    assert Flatten(parts) == ColorAttributes(c) + OneHot(Ordinal(s), ShapeCount) + [size];
  }

  /** The sample a feature vector stands for. */
  function SampleOf(v: seq<real>): Option<(Color, Shape, real)> {
    if |v| != 14 then None
    else
      match (ColorOf(v[..3]), ShapeOfAttributes(v[3..13]))
      case (Some(c), Some(s)) => Some((c, s, v[13]))
      case _ => None
  }

  /** A feature vector determines its colour, shape and size. */
  lemma FeatureVectorRoundTrip(c: Color, s: Shape, size: real)
    ensures SampleOf(FeatureVector(c, s, size)) == Some((c, s, size))
  {
    FeatureVectorLayout(c, s, size);
    ColorRoundTrip(c);
    ShapeAttributesRoundTrip(s, s);
  }

  /** The colours `Run` names. Their channel values come from the drawing
      library, so `Run` is modelled for any palette. */
  datatype ColorName = Blue | Red | Green | Yellow

  /** The sixteen training samples of `Run`: colour, shape and size. */
  const TrainingSamples: seq<(ColorName, Shape, real)> := [
    (Blue, Rectangle, 10.0), (Red, Rectangle, 10.0), (Blue, Star, 10.0), (Blue, Ring, 15.0),
    (Green, Circle, 10.0), (Yellow, Circle, 10.0), (Yellow, Circle, 10.0), (Blue, Rectangle, 15.0),
    (Yellow, Star, 10.0), (Red, Arrow, 10.0), (Green, Trapezium, 15.0), (Green, Diamond, 15.0),
    (Yellow, Triangle, 15.0), (Red, Ring, 15.0), (Yellow, Circle, 15.0), (Red, Ellipse, 15.0)]

  /** The labels of the training samples: the first eight are positive. */
  const TrainingOutputs: seq<bool> := [
    true, true, true, true, true, true, true, true,
    false, false, false, false, false, false, false, false]

  /** The sample `Run` classifies after training. */
  const TestSample: (ColorName, Shape, real) := (Red, Trapezium, 15.0)

  /** The vector of one sample under a palette. */
  function SampleVector(palette: ColorName -> Color, sample: (ColorName, Shape, real)): seq<real> {
    FeatureVector(palette(sample.0), sample.1, sample.2)
  }

  /** `inputs` of `Run`: one vector per training sample, in order, each of
      14 entries and each reading back as its sample. */
  function TrainingInputs(palette: ColorName -> Color): (r: seq<seq<real>>)
    ensures |r| == |TrainingSamples|
    ensures forall i :: 0 <= i < |r| ==> r[i] == SampleVector(palette, TrainingSamples[i])
    ensures forall i :: 0 <= i < |r| ==> |r[i]| == 14
    ensures forall i :: 0 <= i < |r| ==>
      SampleOf(r[i]) == Some((palette(TrainingSamples[i].0), TrainingSamples[i].1, TrainingSamples[i].2))
  {
    var r := seq(|TrainingSamples|, i requires 0 <= i < |TrainingSamples| => SampleVector(palette, TrainingSamples[i]));
    assert forall i :: 0 <= i < |r| ==>
      |r[i]| == 14 && SampleOf(r[i]) == Some((palette(TrainingSamples[i].0), TrainingSamples[i].1, TrainingSamples[i].2)) by {
      forall i | 0 <= i < |r|
        ensures |r[i]| == 14
        ensures SampleOf(r[i]) == Some((palette(TrainingSamples[i].0), TrainingSamples[i].1, TrainingSamples[i].2))
      {
        var t := TrainingSamples[i];
        FeatureVectorLayout(palette(t.0), t.1, t.2);
        FeatureVectorRoundTrip(palette(t.0), t.1, t.2);
      }
    }
    r
  }

  /** There is one label per training vector, and every training vector and
      the test vector have the 14 entries the weight vector is sized by
      (`inputs.First().Length`). */
  lemma RunShapes(palette: ColorName -> Color)
    ensures |TrainingInputs(palette)| == |TrainingOutputs| == 16
    ensures forall i :: 0 <= i < 16 ==> |TrainingInputs(palette)[i]| == 14
    ensures |SampleVector(palette, TestSample)| == 14
  {
    var inputs := TrainingInputs(palette);
    forall i | 0 <= i < 16 ensures |inputs[i]| == 14 {
      var t := TrainingSamples[i];
      FeatureVectorLayout(palette(t.0), t.1, t.2);
    }
    FeatureVectorLayout(palette(TestSample.0), TestSample.1, TestSample.2);
  }
}

/**
  The plane of best fit through the colour table (mycota/colour_picker.py), over the
  reals: the check of the least-squares result, the 40 by 40 grid of colours on the
  plane with its out-of-range mask, and the projection of every colour onto the plane
  along the plane's normal, with the `#rrggbb` strings of the projected colours.
*/
module Plane {
  import opened Wrappers
  import opened Colours

  datatype Vec3 = Vec3(r: real, g: real, b: real)

  function Add(u: Vec3, v: Vec3): Vec3 {
    Vec3(u.r + v.r, u.g + v.g, u.b + v.b)
  }

  function Sub(u: Vec3, v: Vec3): Vec3 {
    Vec3(u.r - v.r, u.g - v.g, u.b - v.b)
  }

  function Scale(k: real, v: Vec3): Vec3 {
    Vec3(k * v.r, k * v.g, k * v.b)
  }

  /** `w / d` for a vector w and a non-zero scalar d. */
  function Div(v: Vec3, d: real): Vec3
    requires d != 0.0
  {
    Vec3(v.r / d, v.g / d, v.b / d)
  }

  function Dot(u: Vec3, v: Vec3): real {
    u.r * v.r + u.g * v.g + u.b * v.b
  }

  function ToVec(t: Triple): Vec3 {
    Vec3(t.red as real, t.green as real, t.blue as real)
  }

  /** What `np.linalg.lstsq` returns: solution, residual sums, rank and singular values. */
  datatype Lstsq = Lstsq(solution: Vec3, residuals: seq<real>, rank: int, singular: seq<real>)

  datatype FitError =
    | UnpackError(count: nat)  // `(residual,)` needs exactly one residual
    | DeficientRank(rank: int) // `ValueError(f'Deficient rank {rank}')`

  /**
    The unpacking of the least-squares result and the rank check: the fitted plane is
    used only when there is one residual and the rank is 3.
  */
  function CheckFit(fit: Lstsq): (r: Result<Vec3, FitError>)
    ensures r.Success? <==> |fit.residuals| == 1 && fit.rank == 3
    ensures r.Success? ==> r.value == fit.solution
    ensures |fit.residuals| != 1 ==> r == Failure(UnpackError(|fit.residuals|))
    ensures |fit.residuals| == 1 && fit.rank != 3 ==> r == Failure(DeficientRank(fit.rank))
  {
    if |fit.residuals| != 1 then Failure(UnpackError(|fit.residuals|))
    else if fit.rank != 3 then Failure(DeficientRank(fit.rank))
    else Success(fit.solution)
  }

  // The grid of colours on the plane.

  const GridSize := 40

  /** `np.linspace(start=0, stop=255, num=40)[k]`: evenly spaced from 0 to 255. */
  function Channel(k: int): (x: real)
    requires 0 <= k < GridSize
    ensures 0.0 <= x <= 255.0
    ensures k == 0 ==> x == 0.0
    ensures k == GridSize - 1 ==> x == 255.0
  {
    255.0 * (k as real) / 39.0
  }

  /** Neighbouring channel values are 255/39 apart. */
  lemma ChannelEvenlySpaced(k: int)
    requires 0 <= k && k + 1 < GridSize
    ensures Channel(k + 1) - Channel(k) == 255.0 / 39.0
  {
  }

  /** `255/plane[0] - (g, b) @ (plane[1:]/plane[0])`: the red that puts (red, g, b) on the plane. */
  function SolveRed(p: Vec3, g: real, b: real): (red: real)
    requires p.r != 0.0
    ensures red * p.r == 255.0 - g * p.g - b * p.b
  {
    var red := 255.0 / p.r - (g * (p.g / p.r) + b * (p.b / p.r));
    calc {
      red * p.r;
      (255.0 / p.r) * p.r - (g * (p.g / p.r)) * p.r - (b * (p.b / p.r)) * p.r;
      { assert (255.0 / p.r) * p.r == 255.0;
        assert (g * (p.g / p.r)) * p.r == g * p.g;
        assert (b * (p.b / p.r)) * p.r == b * p.b; }
      255.0 - g * p.g - b * p.b;
    }
    red
  }

  /** Solving for red puts the point on the plane. */
  lemma SolveRedOnPlane(p: Vec3, g: real, b: real)
    requires p.r != 0.0
    ensures Dot(Vec3(SolveRed(p, g, b), g, b), p) == 255.0
  {
  }

  /**
    Cell [i, j] of `rgb_float` before the mask: `meshgrid` puts channel j in green and
    channel i in blue, and red is solved from the plane. Every cell lies on the plane.
  */
  function GridCell(p: Vec3, i: int, j: int): (c: Vec3)
    requires p.r != 0.0 && 0 <= i < GridSize && 0 <= j < GridSize
    ensures c.g == Channel(j) && c.b == Channel(i)
    ensures Dot(c, p) == 255.0
  {
    SolveRedOnPlane(p, Channel(j), Channel(i));
    Vec3(SolveRed(p, Channel(j), Channel(i)), Channel(j), Channel(i))
  }

  predicate AnyAbove255(c: Vec3) {
    c.r > 255.0 || c.g > 255.0 || c.b > 255.0
  }

  /** Line 51 on one cell: a cell with a channel above 255 becomes NaN (None); a NaN cell stays NaN. */
  function Masked(c: Option<Vec3>): (m: Option<Vec3>)
    ensures m.None? <==> c.None? || AnyAbove255(c.value)
    ensures m.Some? ==> m == c
  {
    if c.Some? && AnyAbove255(c.value) then None else c
  }

  const Grey := Vec3(100.0, 100.0, 100.0)

  /** `np.nan_to_num(..., nan=100)` on one cell. */
  function Shade(c: Option<Vec3>): (v: Vec3)
    ensures c.None? ==> v == Grey
    ensures c.Some? ==> v == c.value
  {
    if c.None? then Grey else c.value
  }

  /** `rgb_float[(rgb_float > 255).any(axis=-1)] = np.nan`, in place. */
  method MaskOverRange(a: array2<Option<Vec3>>)
    modifies a
    ensures forall i, j | 0 <= i < a.Length0 && 0 <= j < a.Length1 :: a[i, j] == Masked(old(a[i, j]))
  {
    var i := 0;
    while i < a.Length0
      invariant 0 <= i <= a.Length0
      invariant forall i', j | 0 <= i' < i && 0 <= j < a.Length1 :: a[i', j] == Masked(old(a[i', j]))
      invariant forall i', j | i <= i' < a.Length0 && 0 <= j < a.Length1 :: a[i', j] == old(a[i', j])
    {
      var j := 0;
      while j < a.Length1
        invariant 0 <= j <= a.Length1
        invariant forall i', j' | 0 <= i' < i && 0 <= j' < a.Length1 :: a[i', j'] == Masked(old(a[i', j']))
        invariant forall j' | 0 <= j' < j :: a[i, j'] == Masked(old(a[i, j']))
        invariant forall j' | j <= j' < a.Length1 :: a[i, j'] == old(a[i, j'])
        invariant forall i', j' | i < i' < a.Length0 && 0 <= j' < a.Length1 :: a[i', j'] == old(a[i', j'])
      {
        if a[i, j].Some? && AnyAbove255(a[i, j].value) {
          a[i, j] := None;
        }
        j := j + 1;
      }
      i := i + 1;
    }
  }

  /**
    Lines 45-51 and 58: the grid on the plane, masked, with masked cells shaded grey.
    Row i holds blue channel i, column j green channel j.
  */
  method GridImage(p: Vec3) returns (image: seq<seq<Vec3>>)
    requires p.r != 0.0
    ensures |image| == GridSize
    ensures forall i | 0 <= i < GridSize :: |image[i]| == GridSize
    ensures forall i, j | 0 <= i < GridSize && 0 <= j < GridSize ::
      image[i][j] == Shade(Masked(Some(GridCell(p, i, j))))
  {
    var rgbFloat := new Option<Vec3>[GridSize, GridSize]((i, j) requires 0 <= i < GridSize && 0 <= j < GridSize =>
      Some(GridCell(p, i, j)));
    MaskOverRange(rgbFloat);
    assert Cells: forall i, j | 0 <= i < GridSize && 0 <= j < GridSize ::
      rgbFloat[i, j] == Masked(Some(GridCell(p, i, j)));
    image := [];
    var i := 0;
    while i < GridSize
      invariant 0 <= i <= GridSize && |image| == i
      invariant forall i', j | 0 <= i' < GridSize && 0 <= j < GridSize ::
        rgbFloat[i', j] == Masked(Some(GridCell(p, i', j)))
      invariant forall i' | 0 <= i' < i :: |image[i']| == GridSize
      invariant forall i', j | 0 <= i' < i && 0 <= j < GridSize ::
        image[i'][j] == Shade(Masked(Some(GridCell(p, i', j))))
    {
      var row := [];
      var j := 0;
      while j < GridSize
        invariant 0 <= j <= GridSize && |row| == j
        invariant forall i', j' | 0 <= i' < GridSize && 0 <= j' < GridSize ::
          rgbFloat[i', j'] == Masked(Some(GridCell(p, i', j')))
        invariant forall j' | 0 <= j' < j :: row[j'] == Shade(Masked(Some(GridCell(p, i, j'))))
      {
        row := row + [Shade(rgbFloat[i, j])];
        j := j + 1;
      }
      image := image + [row];
      i := i + 1;
    }
  }

  /**
    A grid cell is shaded grey exactly when its red exceeds 255 (green and blue never
    do); every other cell, including one with negative red, is kept as it is.
  */
  lemma GridShade(p: Vec3, i: int, j: int)
    requires p.r != 0.0 && 0 <= i < GridSize && 0 <= j < GridSize
    ensures var c := GridCell(p, i, j);
      Shade(Masked(Some(c))) == if c.r > 255.0 then Grey else c
  {
    var c := GridCell(p, i, j);
    assert c.g <= 255.0 && c.b <= 255.0;
  }

  // The projection onto the plane.

  /** `offset = 255/plane[0], 0, 0`: a point on the plane. */
  function Offset(p: Vec3): (o: Vec3)
    requires p.r != 0.0
    ensures Dot(o, p) == 255.0
  {
    DivCancel(255.0, p.r);
    Vec3(255.0 / p.r, 0.0, 0.0)
  }

  lemma SquarePositive(x: real)
    requires x > 0.0
    ensures x * x > 0.0
  {
  }

  lemma SquareOfNonZero(x: real)
    requires x != 0.0
    ensures x * x > 0.0
  {
    if x > 0.0 {
      SquarePositive(x);
    } else {
      SquarePositive(-x);
      assert x * x == (-x) * (-x);
    }
  }

  lemma SquareNonNegative(x: real)
    ensures x * x >= 0.0
  {
    if x != 0.0 {
      SquareOfNonZero(x);
    }
  }

  lemma SumOfSquaresPositive(x: real, y: real, z: real)
    requires x != 0.0
    ensures x * x + y * y + z * z > 0.0
  {
    SquareOfNonZero(x);
    SquareNonNegative(y);
    SquareNonNegative(z);
  }

  /** A plane with a non-zero red coefficient has a non-zero normal, so `w.dot(w)` can divide. */
  lemma NormPositive(p: Vec3)
    requires p.r != 0.0
    ensures Dot(p, p) > 0.0
  {
    calc {
      Dot(p, p);
    ==
      p.r * p.r + p.g * p.g + p.b * p.b;
    > { SumOfSquaresPositive(p.r, p.g, p.b); }
      0.0;
    }
  }

  /** `w.dot(w)` for the fitted plane w: positive. */
  function NormSquared(p: Vec3): (n: real)
    requires p.r != 0.0
    ensures n > 0.0
  {
    NormPositive(p);
    Dot(p, p)
  }

  lemma DotSub(u: Vec3, v: Vec3, w: Vec3)
    ensures Dot(Sub(u, v), w) == Dot(u, w) - Dot(v, w)
  {
    assert (u.r - v.r) * w.r == u.r * w.r - v.r * w.r;
    assert (u.g - v.g) * w.g == u.g * w.g - v.g * w.g;
    assert (u.b - v.b) * w.b == u.b * w.b - v.b * w.b;
  }

  lemma DotScale(k: real, v: Vec3, w: Vec3)
    ensures Dot(Scale(k, v), w) == k * Dot(v, w)
  {
    assert (k * v.r) * w.r == k * (v.r * w.r);
    assert (k * v.g) * w.g == k * (v.g * w.g);
    assert (k * v.b) * w.b == k * (v.b * w.b);
  }

  lemma DivCancel(k: real, d: real)
    requires d != 0.0
    ensures (k / d) * d == k
  {
  }

  lemma ScaleDiv(k: real, v: Vec3, d: real)
    requires d != 0.0
    ensures Scale(k, Div(v, d)) == Scale(k / d, v)
  {
    assert k * (v.r / d) == (k / d) * v.r;
    assert k * (v.g / d) == (k / d) * v.g;
    assert k * (v.b / d) == (k / d) * v.b;
  }

  /**
    One row of `offset + v - np.outer(v @ w, w/w.dot(w))` with `v = c - offset` and
    `w = plane`: the colour moved along the plane's normal, by the multiple that the
    colour's distance from the offset point measures along that normal.
  */
  function Project(p: Vec3, c: Vec3): (x: Vec3)
    requires p.r != 0.0
    ensures Sub(c, x) == Scale(Dot(Sub(c, Offset(p)), p) / NormSquared(p), p)
  {
    var v := Sub(c, Offset(p));
    ScaleDiv(Dot(v, p), p, NormSquared(p));
    Sub(Add(Offset(p), v), Scale(Dot(v, p), Div(p, NormSquared(p))))
  }

  /** Every projected colour lies on the plane. */
  lemma ProjectOnPlane(p: Vec3, c: Vec3)
    requires p.r != 0.0
    ensures Dot(Project(p, c), p) == 255.0
  {
    var o := Offset(p);
    var d := NormSquared(p);
    var k := Dot(Sub(c, o), p);
    var x := Project(p, c);
    assert x == Sub(c, Scale(k / d, p));
    calc {
      Dot(x, p);
    == { DotSub(c, Scale(k / d, p), p); }
      Dot(c, p) - Dot(Scale(k / d, p), p);
    == { DotScale(k / d, p, p); }
      Dot(c, p) - (k / d) * d;
    == { DivCancel(k, d); }
      Dot(c, p) - k;
    == { DotSub(c, o, p); }
      Dot(o, p);
    }
  }

  /** A colour already on the plane projects to itself. */
  lemma ProjectFixesPlane(p: Vec3, c: Vec3)
    requires p.r != 0.0 && Dot(c, p) == 255.0
    ensures Project(p, c) == c
  {
    DotSub(c, Offset(p), p);
  }

  /** Projecting twice is projecting once. */
  lemma ProjectIdempotent(p: Vec3, c: Vec3)
    requires p.r != 0.0
    ensures Project(p, Project(p, c)) == Project(p, c)
  {
    ProjectOnPlane(p, c);
    ProjectFixesPlane(p, Project(p, c));
  }

  /** `projected`: every colour of the array projected onto the plane, in order. */
  function Projected(p: Vec3, colours: seq<Triple>): (ps: seq<Vec3>)
    requires p.r != 0.0
    ensures |ps| == |colours|
    ensures forall i | 0 <= i < |ps| :: Dot(ps[i], p) == 255.0
    ensures forall i | 0 <= i < |ps| :: ps[i] == Project(p, ToVec(colours[i]))
  {
    var ps := seq(|colours|, i requires 0 <= i < |colours| => Project(p, ToVec(colours[i])));
    assert forall i | 0 <= i < |ps| :: Dot(ps[i], p) == 255.0 by {
      forall i | 0 <= i < |ps| ensures Dot(ps[i], p) == 255.0 {
        ProjectOnPlane(p, ToVec(colours[i]));
      }
    }
    ps
  }

  // The strings of the projected colours.

  /** `clip(min=0, max=255)` on one channel. */
  function Clip(x: real): (y: real)
    ensures 0.0 <= y <= 255.0
    ensures 0.0 <= x <= 255.0 ==> y == x
    ensures x < 0.0 ==> y == 0.0
    ensures x > 255.0 ==> y == 255.0
  {
    if x < 0.0 then 0.0 else if x > 255.0 then 255.0 else x
  }

  /** `astype(np.uint8)` of a channel already in [0, 255]: the fraction is truncated. */
  function ToByte(x: real): (n: int)
    requires 0.0 <= x <= 255.0
    ensures 0 <= n < 256
    ensures n as real <= x < n as real + 1.0
  {
    x.Floor
  }

  /** The clipped, truncated channels of a projected colour. */
  function ClippedTriple(v: Vec3): (t: Triple)
    ensures InByteRange(t)
  {
    Triple(ToByte(Clip(v.r)), ToByte(Clip(v.g)), ToByte(Clip(v.b)))
  }

  /**
    One element of `proj_strs`: a valid `#rrggbb` string that reads back as the
    clipped channels of v with the fraction dropped.
  */
  function ProjStr(v: Vec3): (s: string)
    ensures ParseColourStr(s) == Some(ClippedTriple(v))
    ensures var t := ParseColourStr(s).value;
      && t.red as real <= Clip(v.r) < t.red as real + 1.0
      && t.green as real <= Clip(v.g) < t.green as real + 1.0
      && t.blue as real <= Clip(v.b) < t.blue as real + 1.0
  {
    ColourStrRoundTrip(ClippedTriple(v));
    ColourStr(ClippedTriple(v))
  }

  /** `proj_strs`: one string per colour, in table order, reading back as its clipped projection. */
  function ProjStrs(p: Vec3, colours: seq<Triple>): (strs: seq<string>)
    requires p.r != 0.0
    ensures |strs| == |colours|
    ensures forall i | 0 <= i < |strs| :: ParseColourStr(strs[i]) == Some(ClippedTriple(Project(p, ToVec(colours[i]))))
  {
    var ps := Projected(p, colours);
    seq(|ps|, i requires 0 <= i < |ps| => ProjStr(ps[i]))
  }
}

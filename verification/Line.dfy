/** Line drawing: the integer loops of draw_line against exact rounding. */
module Line {
  import opened Common

  function Abs(a: int): nat { if a < 0 then -a else a }

  /** `k` units from `a` towards `b`. */
  function Towards(a: int, b: int, k: int): int { if b >= a then a + k else a - k }

  /** After `k` of `major` steps the ideal line has moved k * minor / major; this
      is the nearest integer, halves rounded down. */
  function Nearest(major: nat, minor: nat, k: nat): int
    requires major > 0
  {
    (2 * minor * k + major - 1) / (2 * major)
  }

  /** `j` is within half a unit of k * minor / major, and below it on a tie. */
  ghost predicate Close(major: nat, minor: nat, k: nat, j: int)
  {
    -(major as int) < 2 * minor * k - 2 * major * j <= major
  }

  /** Being close determines the pixel. */
  lemma CloseIsNearest(major: nat, minor: nat, k: nat, j: int)
    requires major > 0
    ensures Close(major, minor, k, j) <==> j == Nearest(major, minor, k)
  {
    QuotientIs(2 * minor * k + major - 1, 2 * major, j);
  }

  /** The rounded line stays between its end points and reaches the far one. */
  lemma NearestBounds(major: nat, minor: nat, k: nat)
    requires major > 0 && minor <= major && k <= major
    ensures 0 <= Nearest(major, minor, k) <= minor
    ensures Nearest(major, minor, 0) == 0 && Nearest(major, minor, major) == minor
  {
    CloseIsNearest(major, minor, 0, 0);
    Commutes(major, minor);
    CloseIsNearest(major, minor, major, minor);
    var j := Nearest(major, minor, k);
    CloseIsNearest(major, minor, k, j);
    CloseBounds(major, minor, k, j);
  }

  lemma Commutes(a: nat, b: nat)
    ensures 2 * a * b == 2 * b * a
  {
  }

  lemma CloseBounds(major: nat, minor: nat, k: nat, j: int)
    requires major > 0 && k <= major && Close(major, minor, k, j)
    ensures 0 <= j <= minor
  {
    Ordered(0, k, 2 * minor);
    Ordered(k, major, 2 * minor);
    Commutes(major, minor);
    assert 2 * major * (minor + 1) == 2 * major * minor + 2 * major;
    if j < 0 {
      Ordered(j, -1, 2 * major);
    } else if j > minor {
      Ordered(minor + 1, j, 2 * major);
    }
  }

  /** The decision variable after step `k` at row `j`: twice the distance of the
      next ideal point from the border between the two pixels. */
  function Decision(major: nat, minor: nat, k: nat, j: int): int { 2 * minor * (k + 1) - 2 * major * j - major }

  /** One round of the loop: the decision variable picks the closer pixel. */
  lemma RoundStep(major: nat, minor: nat, k: nat, j: int, d: int)
    requires major > 0 && minor <= major && Close(major, minor, k, j)
    requires d == Decision(major, minor, k, j)
    ensures var j' := if d > 0 then j + 1 else j;
      && Close(major, minor, k + 1, j')
      && (if d > 0 then d + 2 * (minor - major) else d + 2 * minor) == Decision(major, minor, k + 1, j')
      && -(2 * major) <= d <= 2 * major
  {
    assert 2 * minor * (k + 1) == 2 * minor * k + 2 * minor;
    assert 2 * minor * (k + 2) == 2 * minor * k + 4 * minor;
    assert 2 * major * (j + 1) == 2 * major * j + 2 * major;
  }

  lemma FirstDecision(major: nat, minor: nat)
    ensures Decision(major, minor, 0, 0) == 2 * minor - major && (major > 0 ==> Close(major, minor, 0, 0))
  {
  }

  /** After the last step the line has reached the end point's row. */
  lemma LastRow(major: nat, minor: nat, j: int)
    requires major > 0 && minor <= major && Close(major, minor, major, j)
    ensures j == minor
  {
    CloseIsNearest(major, minor, major, j);
    NearestBounds(major, minor, major);
  }

  type Point = (int, int)

  /** The pixel for step `k` of a line that moves along x, or along y. */
  function XPixel(x0: int, y0: int, x1: int, y1: int, k: nat): Point
    requires x0 != x1
  {
    (Towards(x0, x1, k), Towards(y0, y1, Nearest(Abs(x1 - x0), Abs(y1 - y0), k)))
  }

  function YPixel(x0: int, y0: int, x1: int, y1: int, k: nat): Point
    requires y0 != y1
  {
    (Towards(x0, x1, Nearest(Abs(y1 - y0), Abs(x1 - x0), k)), Towards(y0, y1, k))
  }

  ghost predicate Between(a: int, b: int, c: int) { a <= b <= c || c <= b <= a }

  /** Every plotted pixel lies in the box of the end points, the first one at the
      start; the far end point is where the next step would go, and is left out. */
  lemma XPixelInBox(x0: int, y0: int, x1: int, y1: int, k: nat)
    requires Abs(y1 - y0) <= Abs(x1 - x0) && k < Abs(x1 - x0)
    ensures var (x, y) := XPixel(x0, y0, x1, y1, k);
      Between(x0, x, x1) && x != x1 && Between(y0, y, y1)
    ensures XPixel(x0, y0, x1, y1, 0) == (x0, y0) && XPixel(x0, y0, x1, y1, Abs(x1 - x0)) == (x1, y1)
  {
    NearestBounds(Abs(x1 - x0), Abs(y1 - y0), k);
  }

  lemma YPixelInBox(x0: int, y0: int, x1: int, y1: int, k: nat)
    requires Abs(x1 - x0) <= Abs(y1 - y0) && k < Abs(y1 - y0)
    ensures var (x, y) := YPixel(x0, y0, x1, y1, k);
      Between(x0, x, x1) && Between(y0, y, y1) && y != y1
    ensures YPixel(x0, y0, x1, y1, 0) == (x0, y0) && YPixel(x0, y0, x1, y1, Abs(y1 - y0)) == (x1, y1)
  {
    NearestBounds(Abs(y1 - y0), Abs(x1 - x0), k);
  }

  /** Twice the distance between the plotted and the ideal line, times the major
      length, is at most the major length: half a pixel. */
  lemma HalfPixel(major: nat, minor: nat, k: nat)
    requires major > 0
    ensures 2 * Abs(minor * k - major * Nearest(major, minor, k)) <= major
  {
    var j := Nearest(major, minor, k);
    CloseIsNearest(major, minor, k, j);
    assert 2 * minor * k == 2 * (minor * k) && 2 * major * j == 2 * (major * j);
  }

  class Framebuffer {
    const width: nat
    const height: nat
    const pixels: array2<int>

    ghost predicate Valid() { pixels.Length0 == width && pixels.Length1 == height }

    predicate Inside(x: int, y: int) { 0 <= x < width && 0 <= y < height }

    constructor (width: nat, height: nat)
      ensures Valid() && this.width == width && this.height == height && fresh(pixels)
    {
      this.width, this.height := width, height;
      pixels := new int[width, height];
    }

    method DrawPixel(x: int, y: int, color: int)
      requires Valid() && Inside(x, y)
      modifies pixels
      ensures forall a, b | Inside(a, b) :: pixels[a, b] == if (a, b) == (x, y) then color else old(pixels[a, b])
    {
      pixels[x, y] := color;
    }

    method DrawXDominantLine(x0: int, y0: int, x1: int, y1: int, dx: nat, dy: nat, color: int)
      returns (ghost plotted: seq<Point>)
      requires Valid() && Inside(x0, y0) && Inside(x1, y1)
      requires dx == Abs(x1 - x0) && dy == Abs(y1 - y0) && dy <= dx
      modifies pixels
      ensures |plotted| == dx && forall k: nat | k < dx :: plotted[k] == XPixel(x0, y0, x1, y1, k)
      ensures forall a, b | Inside(a, b) :: pixels[a, b] == if (a, b) in plotted then color else old(pixels[a, b])
    {
      plotted := [];
      var sx, sy := if x1 >= x0 then 1 else -1, if y1 >= y0 then 1 else -1;
      var d, x, y := 2 * dy - dx, x0, y0;
      ghost var k: nat, j: int := 0, 0;
      FirstDecision(dx, dy);
      while x != x1
        invariant |plotted| == k <= dx && x == Towards(x0, x1, k)
        invariant if dx == 0 then j == 0 else Close(dx, dy, k, j)
        invariant y == Towards(y0, y1, j) && d == Decision(dx, dy, k, j)
        invariant forall i: nat | i < k :: plotted[i] == XPixel(x0, y0, x1, y1, i)
        invariant forall a, b | Inside(a, b) :: pixels[a, b] == if (a, b) in plotted then color else old(pixels[a, b])
        decreases dx - k
      {
        CloseBounds(dx, dy, k, j);
        CloseIsNearest(dx, dy, k, j);
        RoundStep(dx, dy, k, j, d);
        DrawPixel(x, y, color);
        plotted := plotted + [(x, y)];
        if d > 0 {
          y := y + sy;
          d := d + 2 * (dy - dx);
          j := j + 1;
        } else {
          d := d + 2 * dy;
        }
        x := x + sx;
        k := k + 1;
      }
      if dx > 0 {
        LastRow(dx, dy, j);
      }
      assert y == y1;
    }

    method DrawYDominantLine(x0: int, y0: int, x1: int, y1: int, dx: nat, dy: nat, color: int)
      returns (ghost plotted: seq<Point>)
      requires Valid() && Inside(x0, y0) && Inside(x1, y1)
      requires dx == Abs(x1 - x0) && dy == Abs(y1 - y0) && dx < dy
      modifies pixels
      ensures |plotted| == dy && forall k: nat | k < dy :: plotted[k] == YPixel(x0, y0, x1, y1, k)
      ensures forall a, b | Inside(a, b) :: pixels[a, b] == if (a, b) in plotted then color else old(pixels[a, b])
    {
      plotted := [];
      var sx, sy := if x1 >= x0 then 1 else -1, if y1 >= y0 then 1 else -1;
      var d, x, y := 2 * dx - dy, x0, y0;
      ghost var k: nat, j: int := 0, 0;
      FirstDecision(dy, dx);
      while y != y1
        invariant |plotted| == k <= dy && y == Towards(y0, y1, k)
        invariant Close(dy, dx, k, j)
        invariant x == Towards(x0, x1, j) && d == Decision(dy, dx, k, j)
        invariant forall i: nat | i < k :: plotted[i] == YPixel(x0, y0, x1, y1, i)
        invariant forall a, b | Inside(a, b) :: pixels[a, b] == if (a, b) in plotted then color else old(pixels[a, b])
        decreases dy - k
      {
        CloseBounds(dy, dx, k, j);
        CloseIsNearest(dy, dx, k, j);
        RoundStep(dy, dx, k, j, d);
        DrawPixel(x, y, color);
        plotted := plotted + [(x, y)];
        if d > 0 {
          x := x + sx;
          d := d + 2 * (dx - dy);
          j := j + 1;
        } else {
          d := d + 2 * dx;
        }
        y := y + sy;
        k := k + 1;
      }
      LastRow(dy, dx, j);
      assert x == x1;
    }

    /** One pixel per step of the longer axis, each the nearest to the line. */
    method DrawLine(x0: int, y0: int, x1: int, y1: int, color: int) returns (ghost plotted: seq<Point>)
      requires Valid() && Inside(x0, y0) && Inside(x1, y1)
      modifies pixels
      ensures var dx, dy := Abs(x1 - x0), Abs(y1 - y0);
        if dx >= dy then |plotted| == dx && forall k: nat | k < dx :: plotted[k] == XPixel(x0, y0, x1, y1, k)
        else |plotted| == dy && forall k: nat | k < dy :: plotted[k] == YPixel(x0, y0, x1, y1, k)
      ensures forall a, b | Inside(a, b) :: pixels[a, b] == if (a, b) in plotted then color else old(pixels[a, b])
    {
      var dx, dy := Abs(x1 - x0), Abs(y1 - y0);
      if dx >= dy {
        plotted := DrawXDominantLine(x0, y0, x1, y1, dx, dy, color);
      } else {
        plotted := DrawYDominantLine(x0, y0, x1, y1, dx, dy, color);
      }
    }
  }
}

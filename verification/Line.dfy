/** Line drawing (kernel/graphics/graphics.c): the error-driven loop of draw_line
    and draw_line_q, and the clipped put_pixel below it. */
module LineDrawing {

  const TWO_32: nat := 0x1_0000_0000

  /** The C type int. */
  newtype int32 = x: int | -0x8000_0000 <= x < 0x8000_0000

  predicate InInt(x: int) { -0x8000_0000 <= x < 0x8000_0000 }

  /** The largest extent up to which no line overflows; ExtentIff shows that it is. */
  const MAX_EXTENT: nat := 0x2AAA_AAAB

  // ---------------------------------------------------------------------
  // The ideal line, rounded
  // ---------------------------------------------------------------------

  function Abs(x: int): nat { if x < 0 then -x else x }

  function Step(from: int, to: int): int { if from < to then 1 else -1 }

  /** The minor coordinate k steps along a line that climbs rise over run:
      rise * k / run to the nearest integer, halves upwards. */
  function Rounded(rise: nat, run: nat, k: nat): nat {
    if run == 0 then 0 else (2 * rise * k + run) / (2 * run)
  }

  function Length(x0: int, y0: int, x1: int, y1: int): nat {
    var dx, dy := Abs(x1 - x0), Abs(y1 - y0);
    if dx >= dy then dx else dy
  }

  /** How far k pixels along the line have moved in x and in y. */
  function Moves(dx: nat, dy: nat, k: nat): (nat, nat) {
    if dx >= dy then (k, Rounded(dy, dx, k)) else (Rounded(dx, dy, k), k)
  }

  /** The k-th pixel of the line. */
  function PointAt(x0: int, y0: int, x1: int, y1: int, k: nat): (int, int) {
    var (a, b) := Moves(Abs(x1 - x0), Abs(y1 - y0), k);
    (x0 + Step(x0, x1) * a, y0 + Step(y0, y1) * b)
  }

  /** All its pixels, in drawing order. */
  function Line(x0: int, y0: int, x1: int, y1: int): seq<(int, int)> {
    seq(Length(x0, y0, x1, y1) + 1, k requires k >= 0 => PointAt(x0, y0, x1, y1, k))
  }

  /** minor is the rounding of rise * k / run: at most half a pixel off, and not half a pixel low. */
  ghost predicate Nearest(rise: nat, run: nat, k: nat, minor: nat) {
    2 * (rise * k - run * minor) < run && 2 * (run * minor - rise * k) <= run
  }

  lemma RoundedIsNearest(rise: nat, run: nat, k: nat)
    requires run > 0
    ensures Nearest(rise, run, k, Rounded(rise, run, k))
  {
    var q := Rounded(rise, run, k);
    var n := 2 * rise * k + run;
    DivideBounds(n, 2 * run);
    assert 2 * run * q <= n < 2 * run * q + 2 * run;
    assert 2 * (run * q) == 2 * run * q && 2 * (rise * k) == 2 * rise * k;
  }

  lemma DivideBounds(n: nat, d: nat)
    requires d > 0
    ensures d * (n / d) <= n < d * (n / d) + d
  {
  }

  lemma NearestUnique(rise: nat, run: nat, k: nat, a: nat, b: nat)
    requires run > 0 && Nearest(rise, run, k, a) && Nearest(rise, run, k, b)
    ensures a == b
  {
    MultiplesApart(run, a, b);
    MultiplesApart(run, b, a);
  }

  lemma MultiplesApart(run: nat, a: nat, b: nat)
    ensures a < b ==> run * a + run <= run * b
  {
    if a < b {
      Distribute(run, a, b - a - 1);
    }
  }

  lemma Distribute(run: nat, a: nat, d: nat)
    ensures run * (a + 1 + d) == run * a + run + run * d
    ensures run * d >= 0
  {
  }

  lemma RoundedEnds(rise: nat, run: nat)
    ensures Rounded(rise, run, 0) == 0
    ensures run > 0 ==> Rounded(rise, run, run) == rise
  {
    if run > 0 {
      RoundedIsNearest(rise, run, 0);
      NearestUnique(rise, run, 0, Rounded(rise, run, 0), 0);
      RoundedIsNearest(rise, run, run);
      NearestUnique(rise, run, run, Rounded(rise, run, run), rise);
    }
  }

  /** One step along a line no steeper than the diagonal climbs by 0 or 1; which
      of the two, the sign of the error term decides. */
  lemma RoundedStep(rise: nat, run: nat, k: nat)
    requires 0 < run && rise <= run
    ensures var b := Rounded(rise, run, k);
            Rounded(rise, run, k + 1) == if 2 * (run * b - rise * k - rise) <= -1 * run then b + 1 else b
  {
    var b := Rounded(rise, run, k);
    RoundedIsNearest(rise, run, k);
    RoundedIsNearest(rise, run, k + 1);
    assert rise * (k + 1) == rise * k + rise;
    assert run * (b + 1) == run * b + run;
    var next := if 2 * (run * b - rise * k - rise) <= -1 * run then b + 1 else b;
    NearestUnique(rise, run, k + 1, Rounded(rise, run, k + 1), next);
  }

  /** The line starts and ends where it should. */
  lemma LineEnds(x0: int, y0: int, x1: int, y1: int)
    ensures PointAt(x0, y0, x1, y1, 0) == (x0, y0)
    ensures PointAt(x0, y0, x1, y1, Length(x0, y0, x1, y1)) == (x1, y1)
  {
    var dx, dy := Abs(x1 - x0), Abs(y1 - y0);
    RoundedEnds(dy, dx);
    RoundedEnds(dx, dy);
    StepReaches(x0, x1);
    StepReaches(y0, y1);
    hide Rounded;
    TimesZero(Step(x0, x1));
    TimesZero(Step(y0, y1));
  }

  lemma StepReaches(from: int, to: int)
    ensures from + Step(from, to) * Abs(to - from) == to
  {
  }

  lemma TimesZero(s: int)
    ensures s * 0 == 0
  {
  }

  /** In every octant each pixel is the rounding of the ideal point: at most half
      a pixel off on the minor axis, exact on the major one. */
  lemma HalfPixel(x0: int, y0: int, x1: int, y1: int, k: nat)
    requires k <= Length(x0, y0, x1, y1)
    ensures var (x, y) := PointAt(x0, y0, x1, y1, k);
            var dx, dy := Abs(x1 - x0), Abs(y1 - y0);
            if dx >= dy then Abs(x - x0) == k && 2 * Abs(dx * Abs(y - y0) - dy * k) <= dx
            else Abs(y - y0) == k && 2 * Abs(dy * Abs(x - x0) - dx * k) <= dy
  {
    var dx, dy := Abs(x1 - x0), Abs(y1 - y0);
    var major, minor := if dx >= dy then dx else dy, if dx >= dy then dy else dx;
    StepSize(x0, x1, k);
    StepSize(y0, y1, k);
    StepSize(x0, x1, Rounded(minor, major, k));
    StepSize(y0, y1, Rounded(minor, major, k));
    if major > 0 {
      RoundedIsNearest(minor, major, k);
    }
    hide Rounded, Step;
  }

  lemma StepSize(from: int, to: int, k: nat)
    ensures Abs(Step(from, to) * k) == k
  {
  }

  /** Consecutive pixels touch: no gap, and no pixel twice. */
  lemma Connected(x0: int, y0: int, x1: int, y1: int, k: nat)
    requires k < Length(x0, y0, x1, y1)
    ensures var p, q := PointAt(x0, y0, x1, y1, k), PointAt(x0, y0, x1, y1, k + 1);
            p != q && Abs(p.0 - q.0) <= 1 && Abs(p.1 - q.1) <= 1
  {
    var dx, dy := Abs(x1 - x0), Abs(y1 - y0);
    var major, minor := if dx >= dy then dx else dy, if dx >= dy then dy else dx;
    RoundedStep(minor, major, k);
    var b := Rounded(minor, major, k);
    NextMultiple(Step(x0, x1), k);
    NextMultiple(Step(y0, y1), k);
    NextMultiple(Step(x0, x1), b);
    NextMultiple(Step(y0, y1), b);
    hide Rounded;
  }

  lemma NextMultiple(s: int, k: nat)
    ensures s * (k + 1) == s * k + s
  {
  }

  // ---------------------------------------------------------------------
  // Pixels
  // ---------------------------------------------------------------------

  class Framebuffer {
    const width: nat
    const height: nat
    const pitch: nat
    const address: array<nat>

    constructor (width: nat, height: nat, pitch: nat, address: array<nat>)
      requires width <= pitch && pitch * height <= address.Length
      ensures this.width == width && this.height == height && this.pitch == pitch && this.address == address
    {
      this.width, this.height, this.pitch, this.address := width, height, pitch, address;
    }

    /** Rows of pitch pixels, of which width are visible, fit the memory. */
    ghost predicate Valid() { width <= pitch && pitch * height <= address.Length }
  }

  /** The cast (uint32_t)i of a C int. */
  function Cast(i: int): nat { i % TWO_32 }

  /** The word of pixel (x, y), or nothing outside the visible area. */
  predicate Visible(width: nat, height: nat, p: (int, int)) { Cast(p.0) < width && Cast(p.1) < height }

  function WordOf(pitch: nat, p: (int, int)): nat { Cast(p.1) * pitch + Cast(p.0) }

  lemma WordInside(width: nat, height: nat, pitch: nat, p: (int, int))
    requires width <= pitch && Visible(width, height, p)
    ensures WordOf(pitch, p) < pitch * height
  {
    hide Cast;
    RowsFit(Cast(p.0), Cast(p.1), height, pitch);
  }

  lemma RowsFit(x: nat, y: nat, height: nat, pitch: nat)
    requires x < pitch && y < height
    ensures y * pitch + x < pitch * height
  {
    assert (y + 1) * pitch <= height * pitch;
    assert (y + 1) * pitch == y * pitch + pitch;
  }

  /** pixels after plotting one point, clipped. */
  function PlotOne(pixels: seq<nat>, width: nat, height: nat, pitch: nat, p: (int, int), color: nat): seq<nat> {
    if Visible(width, height, p) && WordOf(pitch, p) < |pixels| then pixels[WordOf(pitch, p) := color] else pixels
  }

  function Plot(pixels: seq<nat>, width: nat, height: nat, pitch: nat, points: seq<(int, int)>, color: nat): (r: seq<nat>)
    ensures |r| == |pixels|
  {
    if points == [] then pixels
    else PlotOne(Plot(pixels, width, height, pitch, points[..|points| - 1], color), width, height, pitch,
                 points[|points| - 1], color)
  }

  ghost predicate Hit(width: nat, height: nat, pitch: nat, points: seq<(int, int)>, i: nat) {
    exists p :: p in points && Visible(width, height, p) && WordOf(pitch, p) == i
  }

  /** Plotting colours the words of the visible points and no others. */
  lemma {:induction false} PlotExact(pixels: seq<nat>, width: nat, height: nat, pitch: nat,
                                     points: seq<(int, int)>, color: nat, i: nat)
    requires i < |pixels|
    ensures Plot(pixels, width, height, pitch, points, color)[i] ==
            if Hit(width, height, pitch, points, i) then color else pixels[i]
  {
    hide Cast;
    if points != [] {
      var before, last := points[..|points| - 1], points[|points| - 1];
      assert points == before + [last];
      PlotExact(pixels, width, height, pitch, before, color, i);
      if Hit(width, height, pitch, before, i) {
        var p :| p in before && Visible(width, height, p) && WordOf(pitch, p) == i;
        assert p in points;
      }
      assert last in points;
    }
  }

  /** One of the points, its coordinates taken as 32-bit words, is (x, y). */
  ghost predicate Drawn(points: seq<(int, int)>, x: nat, y: nat) {
    exists p :: p in points && p.0 % 0x1_0000_0000 == x && p.1 % 0x1_0000_0000 == y
  }

  /** The word of column x in row y has the colour if the column is among the first width and
      (x, y) was drawn, and is as before otherwise. */
  ghost predicate CellColoured(before: seq<nat>, after: seq<nat>, width: nat, pitch: nat,
                               points: seq<(int, int)>, color: nat, x: nat, y: nat) {
    && y * pitch + x < |before| == |after|
    && after[y * pitch + x] == if x < width && Drawn(points, x, y) then color else before[y * pitch + x]
  }

  /** So it is in all rows of pitch words; what lies behind the last row is as before. */
  ghost predicate Coloured(before: seq<nat>, after: seq<nat>, width: nat, height: nat, pitch: nat,
                           points: seq<(int, int)>, color: nat) {
    && |after| == |before|
    && (forall x: nat, y: nat :: x < pitch && y < height ==>
          CellColoured(before, after, width, pitch, points, color, x, y))
    && (forall i :: pitch * height <= i < |before| ==> after[i] == before[i])
  }

  lemma PlotColours(pixels: seq<nat>, width: nat, height: nat, pitch: nat, points: seq<(int, int)>, color: nat)
    requires width <= pitch && pitch * height <= |pixels|
    ensures Coloured(pixels, Plot(pixels, width, height, pitch, points, color), width, height, pitch, points, color)
  {
    hide Plot, CellColoured, Hit;
    var after := Plot(pixels, width, height, pitch, points, color);
    forall x: nat, y: nat | x < pitch && y < height
      ensures CellColoured(pixels, after, width, pitch, points, color, x, y)
    {
      PlotCell(pixels, width, height, pitch, points, color, x, y);
    }
    forall i | pitch * height <= i < |pixels|
      ensures after[i] == pixels[i]
    {
      PlotExact(pixels, width, height, pitch, points, color, i);
      HitInside(width, height, pitch, points, i);
    }
  }

  lemma PlotCell(pixels: seq<nat>, width: nat, height: nat, pitch: nat, points: seq<(int, int)>, color: nat,
                 x: nat, y: nat)
    requires width <= pitch && pitch * height <= |pixels| && x < pitch && y < height
    ensures CellColoured(pixels, Plot(pixels, width, height, pitch, points, color), width, pitch, points, color, x, y)
  {
    hide Plot, Hit, Drawn;
    RowsFit(x, y, height, pitch);
    var i := y * pitch + x;
    PlotExact(pixels, width, height, pitch, points, color, i);
    HitDrawn(width, height, pitch, points, x, y);
  }

  lemma HitInside(width: nat, height: nat, pitch: nat, points: seq<(int, int)>, i: nat)
    requires width <= pitch && i >= pitch * height
    ensures !Hit(width, height, pitch, points, i)
  {
    if Hit(width, height, pitch, points, i) {
      var p :| p in points && Visible(width, height, p) && WordOf(pitch, p) == i;
      WordInside(width, height, pitch, p);
    }
  }

  lemma HitDrawn(width: nat, height: nat, pitch: nat, points: seq<(int, int)>, x: nat, y: nat)
    requires width <= pitch && x < pitch && y < height
    ensures Hit(width, height, pitch, points, y * pitch + x) <==> x < width && Drawn(points, x, y)
  {
    hide Visible, WordOf;
    if Hit(width, height, pitch, points, y * pitch + x) {
      var p :| p in points && Visible(width, height, p) && WordOf(pitch, p) == y * pitch + x;
      PointHits(width, height, pitch, p, x, y);
    }
    if x < width && Drawn(points, x, y) {
      var p :| p in points && p.0 % 0x1_0000_0000 == x && p.1 % 0x1_0000_0000 == y;
      PointHits(width, height, pitch, p, x, y);
    }
  }

  lemma PointHits(width: nat, height: nat, pitch: nat, p: (int, int), x: nat, y: nat)
    requires width <= pitch && x < pitch && y < height
    ensures Visible(width, height, p) && WordOf(pitch, p) == y * pitch + x <==>
            x < width && p.0 % 0x1_0000_0000 == x && p.1 % 0x1_0000_0000 == y
  {
    var u, v := Cast(p.0), Cast(p.1);
    assert u == p.0 % 0x1_0000_0000 && v == p.1 % 0x1_0000_0000;
    hide Cast;
    if Visible(width, height, p) && WordOf(pitch, p) == y * pitch + x {
      RowAndColumn(pitch, u, v, x, y);
    }
  }

  /** A word belongs to one column of one row. */
  lemma RowAndColumn(pitch: nat, x: nat, y: nat, u: nat, v: nat)
    requires x < pitch && u < pitch && y * pitch + x == v * pitch + u
    ensures x == u && y == v
  {
    MultiplesApart(pitch, y, v);
    MultiplesApart(pitch, v, y);
    assert pitch * y == y * pitch && pitch * v == v * pitch;
  }

  lemma PlotSingle(pixels: seq<nat>, width: nat, height: nat, pitch: nat, p: (int, int), color: nat)
    ensures Plot(pixels, width, height, pitch, [p], color) == PlotOne(pixels, width, height, pitch, p, color)
  {
    assert [p][..0] == [];
  }

  /** put_pixel_q; put_pixel is the case without a buffer. */
  method PutPixel(buffer: Framebuffer?, screen: Framebuffer?, x: nat, y: nat, color: nat)
    requires buffer != null ==> buffer.Valid()
    requires screen != null ==> screen.Valid()
    requires x < TWO_32 && y < TWO_32
    modifies if buffer != null then {buffer.address} else if screen != null then {screen.address} else {}
    ensures screen == null && buffer != null ==> buffer.address[..] == old(buffer.address[..])
    ensures screen != null ==>
              var t := if buffer == null then screen else buffer;
              && t.address[..] == PlotOne(old(t.address[..]), t.width, t.height, t.pitch, (x, y), color)
              && Coloured(old(t.address[..]), t.address[..], t.width, t.height, t.pitch, [(x, y)], color)
  {
    hide Coloured, Plot;
    var target := if buffer == null then screen else buffer;
    if screen == null {
      return;
    }
    PlotColours(target.address[..], target.width, target.height, target.pitch, [(x, y)], color);
    PlotSingle(target.address[..], target.width, target.height, target.pitch, (x, y), color);
    if x >= target.width || y >= target.height {
      return;
    }
    WordInside(target.width, target.height, target.pitch, (x, y));
    target.address[y * target.pitch + x] := color;
  }

  /** The error term after a steps in x and b steps in y. */
  function ErrorTerm(dx: nat, dy: nat, a: nat, b: nat): int { dx * (b + 1) - dy * (a + 1) }

  /** How far the doubled error term can go: a line that climbs keeps two rises
      clear of the run, a line along an axis keeps its first error. */
  ghost predicate ErrorBounds(dx: nat, dy: nat, e: int) {
    if dx >= dy then
      if dy == 0 then e == dx else dx - 2 * dy < 2 * e <= 3 * dx - 2 * dy
    else
      if dx == 0 then e == -1 * dy else 2 * dx - 3 * dy <= 2 * e < 2 * dx - dy
  }

  /** While the line is not finished, the doubled error term tells exactly which
      coordinates advance to the next pixel. */
  lemma ErrorDecides(dx: nat, dy: nat, k: nat, e: int)
    requires k < if dx >= dy then dx else dy
    requires var (a, b) := Moves(dx, dy, k); e == ErrorTerm(dx, dy, a, b)
    ensures var (a, b) := Moves(dx, dy, k);
            Moves(dx, dy, k + 1) == (if 2 * e + dy >= 0 then a + 1 else a, if 2 * e <= dx then b + 1 else b)
    ensures ErrorBounds(dx, dy, e)
  {
    var (a, b) := Moves(dx, dy, k);
    assert dx * (b + 1) == dx * b + dx && dy * (a + 1) == dy * a + dy;
    if dx >= dy {
      RoundedStep(dy, dx, k);
      RoundedIsNearest(dy, dx, k);
      if dy == 0 {
        FlatStays(dx, k);
      }
    } else {
      RoundedStep(dx, dy, k);
      RoundedIsNearest(dx, dy, k);
      if dx == 0 {
        FlatStays(dy, k);
      }
    }
    hide Rounded;
  }

  lemma FlatStays(run: nat, k: nat)
    requires run > 0
    ensures Rounded(0, run, k) == 0 && run * Rounded(0, run, k) == 0
  {
    RoundedIsNearest(0, run, k);
    NearestUnique(0, run, k, Rounded(0, run, k), 0);
  }

  // ---------------------------------------------------------------------
  // Which lines overflow
  // ---------------------------------------------------------------------

  function Gcd(a: nat, b: nat): (g: nat)
    ensures a > 0 || b > 0 ==> g > 0
    decreases b
  {
    if b == 0 then a else Gcd(b, a % b)
  }

  lemma {:induction false} GcdDivides(a: nat, b: nat) returns (m: nat, n: nat)
    requires a > 0 || b > 0
    ensures Gcd(a, b) > 0 && a == Gcd(a, b) * m && b == Gcd(a, b) * n
    decreases b
  {
    if b == 0 {
      return 1, 0;
    }
    var q, r := Division(a, b);
    var s, t := GcdDivides(b, r);
    Multiple(Gcd(b, r), s, t, q, r, a, b);
    return s * q + t, s;
  }

  lemma Division(a: int, b: nat) returns (q: int, r: nat)
    requires b > 0
    ensures a == b * q + r && r < b && q == a / b && r == a % b && (a >= 0 ==> q >= 0)
  {
    return a / b, a % b;
  }

  lemma Multiple(g: nat, s: nat, t: nat, q: nat, r: nat, a: nat, b: nat)
    requires b == g * s && r == g * t && a == b * q + r
    ensures s * q + t >= 0 && a == g * (s * q + t)
  {
    assert g * s * q == g * (s * q);
    assert s * q >= 0;
  }

  lemma {:induction false} Bezout(a: nat, b: nat) returns (u: int, v: int)
    ensures a * u + b * v == Gcd(a, b)
    decreases b
  {
    if b == 0 {
      return 1, 0;
    }
    var q, r := Division(a, b);
    var s, t := Bezout(b, r);
    BezoutStep(a, b, q, r, s, t);
    return t, s - q * t;
  }

  lemma BezoutStep(a: int, b: int, q: int, r: int, s: int, t: int)
    requires a == b * q + r
    ensures a * t + b * (s - q * t) == b * s + r * t
  {
    assert b * (s - q * t) == b * s - b * q * t;
  }

  /** How far the rounding at pixel k is from the next lower coordinate, in units of half a run. */
  function Residue(rise: nat, run: nat, k: nat): nat
    requires run > 0
  {
    (2 * rise * k + run) % (2 * run)
  }

  /** With g the greatest common divisor, all residues leave the remainder of run by 2g. */
  lemma ResidueClass(rise: nat, run: nat, k: nat, g: nat, m: nat, n: nat)
    requires run == g * m && rise == g * n && g > 0 && m > 0
    ensures Residue(rise, run, k) < 2 * run && Residue(rise, run, k) % (2 * g) == run % (2 * g)
    ensures run % (2 * g) <= Residue(rise, run, k) <= 2 * run - 2 * g + run % (2 * g)
  {
    var q, r := (2 * rise * k + run) / (2 * run), Residue(rise, run, k);
    assert r == run + 2 * rise * k - 2 * run * q;
    Shifted(run, 2 * g, n * k - m * q, r) by {
      assert 2 * rise * k == 2 * g * (n * k);
      assert 2 * run * q == 2 * g * (m * q);
    }
    LastOfClass(r, 2 * g, m, run);
  }

  lemma Shifted(a: int, d: nat, z: int, b: int)
    requires d > 0 && b == a + d * z
    ensures b % d == a % d
  {
    var x := a / d;
    assert b == d * (x + z) + a % d;
    DivideUnique(b, d, x + z, a % d);
  }

  lemma DivideUnique(b: int, d: nat, q: int, r: int)
    requires d > 0 && b == d * q + r && 0 <= r < d
    ensures b % d == r
  {
    var y := b / d;
    assert b == d * y + b % d;
    Scaled(d, y, q, b % d, r);
  }

  lemma Scaled(d: nat, y: int, q: int, s: nat, r: nat)
    requires s < d && r < d && d * y + s == d * q + r
    ensures s == r
  {
    Positive(d, y - q);
    Positive(d, q - y);
  }

  lemma Positive(d: nat, z: int)
    ensures d * z >= d || z <= 0
    ensures d * (-1 * z) == -1 * (d * z)
  {
    if z > 0 {
      Distribute(d, 0, z - 1);
    }
  }

  lemma LastOfClass(r: nat, d: nat, m: nat, run: nat)
    requires d > 0 && 2 * run == d * m && r < 2 * run && r % d == run % d
    ensures run % d <= r <= 2 * run - d + run % d
  {
    var q := r / d;
    assert r == d * q + r % d;
    MultiplesApart(d, q, m);
    MultiplesApart(d, m, q);
    ModBelow(r, d);
  }

  lemma ModBelow(r: nat, d: nat)
    requires d > 0
    ensures r % d <= r
  {
    assert d * (r / d) >= 0;
  }

  /** Every such residue belongs to a pixel of the line. */
  lemma ResidueReached(rise: nat, run: nat, r: nat) returns (k: nat)
    requires run > 0 && r < 2 * run && r % (2 * Gcd(run, rise)) == run % (2 * Gcd(run, rise))
    ensures k < run && Residue(rise, run, k) == r
  {
    hide Gcd, Residue;
    var m, n := GcdDivides(run, rise);
    var u, v := Bezout(run, rise);
    var t := SameClass(run, r, 2 * Gcd(run, rise));
    k := Solution(rise, run, Gcd(run, rise), m, n, u, v, t, r);
  }

  lemma SameClass(a: nat, b: nat, d: nat) returns (t: int)
    requires d > 0 && a % d == b % d
    ensures b == a + d * t
  {
    var i, r := Division(b, d);
    var j, s := Division(a, d);
    return i - j;
  }

  lemma Solution(rise: nat, run: nat, g: nat, m: nat, n: nat, u: int, v: int, t: int, r: nat) returns (k: nat)
    requires run == g * m && rise == g * n && run * u + rise * v == g && run > 0
    requires r == run + 2 * g * t && r < 2 * run
    ensures k < run && Residue(rise, run, k) == r
  {
    hide Residue;
    Reduced(g, m, n, u, v);
    var w, i := Division(t * v, m);
    Solved(m, n, u, v, t, w, i);
    Lifted(rise, run, g, m, n, i, t, t * u + n * w, r);
    return i;
  }

  lemma Reduced(g: nat, m: nat, n: nat, u: int, v: int)
    requires g > 0 && (g * m) * u + (g * n) * v == g && g * m > 0
    ensures m * u + n * v == 1 && 0 < m <= g * m
  {
    assert g * (m * u + n * v) == g * 1;
  }

  lemma Solved(m: nat, n: nat, u: int, v: int, t: int, w: int, k: nat)
    requires m * u + n * v == 1 && t * v == m * w + k
    ensures n * k == t - m * (t * u + n * w)
  {
    assert n * (t * v) == n * (m * w) + n * k;
    assert t * (m * u + n * v) == t;
    assert t * (m * u + n * v) == m * (t * u) + n * (t * v);
    assert m * (t * u + n * w) == m * (t * u) + n * (m * w);
  }

  lemma Lifted(rise: nat, run: nat, g: nat, m: nat, n: nat, k: nat, t: int, z: int, r: int)
    requires run == g * m && rise == g * n && n * k == t - m * z && r == run + 2 * g * t && 0 <= r < 2 * run
    ensures Residue(rise, run, k) == r
  {
    DivideUnique(2 * rise * k + run, 2 * run, -1 * z, r);
    assert rise * k == g * (n * k);
    assert g * (t - m * z) == g * t - g * (m * z);
    assert run * z == g * (m * z);
  }

  /** The values the loop computes from the k-th error term stay in int. */
  ghost predicate StepFits(dx: nat, dy: nat, e: int) {
    var moved := if 2 * e + dy >= 0 then e - dy else e;
    InInt(e) && InInt(2 * e) && InInt(moved) && InInt(if 2 * e <= dx then moved + dx else moved)
  }

  /** No intermediate value of the loop leaves int; beyond that C leaves the result undefined. */
  ghost predicate NoOverflow(dx: nat, dy: nat) {
    && InInt(dx) && InInt(dy) && InInt(dx - dy)
    && forall k: nat :: k < (if dx >= dy then dx else dy) ==>
         StepFits(dx, dy, ErrorTerm(dx, dy, Moves(dx, dy, k).0, Moves(dx, dy, k).1))
  }

  lemma BoundsFit(dx: nat, dy: nat, e: int)
    requires dx <= MAX_EXTENT && dy <= MAX_EXTENT && ErrorBounds(dx, dy, e)
    ensures StepFits(dx, dy, e)
  {
  }

  /** The error term of pixel k, from its residue. */
  lemma ErrorResidue(dx: nat, dy: nat, k: nat)
    requires dx > 0 || dy > 0
    ensures var (a, b) := Moves(dx, dy, k);
            2 * ErrorTerm(dx, dy, a, b) == if dx >= dy then 3 * dx - 2 * dy - Residue(dy, dx, k)
                                           else 2 * dx - 3 * dy + Residue(dx, dy, k)
  {
    var (a, b) := Moves(dx, dy, k);
    assert dx * (b + 1) == dx * b + dx && dy * (a + 1) == dy * a + dy;
    if dx >= dy {
      RoundedRest(dy, dx, k);
    } else {
      RoundedRest(dx, dy, k);
    }
  }

  lemma RoundedRest(rise: nat, run: nat, k: nat)
    requires run > 0
    ensures 2 * (rise * k) + run == 2 * (run * Rounded(rise, run, k)) + Residue(rise, run, k)
  {
    var q, r := Division(2 * rise * k + run, 2 * run);
    assert 2 * run * q == 2 * (run * q) && 2 * rise * k == 2 * (rise * k);
  }

  /** With g the greatest common divisor of the extents, the largest doubled error of a flat
      line is 3 dx - 2 dy - dx mod 2g, and the lowest value before the second addition half
      of dx - 4 dy + 2g - dx mod 2g; a steep line has the mirror images. */
  predicate LineFits(dx: nat, dy: nat) {
    var g := Gcd(if dx >= dy then dx else dy, if dx >= dy then dy else dx);
    InInt(dx) && InInt(dy) &&
    (if dx == 0 && dy == 0 then true
     else if dx >= dy then
       InInt(3 * dx - 2 * dy - dx % (2 * g)) && dx - 4 * dy + 2 * g - dx % (2 * g) >= -0x1_0000_0000
     else
       InInt(2 * dx - 3 * dy + dy % (2 * g)) && (dx > 0 ==> dy % (2 * g) - 3 * dy >= -0x1_0000_0000))
  }

  /** For each single line, whatever its extents: the loop computes no value outside int
      exactly when the two extreme ones are inside. */
  lemma NoOverflowIff(dx: nat, dy: nat)
    ensures NoOverflow(dx, dy) <==> LineFits(dx, dy)
  {
    if dx > 0 || dy > 0 {
      hide Moves, ErrorTerm, Residue, Gcd;
      if NoOverflow(dx, dy) {
        if dx >= dy {
          FlatReaches(dx, dy);
        } else {
          SteepReaches(dx, dy);
        }
      }
      if LineFits(dx, dy) {
        forall k: nat | k < if dx >= dy then dx else dy
          ensures StepFits(dx, dy, ErrorTerm(dx, dy, Moves(dx, dy, k).0, Moves(dx, dy, k).1))
        {
          if dx >= dy {
            FlatFits(dx, dy, k);
          } else {
            SteepFits(dx, dy, k);
          }
        }
      }
    }
  }

  lemma FlatFits(dx: nat, dy: nat, k: nat)
    requires dx >= dy && k < dx && LineFits(dx, dy)
    ensures StepFits(dx, dy, ErrorTerm(dx, dy, Moves(dx, dy, k).0, Moves(dx, dy, k).1))
  {
    hide Moves, ErrorTerm, Residue, Gcd;
    var m, n := GcdDivides(dx, dy);
    ResidueClass(dy, dx, k, Gcd(dx, dy), m, n);
    ResidueClass(dy, dx, k + 1, Gcd(dx, dy), m, n);
    ErrorResidue(dx, dy, k);
    ErrorResidue(dx, dy, k + 1);
    var (a, b) := Moves(dx, dy, k);
    var e := ErrorTerm(dx, dy, a, b);
    ErrorDecides(dx, dy, k, e);
    ErrorMoves(dx, dy, a, b, 2 * e + dy >= 0, 2 * e <= dx);
  }

  lemma SteepFits(dx: nat, dy: nat, k: nat)
    requires dx < dy && k < dy && LineFits(dx, dy)
    ensures StepFits(dx, dy, ErrorTerm(dx, dy, Moves(dx, dy, k).0, Moves(dx, dy, k).1))
  {
    hide Moves, ErrorTerm, Residue, Gcd;
    var m, n := GcdDivides(dy, dx);
    var g := Gcd(dy, dx);
    ResidueClass(dx, dy, k, g, m, n);
    ErrorResidue(dx, dy, k);
    var e := ErrorTerm(dx, dy, Moves(dx, dy, k).0, Moves(dx, dy, k).1);
    if 2 * e + dy >= 0 {
      SteepAbove(dx, dy, g, m, n, Residue(dx, dy, k));
    }
  }

  /** A doubled error of a steep line that moves it sideways is at least dy mod 2g - dy. */
  lemma SteepAbove(dx: nat, dy: nat, g: nat, m: nat, n: nat, r: nat)
    requires g > 0 && dy == g * m && dx == g * n && r % (2 * g) == dy % (2 * g)
    requires 2 * dx - 2 * dy + r >= 0
    ensures 2 * dx - 2 * dy + r >= dy % (2 * g)
  {
    var x := 2 * dx - 2 * dy + r;
    assert x == r + 2 * g * (n - m);
    Shifted(r, 2 * g, n - m, x);
    ModBelow(x, 2 * g);
  }

  lemma FlatReaches(dx: nat, dy: nat)
    requires dx >= dy && dx > 0 && NoOverflow(dx, dy)
    ensures LineFits(dx, dy)
  {
    hide Moves, ErrorTerm, Residue, Gcd;
    var m, n := GcdDivides(dx, dy);
    var g := Gcd(dx, dy);
    var r := dx % (2 * g);
    ModBelow(dx, 2 * g);
    HighestResidue(dx, g, m, r);
    var low := ResidueReached(dy, dx, r);
    var high := ResidueReached(dy, dx, 2 * dx - 2 * g + r);
    ErrorResidue(dx, dy, low);
    ErrorResidue(dx, dy, high);
    assert StepFits(dx, dy, ErrorTerm(dx, dy, Moves(dx, dy, low).0, Moves(dx, dy, low).1));
    assert StepFits(dx, dy, ErrorTerm(dx, dy, Moves(dx, dy, high).0, Moves(dx, dy, high).1));
  }

  lemma HighestResidue(dx: nat, g: nat, m: nat, r: nat)
    requires g > 0 && dx == g * m && dx > 0 && r == dx % (2 * g)
    ensures g <= dx && r < 2 * g && r % (2 * g) == r && (2 * dx - 2 * g + r) % (2 * g) == r
  {
    assert m > 0;
    Distribute(g, 0, m - 1);
    assert 2 * dx - 2 * g + r == 2 * g * (m - 1) + r;
    DivideUnique(r, 2 * g, 0, r);
    DivideUnique(2 * dx - 2 * g + r, 2 * g, m - 1, r);
  }

  lemma SteepReaches(dx: nat, dy: nat)
    requires dx < dy && NoOverflow(dx, dy)
    ensures LineFits(dx, dy)
  {
    hide Moves, ErrorTerm, Residue, Gcd;
    var m, n := GcdDivides(dy, dx);
    var g := Gcd(dy, dx);
    var r := dy % (2 * g);
    ModBelow(dy, 2 * g);
    HighestResidue(dy, g, m, r);
    var low := ResidueReached(dx, dy, r);
    ErrorResidue(dx, dy, low);
    assert StepFits(dx, dy, ErrorTerm(dx, dy, Moves(dx, dy, low).0, Moves(dx, dy, low).1));
    if dx > 0 {
      SidewaysResidue(dx, dy, g, m, n, r);
      var side := ResidueReached(dx, dy, 2 * dy - 2 * dx + r);
      ErrorResidue(dx, dy, side);
      assert StepFits(dx, dy, ErrorTerm(dx, dy, Moves(dx, dy, side).0, Moves(dx, dy, side).1));
    }
  }

  lemma SidewaysResidue(dx: nat, dy: nat, g: nat, m: nat, n: nat, r: nat)
    requires g > 0 && dy == g * m && dx == g * n && 0 < dx < dy && r == dy % (2 * g)
    ensures 2 * dy - 2 * dx + r < 2 * dy && (2 * dy - 2 * dx + r) % (2 * g) == r
  {
    HighestResidue(dx, g, n, dx % (2 * g));
    DivideUnique(r, 2 * g, 0, r);
    assert 2 * dy - 2 * dx + r == r + 2 * g * (m - n);
    Shifted(r, 2 * g, m - n, 2 * dy - 2 * dx + r);
  }

  /** The first line that overflows: after half of its pixels the doubled error is past the end of int. */
  lemma FirstOverflow()
    ensures var (dx, dy, k) := (MAX_EXTENT + 1, 1, 0x1555_5556);
            k < dx && 2 * ErrorTerm(dx, dy, Moves(dx, dy, k).0, Moves(dx, dy, k).1) == 0x8000_0002
    ensures !NoOverflow(MAX_EXTENT + 1, 1)
  {
    var (dx, k) := (MAX_EXTENT + 1, 0x1555_5556);
    assert Moves(dx, 1, k) == (k, 1);
  }

  /** No line with extents up to m overflows exactly if m is at most MAX_EXTENT. */
  lemma ExtentIff(m: nat)
    ensures (forall dx: nat, dy: nat :: dx <= m && dy <= m ==> NoOverflow(dx, dy)) <==> m <= MAX_EXTENT
  {
    hide Moves, ErrorTerm, StepFits;
    if m <= MAX_EXTENT {
      forall dx: nat, dy: nat, k: nat | dx <= m && dy <= m && k < if dx >= dy then dx else dy
        ensures StepFits(dx, dy, ErrorTerm(dx, dy, Moves(dx, dy, k).0, Moves(dx, dy, k).1))
      {
        var e := ErrorTerm(dx, dy, Moves(dx, dy, k).0, Moves(dx, dy, k).1);
        ErrorDecides(dx, dy, k, e);
        BoundsFit(dx, dy, e);
      }
    } else {
      FirstOverflow();
    }
  }

  /** The error term after the moves it decided. */
  lemma ErrorMoves(dx: nat, dy: nat, a: nat, b: nat, moveX: bool, moveY: bool)
    ensures var e := ErrorTerm(dx, dy, a, b);
            var a', b' := if moveX then a + 1 else a, if moveY then b + 1 else b;
            ErrorTerm(dx, dy, a', b') == e - (if moveX then dy else 0) + (if moveY then dx else 0)
  {
  }

  /** Before its end the line is not at its end point. */
  lemma NotThere(x0: int, y0: int, x1: int, y1: int, k: nat)
    requires k < Length(x0, y0, x1, y1)
    ensures PointAt(x0, y0, x1, y1, k) != (x1, y1)
  {
    StepReaches(x0, x1);
    StepReaches(y0, y1);
    hide Rounded;
  }

  /** The loop's variables when k pixels are behind it. */
  ghost predicate State(x0: int, y0: int, x1: int, y1: int, k: nat, x: int, y: int, error: int) {
    var dx, dy := Abs(x1 - x0), Abs(y1 - y0);
    var (a, b) := Moves(dx, dy, k);
    k <= Length(x0, y0, x1, y1) && (x, y) == PointAt(x0, y0, x1, y1, k) && error == ErrorTerm(dx, dy, a, b)
  }

  lemma StateStart(x0: int, y0: int, x1: int, y1: int)
    ensures State(x0, y0, x1, y1, 0, x0, y0, Abs(x1 - x0) - Abs(y1 - y0))
  {
    MovesStart(Abs(x1 - x0), Abs(y1 - y0));
    LineEnds(x0, y0, x1, y1);
  }

  /** The loop stops after the last pixel, not before it. */
  lemma StateEnd(x0: int, y0: int, x1: int, y1: int, k: nat, x: int, y: int, error: int)
    requires State(x0, y0, x1, y1, k, x, y, error)
    ensures k == Length(x0, y0, x1, y1) <==> x == x1 && y == y1
  {
    LineEnds(x0, y0, x1, y1);
    if k < Length(x0, y0, x1, y1) {
      NotThere(x0, y0, x1, y1, k);
    }
  }

  lemma StateStep(x0: int, y0: int, x1: int, y1: int, k: nat, x: int, y: int, error: int)
    requires State(x0, y0, x1, y1, k, x, y, error) && k < Length(x0, y0, x1, y1)
    ensures var dx, dy := Abs(x1 - x0), Abs(y1 - y0);
            var moveX, moveY := 2 * error + dy >= 0, 2 * error <= dx;
            && State(x0, y0, x1, y1, k + 1, if moveX then x + Step(x0, x1) else x, if moveY then y + Step(y0, y1) else y,
                     error - (if moveX then dy else 0) + (if moveY then dx else 0))
            && (NoOverflow(dx, dy) ==> StepFits(dx, dy, error))
  {
    var dx, dy := Abs(x1 - x0), Abs(y1 - y0);
    var (a, b) := Moves(dx, dy, k);
    ErrorDecides(dx, dy, k, error);
    ErrorMoves(dx, dy, a, b, 2 * error + dy >= 0, 2 * error <= dx);
    NextMultiple(Step(x0, x1), a);
    NextMultiple(Step(y0, y1), b);
    hide Moves, Step;
  }

  /** The pixels stay between the end points. */
  lemma StateInside(x0: int, y0: int, x1: int, y1: int, k: nat, x: int, y: int, error: int)
    requires State(x0, y0, x1, y1, k, x, y, error)
    ensures x0 <= x <= x1 || x1 <= x <= x0
    ensures y0 <= y <= y1 || y1 <= y <= y0
  {
    var dx, dy := Abs(x1 - x0), Abs(y1 - y0);
    var major, minor := if dx >= dy then dx else dy, if dx >= dy then dy else dx;
    if major > 0 {
      RoundedInside(minor, major, k);
    }
    hide Rounded;
  }

  lemma RoundedInside(rise: nat, run: nat, k: nat)
    requires 0 < run && k <= run
    ensures Rounded(rise, run, k) <= rise
  {
    RoundedIsNearest(rise, run, k);
    MultiplesApart(run, rise, Rounded(rise, run, k));
    MultiplesApart(rise, k, run);
    assert rise * run == run * rise;
  }

  /** The cast (int)u: the int with the same 32 bits. */
  function ToInt(u: nat): (i: int32)
    requires u < TWO_32
    ensures i as int % 0x1_0000_0000 == u
  {
    if u < 0x8000_0000 then u as int32 else (u - TWO_32) as int32
  }

  function Target(buffer: Framebuffer?, screen: Framebuffer?): Framebuffer? {
    if buffer == null then screen else buffer
  }

  /** The end of the loop body: the doubled error decides which coordinates move. */
  method Advance(x: int32, y: int32, e: int32, deltaX: int32, deltaY: int32, stepX: int32, stepY: int32,
                 ghost x0: int, ghost y0: int, ghost x1: int, ghost y1: int, ghost k: nat)
    returns (x': int32, y': int32, error: int32)
    requires State(x0, y0, x1, y1, k, x as int, y as int, e as int) && k < Length(x0, y0, x1, y1)
    requires InInt(x0) && InInt(y0) && InInt(x1) && InInt(y1) && NoOverflow(Abs(x1 - x0), Abs(y1 - y0))
    requires deltaX as int == Abs(x1 - x0) && deltaY as int == -1 * Abs(y1 - y0)
    requires stepX as int == Step(x0, x1) && stepY as int == Step(y0, y1)
    ensures State(x0, y0, x1, y1, k + 1, x' as int, y' as int, error as int)
  {
    hide State, Length, Abs, Step, Moves, ErrorTerm, NoOverflow;
    x', y', error := x, y, e;
    StateStep(x0, y0, x1, y1, k, x as int, y as int, e as int);
    StateInside(x0, y0, x1, y1, k + 1,
                x as int + if 2 * e as int >= deltaY as int then stepX as int else 0,
                y as int + if 2 * e as int <= deltaX as int then stepY as int else 0,
                e as int + (if 2 * e as int >= deltaY as int then deltaY as int else 0)
                         + (if 2 * e as int <= deltaX as int then deltaX as int else 0));
    var error2 := 2 * error;
    if error2 >= deltaY {
      error := error + deltaY;
      x' := x' + stepX;
    }
    if error2 <= deltaX {
      error := error + deltaX;
      y' := y' + stepY;
    }
  }

  /** draw_line_q, and draw_line when there is no buffer: plots exactly the pixels
      of the rounded line, in order, and stops at its end point. */
  method DrawLine(buffer: Framebuffer?, screen: Framebuffer?, sx: nat, sy: nat, dx: nat, dy: nat, color: nat)
    requires buffer != null ==> buffer.Valid()
    requires screen != null ==> screen.Valid()
    requires sx < TWO_32 && sy < TWO_32 && dx < TWO_32 && dy < TWO_32
    requires LineFits(Abs(ToInt(dx) as int - ToInt(sx) as int), Abs(ToInt(dy) as int - ToInt(sy) as int))
    modifies if buffer != null then {buffer.address} else if screen != null then {screen.address} else {}
    ensures screen == null && buffer != null ==> buffer.address[..] == old(buffer.address[..])
    ensures screen != null ==>
              var t := Target(buffer, screen);
              var points := Line(ToInt(sx) as int, ToInt(sy) as int, ToInt(dx) as int, ToInt(dy) as int);
              && t.address[..] == Plot(old(t.address[..]), t.width, t.height, t.pitch, points, color)
              && Coloured(old(t.address[..]), t.address[..], t.width, t.height, t.pitch, points, color)
  {
    hide Coloured;
    hide State, PlotOne, Length, PointAt, Framebuffer.Valid, Moves, ErrorTerm, StepFits, LineFits;
    NoOverflowIff(Abs(ToInt(dx) as int - ToInt(sx) as int), Abs(ToInt(dy) as int - ToInt(sy) as int));
    var x0, y0, x1, y1 := ToInt(sx), ToInt(sy), ToInt(dx), ToInt(dy);
    var deltaX: int32 := if x1 - x0 < 0 then x0 - x1 else x1 - x0;
    var stepX: int32 := if x0 < x1 then 1 else -1;
    var deltaY: int32 := if y1 - y0 < 0 then y1 - y0 else y0 - y1;
    var stepY: int32 := if y0 < y1 then 1 else -1;
    var error: int32 := deltaX + deltaY;

    ghost var X0, Y0, X1, Y1 := x0 as int, y0 as int, x1 as int, y1 as int;
    ghost var points, k := Line(X0, Y0, X1, Y1), 0;
    StateStart(X0, Y0, X1, Y1);
    while true
      invariant k < |points| && State(X0, Y0, X1, Y1, k, x0 as int, y0 as int, error as int)
      invariant screen == null && buffer != null ==> buffer.address[..] == old(buffer.address[..])
      invariant screen != null ==>
                  var t := Target(buffer, screen);
                  t.address[..] == Plot(old(t.address[..]), t.width, t.height, t.pitch, points[..k], color)
      decreases |points| - k
    {
      StatePoint(X0, Y0, X1, Y1, k, x0 as int, y0 as int, error as int);
      assert points[..k + 1][..k] == points[..k] && points[k] == (x0 as int, y0 as int);
      PlotCast(buffer, screen, (x0 as int, y0 as int), color);
      PutPixel(buffer, screen, Cast(x0 as int), Cast(y0 as int), color);
      StateEnd(X0, Y0, X1, Y1, k, x0 as int, y0 as int, error as int);
      if x0 == x1 && y0 == y1 {
        break;
      }
      x0, y0, error := Advance(x0, y0, error, deltaX, deltaY, stepX, stepY, X0, Y0, X1, Y1, k);
      k := k + 1;
    }
    assert points[..|points|] == points;
    if screen != null {
      ghost var t := Target(buffer, screen);
      TargetFits(buffer, screen);
      PlotColours(old(t.address[..]), t.width, t.height, t.pitch, points, color);
    }
  }

  lemma StatePoint(x0: int, y0: int, x1: int, y1: int, k: nat, x: int, y: int, error: int)
    requires State(x0, y0, x1, y1, k, x, y, error)
    ensures k < |Line(x0, y0, x1, y1)| && Line(x0, y0, x1, y1)[k] == (x, y)
  {
  }

  lemma TargetFits(buffer: Framebuffer?, screen: Framebuffer?)
    requires screen != null && screen.Valid() && (buffer != null ==> buffer.Valid())
    ensures var t := Target(buffer, screen);
            t != null && t.width <= t.pitch && t.pitch * t.height <= t.address.Length
  {
  }

  lemma PlotCast(buffer: Framebuffer?, screen: Framebuffer?, p: (int, int), color: nat)
    ensures screen != null ==>
              var t := Target(buffer, screen);
              forall pixels :: PlotOne(pixels, t.width, t.height, t.pitch, (Cast(p.0), Cast(p.1)), color)
                               == PlotOne(pixels, t.width, t.height, t.pitch, p, color)
  {
  }

  lemma MovesStart(dx: nat, dy: nat)
    ensures Moves(dx, dy, 0) == (0, 0)
  {
    RoundedEnds(dx, dy);
    RoundedEnds(dy, dx);
  }
}

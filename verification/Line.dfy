/** The line rasteriser of the ProtoPCIem display: an error-driven loop that plots, pixel by
pixel, the rounded ideal line (examples/protopciem/qemu/protopciem_backend.c). */
module Line {
  import opened Bytes

  const FB_WIDTH: nat := 640
  const FB_HEIGHT: nat := 480
  const FB_SIZE: nat := FB_WIDTH * FB_HEIGHT * 3

  datatype Colour = Colour(r: byte, g: byte, b: byte)

  datatype Point = Point(x: int, y: int) {
    predicate OnScreen() {
      0 <= x < FB_WIDTH && 0 <= y < FB_HEIGHT
    }

    function Index(): (i: nat)
      requires OnScreen()
      ensures i + 2 < FB_SIZE
    {
      (y * FB_WIDTH + x) * 3
    }
  }

  function Abs(a: int): nat { if a < 0 then -a else a }

  function Sign(from: int, to: int): int { if from < to then 1 else -1 }

  // ---- the ideal line, rounded ----

  /** `minor * k / major`, rounded to the nearest integer, halves upwards. */
  function Rounded(major: nat, minor: nat, k: nat): nat
    requires major > 0
  {
    (2 * (minor * k) + major) / (2 * major)
  }

  /** The distance between `major * j` and `minor * k`, twice. */
  function Deviation(major: nat, minor: nat, k: nat, j: nat): int {
    2 * (major * j - minor * k)
  }

  lemma RoundedIsNearest(major: nat, minor: nat, k: nat)
    requires major > 0
    ensures 0 < Deviation(major, minor, k, Rounded(major, minor, k)) + major <= 2 * major
  {
  }

  lemma NearestIsRounded(major: nat, minor: nat, k: nat, j: nat)
    requires major > 0 && 0 < Deviation(major, minor, k, j) + major <= 2 * major
    ensures j == Rounded(major, minor, k)
  {
    var q := Rounded(major, minor, k);
    RoundedIsNearest(major, minor, k);
    assert major * j - major * q == major * (j - q);
    BelowOne(major, j - q);
  }

  lemma BelowOne(m: nat, d: int)
    requires m > 0 && m * d < m && 0 < m * d + m
    ensures d == 0
  {
  }

  /** The line from one point to another. */
  datatype Segment = Segment(from: Point, to: Point) {
    function Dx(): nat { Abs(to.x - from.x) }
    function Dy(): nat { Abs(to.y - from.y) }

    /** The number of steps: the longer of the two sides. */
    function Steps(): nat { if Dx() >= Dy() then Dx() else Dy() }

    /** The point `i` across and `j` up. */
    function At(i: nat, j: nat): Point {
      Point(from.x + Sign(from.x, to.x) * i, from.y + Sign(from.y, to.y) * j)
    }

    /** The `k`-th point of the line: `k` along the longer side, rounded along the other. */
    function Pixel(k: nat): Point {
      if Dx() == 0 && Dy() == 0 then from
      else if Dx() >= Dy() then At(k, Rounded(Dx(), Dy(), k))
      else At(Rounded(Dy(), Dx(), k), k)
    }

    function Pixels(): seq<Point> {
      seq(Steps() + 1, k requires 0 <= k <= Steps() => Pixel(k))
    }
  }

  lemma RoundedZero(major: nat, minor: nat)
    requires major > 0
    ensures Rounded(major, minor, 0) == 0
  {
  }

  lemma RoundedFull(major: nat, minor: nat)
    requires major > 0
    ensures Rounded(major, minor, major) == minor
  {
    assert major * minor == minor * major;
    NearestIsRounded(major, minor, major, minor);
  }

  /** One step further the rounded line stays or moves by one; it moves exactly when staying
      would leave it more than half a unit behind, or just half. */
  lemma RoundedNext(major: nat, minor: nat, k: nat)
    requires major > 0 && minor <= major
    ensures var j := Rounded(major, minor, k);
            var up := Deviation(major, minor, k, j) <= 2 * minor - major;
            Rounded(major, minor, k + 1) == if up then j + 1 else j
  {
    var j := Rounded(major, minor, k);
    RoundedIsNearest(major, minor, k);
    Distribute(minor, k);
    Distribute(major, j);
    if Deviation(major, minor, k, j) <= 2 * minor - major {
      NearestIsRounded(major, minor, k + 1, j + 1);
    } else {
      NearestIsRounded(major, minor, k + 1, j);
    }
  }

  lemma Distribute(a: nat, b: nat)
    ensures a * (b + 1) == a * b + a
  {
  }

  lemma {:induction false} RoundedInside(major: nat, minor: nat, k: nat)
    requires major > 0 && k <= major && minor <= major
    ensures Rounded(major, minor, k) <= minor
    decreases major - k
  {
    if k == major {
      RoundedFull(major, minor);
    } else {
      RoundedInside(major, minor, k + 1);
      RoundedNext(major, minor, k);
    }
  }

  /** The line starts and ends at its end points. */
  lemma LineMeetsItsEnds(s: Segment)
    ensures s.Pixels()[0] == s.from && s.Pixels()[s.Steps()] == s.to
  {
    if s.Steps() > 0 {
      var major, minor := s.Steps(), if s.Dx() >= s.Dy() then s.Dy() else s.Dx();
      RoundedZero(major, minor);
      RoundedFull(major, minor);
      EndPoint(s);
    }
  }

  lemma EndPoint(s: Segment)
    ensures s.At(0, 0) == s.from && s.At(s.Dx(), s.Dy()) == s.to
  {
  }

  /** Successive pixels are neighbours, sharing a side or a corner. */
  lemma LineIsConnected(s: Segment, k: nat)
    requires k < s.Steps()
    ensures var p, q := s.Pixel(k), s.Pixel(k + 1);
            p != q && Abs(p.x - q.x) <= 1 && Abs(p.y - q.y) <= 1
  {
    if s.Dx() >= s.Dy() {
      RoundedNext(s.Dx(), s.Dy(), k);
      AtNext(s, k, Rounded(s.Dx(), s.Dy(), k));
    } else {
      RoundedNext(s.Dy(), s.Dx(), k);
      AtNext(s, Rounded(s.Dy(), s.Dx(), k), k);
    }
  }

  lemma AtNext(s: Segment, i: nat, j: nat)
    ensures s.At(i + 1, j) == Point(s.At(i, j).x + Sign(s.from.x, s.to.x), s.At(i, j).y)
    ensures s.At(i, j + 1) == Point(s.At(i, j).x, s.At(i, j).y + Sign(s.from.y, s.to.y))
    ensures s.At(i + 1, j + 1) == Point(s.At(i, j).x + Sign(s.from.x, s.to.x), s.At(i, j).y + Sign(s.from.y, s.to.y))
  {
  }

  /** Every pixel lies within half a unit of the ideal line, measured along the shorter side:
      twice the distance between it and the line, times the longer side, is at most that side. */
  lemma LineIsWithinHalf(s: Segment, k: nat)
    requires k <= s.Steps()
    ensures var across, up := Abs(s.Pixel(k).x - s.from.x), Abs(s.Pixel(k).y - s.from.y);
            if s.Dx() >= s.Dy() then across == k && Abs(2 * (s.Dx() * up - s.Dy() * across)) <= s.Dx()
            else up == k && Abs(2 * (s.Dy() * across - s.Dx() * up)) <= s.Dy()
  {
    if s.Steps() > 0 {
      if s.Dx() >= s.Dy() {
        RoundedIsNearest(s.Dx(), s.Dy(), k);
        AtAcross(s, k, Rounded(s.Dx(), s.Dy(), k));
      } else {
        RoundedIsNearest(s.Dy(), s.Dx(), k);
        AtAcross(s, Rounded(s.Dy(), s.Dx(), k), k);
      }
    }
  }

  lemma AtAcross(s: Segment, i: nat, j: nat)
    ensures Abs(s.At(i, j).x - s.from.x) == i && Abs(s.At(i, j).y - s.from.y) == j
  {
  }

  // ---- the frame buffer ----

  /** A pixel off the screen is not drawn. */
  function Plot(fb: seq<byte>, p: Point, c: Colour): (r: seq<byte>)
    requires |fb| == FB_SIZE
    ensures |r| == FB_SIZE
  {
    if p.OnScreen() then fb[p.Index() := c.r][p.Index() + 1 := c.g][p.Index() + 2 := c.b] else fb
  }

  function PlotAll(fb: seq<byte>, ps: seq<Point>, c: Colour): (r: seq<byte>)
    requires |fb| == FB_SIZE
    ensures |r| == FB_SIZE
  {
    if ps == [] then fb else Plot(PlotAll(fb, ps[..|ps| - 1], c), ps[|ps| - 1], c)
  }

  function ColourAt(fb: seq<byte>, p: Point): Colour
    requires |fb| == FB_SIZE && p.OnScreen()
  {
    Colour(fb[p.Index()], fb[p.Index() + 1], fb[p.Index() + 2])
  }

  lemma PlotChangesOne(fb: seq<byte>, p: Point, c: Colour, q: Point)
    requires |fb| == FB_SIZE && q.OnScreen()
    ensures ColourAt(Plot(fb, p, c), q) == if p == q then c else ColourAt(fb, q)
  {
  }

  /** After plotting, a pixel has the new colour when it is one of the points, and its old one
      otherwise. */
  lemma {:induction false} PlotAllColours(fb: seq<byte>, ps: seq<Point>, c: Colour, q: Point)
    requires |fb| == FB_SIZE && q.OnScreen()
    ensures ColourAt(PlotAll(fb, ps, c), q) == if q in ps then c else ColourAt(fb, q)
    decreases |ps|
  {
    if ps != [] {
      var n := |ps| - 1;
      PlotAllColours(fb, ps[..n], c, q);
      PlotChangesOne(PlotAll(fb, ps[..n], c), ps[n], c, q);
      assert ps == ps[..n] + [ps[n]];
    }
  }

  // ---- the loop ----

  /** The error term when the loop stands `i` across and `j` up. */
  function ErrorAt(s: Segment, i: nat, j: nat): int {
    s.Dx() * (j + 1) - s.Dy() * (i + 1)
  }

  /** Where the loop stands after `k` turns. */
  ghost predicate Standing(s: Segment, k: nat, i: nat, j: nat) {
    && k <= s.Steps()
    && if s.Dx() == 0 && s.Dy() == 0 then i == 0 && j == 0
       else if s.Dx() >= s.Dy() then i == k && j == Rounded(s.Dx(), s.Dy(), k)
       else i == Rounded(s.Dy(), s.Dx(), k) && j == k
  }

  lemma StandingStarts(s: Segment)
    ensures Standing(s, 0, 0, 0) && ErrorAt(s, 0, 0) == s.Dx() - s.Dy()
  {
  }

  lemma StandingIsPixel(s: Segment, k: nat, i: nat, j: nat)
    requires Standing(s, k, i, j)
    ensures s.At(i, j) == s.Pixel(k) && i <= s.Dx() && j <= s.Dy()
    ensures (i == s.Dx() && j == s.Dy()) <==> k == s.Steps()
  {
    if s.Steps() > 0 {
      var major, minor := s.Steps(), if s.Dx() >= s.Dy() then s.Dy() else s.Dx();
      RoundedInside(major, minor, k);
      RoundedFull(major, minor);
    } else {
      EndPoint(s);
    }
  }

  /** Only the last point is the end point. */
  lemma AtIsEndOnlyAtEnd(s: Segment, i: nat, j: nat)
    requires i <= s.Dx() && j <= s.Dy()
    ensures s.At(i, j) == s.to <==> i == s.Dx() && j == s.Dy()
  {
  }

  predicate MovesAcross(s: Segment, i: nat, j: nat) { 2 * ErrorAt(s, i, j) + s.Dy() >= 0 }
  predicate MovesUp(s: Segment, i: nat, j: nat) { 2 * ErrorAt(s, i, j) <= s.Dx() }

  /** The two tests on the error term take exactly the steps of the rounded line. */
  lemma StepIsRounded(s: Segment, k: nat, i: nat, j: nat)
    requires Standing(s, k, i, j) && k < s.Steps()
    ensures Standing(s, k + 1, if MovesAcross(s, i, j) then i + 1 else i, if MovesUp(s, i, j) then j + 1 else j)
  {
    Distribute(s.Dx(), j);
    Distribute(s.Dy(), i);
    if s.Dx() >= s.Dy() {
      RoundedIsNearest(s.Dx(), s.Dy(), k);
      RoundedNext(s.Dx(), s.Dy(), k);
    } else {
      RoundedIsNearest(s.Dy(), s.Dx(), k);
      RoundedNext(s.Dy(), s.Dx(), k);
    }
  }

  lemma ErrorMoves(s: Segment, i: nat, j: nat)
    ensures ErrorAt(s, i + 1, j) == ErrorAt(s, i, j) - s.Dy()
    ensures ErrorAt(s, i, j + 1) == ErrorAt(s, i, j) + s.Dx()
    ensures ErrorAt(s, i + 1, j + 1) == ErrorAt(s, i, j) - s.Dy() + s.Dx()
  {
  }

  /** The variables of the loop. */
  datatype Cursor = Cursor(x: int, y: int, err: int)

  /** What one turn does to them. */
  function Turn(s: Segment, c: Cursor): Cursor {
    var e2 := 2 * c.err;
    var across, up := e2 + s.Dy() >= 0, e2 <= s.Dx();
    Cursor(if across then c.x + Sign(s.from.x, s.to.x) else c.x,
           if up then c.y + Sign(s.from.y, s.to.y) else c.y,
           c.err - (if across then s.Dy() else 0) + (if up then s.Dx() else 0))
  }

  /** After `k` turns the loop stands on the `k`-th pixel. */
  ghost predicate OnPixel(s: Segment, k: nat, c: Cursor) {
    exists i: nat, j: nat :: Standing(s, k, i, j) && c == Cursor(s.At(i, j).x, s.At(i, j).y, ErrorAt(s, i, j))
  }

  lemma StartsOnPixel(s: Segment)
    ensures OnPixel(s, 0, Cursor(s.from.x, s.from.y, s.Dx() - s.Dy()))
  {
    StandingStarts(s);
    EndPoint(s);
  }

  lemma OnPixelIs(s: Segment, k: nat, c: Cursor)
    requires OnPixel(s, k, c)
    ensures k <= s.Steps() && Point(c.x, c.y) == s.Pixel(k)
    ensures Point(c.x, c.y) == s.to <==> k == s.Steps()
  {
    var i: nat, j: nat :| Standing(s, k, i, j) && c == Cursor(s.At(i, j).x, s.At(i, j).y, ErrorAt(s, i, j));
    StandingIsPixel(s, k, i, j);
    AtIsEndOnlyAtEnd(s, i, j);
  }

  lemma TurnKeepsOnPixel(s: Segment, k: nat, c: Cursor, turned: Cursor)
    requires OnPixel(s, k, c) && k < s.Steps() && turned == Turn(s, c)
    ensures OnPixel(s, k + 1, turned)
  {
    var i: nat, j: nat :| Standing(s, k, i, j) && c == Cursor(s.At(i, j).x, s.At(i, j).y, ErrorAt(s, i, j));
    StepIsRounded(s, k, i, j);
    ErrorMoves(s, i, j);
    AtNext(s, i, j);
    var i2, j2 := if MovesAcross(s, i, j) then i + 1 else i, if MovesUp(s, i, j) then j + 1 else j;
    assert Turn(s, c) == Cursor(s.At(i2, j2).x, s.At(i2, j2).y, ErrorAt(s, i2, j2));
  }

  method DrawPixel(fb: array<byte>, p: Point, c: Colour)
    requires fb.Length == FB_SIZE
    modifies fb
    ensures fb[..] == Plot(old(fb[..]), p, c)
  {
    if p.x < 0 || p.x >= FB_WIDTH || p.y < 0 || p.y >= FB_HEIGHT { return; }
    var idx := (p.y * FB_WIDTH + p.x) * 3;
    fb[idx] := c.r;
    fb[idx + 1] := c.g;
    fb[idx + 2] := c.b;
  }

  /** The frame buffer with the first `k` pixels drawn. */
  function Drawn(fb: seq<byte>, s: Segment, c: Colour, k: nat): (r: seq<byte>)
    requires |fb| == FB_SIZE && k <= s.Steps() + 1
    ensures |r| == FB_SIZE
  {
    PlotAll(fb, s.Pixels()[..k], c)
  }

  lemma DrawnNext(fb: seq<byte>, s: Segment, c: Colour, k: nat, p: Point)
    requires |fb| == FB_SIZE && k <= s.Steps() && p == s.Pixel(k)
    ensures Plot(Drawn(fb, s, c, k), p, c) == Drawn(fb, s, c, k + 1)
  {
    var ps := s.Pixels()[..k + 1];
    assert ps[..k] == s.Pixels()[..k] && ps[k] == s.Pixel(k);
  }

  lemma DrawnAll(fb: seq<byte>, s: Segment, c: Colour)
    requires |fb| == FB_SIZE
    ensures Drawn(fb, s, c, 0) == fb && Drawn(fb, s, c, s.Steps() + 1) == PlotAll(fb, s.Pixels(), c)
  {
    assert s.Pixels()[..s.Steps() + 1] == s.Pixels();
  }

  /** The loop stands on a pixel of the line, and those before it are drawn. */
  ghost predicate Drawing(s: Segment, was: seq<byte>, c: Colour, k: nat, cursor: Cursor, now: seq<byte>)
    requires |was| == FB_SIZE
  {
    OnPixel(s, k, cursor) && k <= s.Steps() && now == Drawn(was, s, c, k)
  }

  lemma DrawingStarts(s: Segment, was: seq<byte>, c: Colour, cursor: Cursor)
    requires |was| == FB_SIZE && cursor == Cursor(s.from.x, s.from.y, s.Dx() - s.Dy())
    ensures Drawing(s, was, c, 0, cursor, was)
  {
    StartsOnPixel(s);
    DrawnAll(was, s, c);
  }

  /** One pixel more is drawn: the last one at the end point, and nowhere else. */
  lemma PixelDrawn(s: Segment, was: seq<byte>, c: Colour, k: nat, cursor: Cursor, now: seq<byte>, next: seq<byte>)
    requires |was| == FB_SIZE && Drawing(s, was, c, k, cursor, now) && next == Plot(now, Point(cursor.x, cursor.y), c)
    ensures k <= s.Steps() && next == Drawn(was, s, c, k + 1)
    ensures if cursor.x == s.to.x && cursor.y == s.to.y then next == PlotAll(was, s.Pixels(), c) else k < s.Steps()
  {
    OnPixelIs(s, k, cursor);
    DrawnNext(was, s, c, k, Point(cursor.x, cursor.y));
    DrawnAll(was, s, c);
  }

  /** The two tests of the loop turn the cursor to the next pixel. */
  lemma DrawingGoesOn(s: Segment, was: seq<byte>, c: Colour, k: nat, cursor: Cursor, now: seq<byte>, next: seq<byte>,
                      dy: int, sx: int, sy: int, turned: Cursor)
    requires |was| == FB_SIZE && Drawing(s, was, c, k, cursor, now) && k < s.Steps() && next == Drawn(was, s, c, k + 1)
    requires dy == 0 - s.Dy() && sx == Sign(s.from.x, s.to.x) && sy == Sign(s.from.y, s.to.y)
    requires var e2 := 2 * cursor.err;
             turned == Cursor(if e2 >= dy then cursor.x + sx else cursor.x,
                              if e2 <= s.Dx() then cursor.y + sy else cursor.y,
                              cursor.err + (if e2 >= dy then dy else 0) + (if e2 <= s.Dx() then s.Dx() else 0))
    ensures Drawing(s, was, c, k + 1, turned, next)
  {
    TurnKeepsOnPixel(s, k, cursor, turned);
  }

  /** Plots exactly the pixels of the rounded line, in order: one more than the longer side. */
  method DrawLine(fb: array<byte>, from: Point, to: Point, c: Colour)
    requires fb.Length == FB_SIZE
    modifies fb
    ensures fb[..] == PlotAll(old(fb[..]), Segment(from, to).Pixels(), c)
  {
    ghost var s := Segment(from, to);
    var dx, sx := Abs(to.x - from.x), if from.x < to.x then 1 else -1;
    var dy: int, sy := 0 - Abs(to.y - from.y), if from.y < to.y then 1 else -1;
    var x, y, err := from.x, from.y, dx + dy;
    ghost var k: nat, was := 0, fb[..];
    DrawingStarts(s, was, c, Cursor(x, y, err));
    while true
      invariant Drawing(s, was, c, k, Cursor(x, y, err), fb[..])
      decreases s.Steps() - k
    {
      ghost var cursor, now := Cursor(x, y, err), fb[..];
      DrawPixel(fb, Point(x, y), c);
      ghost var next := fb[..];
      PixelDrawn(s, was, c, k, cursor, now, next);
      if x == to.x && y == to.y {
        break;
      }
      var e2 := 2 * err;
      if e2 >= dy {
        err := err + dy;
        x := x + sx;
      }
      if e2 <= dx {
        err := err + dx;
        y := y + sy;
      }
      DrawingGoesOn(s, was, c, k, cursor, now, next, dy, sx, sy, Cursor(x, y, err));
      k := k + 1;
    }
  }
}

/** Integer rasterisation: lines, rectangles, disks and circles, each against the exact set of pixels it sets. */
module Raster {
  import opened Common
  import opened Framebuffer

  // ---- lines ----

  function Abs(i: int): nat { if i < 0 then -i else i }

  function Sign(a: int, b: int): int { if a < b then 1 else -1 }

  /** Steps along the longer axis, and the whole number nearest to k * minor / major, halves rounded up. */
  function Major(a: Point, b: Point): nat { Max(Abs(b.x - a.x), Abs(b.y - a.y)) }

  function Rounded(k: nat, minor: nat, major: nat): nat
    requires 0 < major
  {
    (2 * k * minor + major) / (2 * major)
  }

  /** The steps made along each axis when k of the longer one's have been made. */
  function StepsX(a: Point, b: Point, k: nat): nat {
    if Abs(b.y - a.y) <= Abs(b.x - a.x) then k
    else Rounded(k, Abs(b.x - a.x), Abs(b.y - a.y))
  }

  function StepsY(a: Point, b: Point, k: nat): nat {
    if Abs(b.y - a.y) > Abs(b.x - a.x) then k
    else if Major(a, b) == 0 then 0
    else Rounded(k, Abs(b.y - a.y), Abs(b.x - a.x))
  }

  /** The k-th pixel of the ideal segment from a to b, rounded to the grid. */
  function LinePoint(a: Point, b: Point, k: nat): (int, int) {
    (a.x + Sign(a.x, b.x) * StepsX(a, b, k), a.y + Sign(a.y, b.y) * StepsY(a, b, k))
  }

  ghost function LinePoints(a: Point, b: Point, n: nat): iset<(int, int)> {
    iset k: nat | k < n :: LinePoint(a, b, k)
  }

  /** Rounding to nearest, characterised by the error it leaves. */
  lemma RoundedIs(k: nat, minor: nat, major: int, j: int)
    requires 0 < major && -major < 2 * (j * major - k * minor) <= major
    ensures Rounded(k, minor, major) == j
  {
    var a, d := 2 * k * minor + major, 2 * major;
    var r := a - j * d;
    assert r == major - 2 * (j * major - k * minor);
    DivModUnique(a, j, r, d);
  }

  lemma RoundedError(k: nat, minor: nat, major: int)
    requires 0 < major
    ensures -major < 2 * (Rounded(k, minor, major) * major - k * minor) <= major
  {
    var a, d := 2 * k * minor + major, 2 * major;
    var j := Rounded(k, minor, major);
    assert a == j * d + a % d && 0 <= a % d < d;
    assert a % d == major - 2 * (j * major - k * minor);
  }

  /** Every plotted step stays within half a pixel of the ideal segment, on both axes. */
  lemma HalfPixel(a: Point, b: Point, k: nat)
    requires 0 < Major(a, b)
    ensures var dx, dy := Abs(b.x - a.x), Abs(b.y - a.y);
            2 * Abs(StepsY(a, b, k) * dx - StepsX(a, b, k) * dy) <= Major(a, b)
  {
    var dx, dy := Abs(b.x - a.x), Abs(b.y - a.y);
    if dy <= dx {
      RoundedError(k, dy, dx);
    } else {
      RoundedError(k, dx, dy);
    }
  }

  /** The k-th pixel: k steps along the longer extent towards b, and within half a pixel of the segment. */
  lemma LinePixel(a: Point, b: Point, k: nat)
    requires k <= Major(a, b) && 0 < Major(a, b)
    ensures var (px, py) := LinePoint(a, b, k);
            var w, h := b.x - a.x, b.y - a.y;
            && Max(Abs(px - a.x), Abs(py - a.y)) == k
            && Min(a.x, b.x) <= px <= Max(a.x, b.x) && Min(a.y, b.y) <= py <= Max(a.y, b.y)
            && 2 * Abs((py - a.y) * w - (px - a.x) * h) <= Max(Abs(w), Abs(h))
  {
    hide LinePoint, StepsX, StepsY, Rounded;
    HalfPixel(a, b, k);
    StepsWithin(a, b, k);
    var i, j := StepsX(a, b, k), StepsY(a, b, k);
    var sx, sy := Sign(a.x, b.x), Sign(a.y, b.y);
    LinePointIs(a, b, k);
    SignedProducts(sx, sy, i, j, b.x - a.x, b.y - a.y);
  }

  lemma LinePointIs(a: Point, b: Point, k: nat)
    ensures LinePoint(a, b, k) ==
              (a.x + Sign(a.x, b.x) * StepsX(a, b, k), a.y + Sign(a.y, b.y) * StepsY(a, b, k))
  {
  }

  lemma StepsWithin(a: Point, b: Point, k: nat)
    requires k <= Major(a, b) && 0 < Major(a, b)
    ensures StepsX(a, b, k) <= Abs(b.x - a.x) && StepsY(a, b, k) <= Abs(b.y - a.y)
    ensures Max(StepsX(a, b, k), StepsY(a, b, k)) == k
  {
    var dx, dy := Abs(b.x - a.x), Abs(b.y - a.y);
    if dy <= dx {
      RoundedWithin(k, dy, dx);
    } else {
      RoundedWithin(k, dx, dy);
    }
  }

  lemma RoundedWithin(k: nat, minor: nat, major: int)
    requires 0 < major && k <= major && minor <= major
    ensures Rounded(k, minor, major) <= minor && Rounded(k, minor, major) <= k
  {
    RoundedError(k, minor, major);
    var j := Rounded(k, minor, major);
    MulMonotone(k, major, minor);
    MulMonotone(minor, major, k);
    MulGap(minor, j, major);
    MulGap(k, j, major);
    assert minor * k == k * minor && minor * major == major * minor && k * major == major * k;
  }

  lemma MulGap(a: int, b: int, c: int)
    requires 0 <= c
    ensures a < b ==> a * c + c <= b * c
  {
    if a < b {
      MulMonotone(a + 1, b, c);
      assert (a + 1) * c == a * c + c;
    }
  }

  lemma SignedProducts(sx: int, sy: int, i: nat, j: nat, w: int, h: int)
    requires (sx == 1 && 0 < w) || (sx == -1 && w <= 0)
    requires (sy == 1 && 0 < h) || (sy == -1 && h <= 0)
    ensures Abs((sy * j) * w - (sx * i) * h) == Abs(j * Abs(w) - i * Abs(h))
  {
    assert w == sx * Abs(w) && h == sy * Abs(h);
    assert (sy * j) * w == (sx * sy) * (j * Abs(w));
    assert (sx * i) * h == (sx * sy) * (i * Abs(h));
  }

  lemma EndPoint(a: Point, b: Point)
    ensures LinePoint(a, b, 0) == (a.x as int, a.y as int)
    ensures LinePoint(a, b, Major(a, b)) == (b.x as int, b.y as int)
  {
    var dx, dy := Abs(b.x - a.x), Abs(b.y - a.y);
    if 0 < Major(a, b) {
      var minor, major := Min(dx, dy), Max(dx, dy);
      assert major * minor == minor * major;
      RoundedIs(major, minor, major, minor);
      RoundedIs(0, minor, major, 0);
    }
  }

  /** The end point itself is not among the plotted pixels. */
  lemma EndNotDrawn(a: Point, b: Point)
    ensures (b.x as int, b.y as int) !in LinePoints(a, b, Major(a, b))
  {
    var dx, dy := Abs(b.x - a.x), Abs(b.y - a.y);
    forall k: nat | k < Major(a, b)
      ensures LinePoint(a, b, k) != (b.x as int, b.y as int)
    {
    }
  }

  /** Steps (i, j) are within half a pixel of the ideal segment with extents dx, dy. */
  predicate NearLine(dx: int, dy: int, i: int, j: int) {
    if dy <= dx then -dx < 2 * (j * dx - i * dy) <= dx else -dy <= 2 * (j * dx - i * dy) < dy
  }

  /** One turn of the loop: from step (i, j) to the next, with the error term kept up to date. */
  lemma LineStep(i: nat, j: nat, dx: int, dy: int, err: int)
    requires 0 <= dx && 0 <= dy && 0 < dx + dy
    requires NearLine(dx, dy, i, j) && err == LineError(dx, dy, i, j)
    ensures var moveX, moveY := -dy <= 2 * err, 2 * err <= dx;
            var i', j' := (if moveX then i + 1 else i), (if moveY then j + 1 else j);
            && NearLine(dx, dy, i', j') && (if dy <= dx then moveX else moveY)
            && err + (if moveX then -dy else 0) + (if moveY then dx else 0) == LineError(dx, dy, i', j')
  {
    assert (j + 1) * dx == j * dx + dx;
    assert (i + 1) * dy == i * dy + dy;
  }

  lemma InBox(i: nat, j: nat, dx: int, dy: int)
    requires 0 <= dx && 0 <= dy && 0 < dx + dy && NearLine(dx, dy, i, j)
    requires if dy <= dx then i <= dx else j <= dy
    ensures i <= dx && j <= dy
  {
    if dy <= dx {
      if dy < j {
        PastTheEnd(i, j, dx, dy);
      }
    } else if dx < i {
      PastTheEnd(j, i, dy, dx);
    }
  }

  lemma PastTheEnd(i: nat, j: nat, dx: int, dy: int)
    requires i <= dx && 0 <= dy < j
    ensures j * dx - i * dy >= dx
  {
    MulMonotone(dy + 1, j, dx);
    MulMonotone(i, dx, dy);
    assert (dy + 1) * dx == dx * dy + dx;
  }

  lemma MulMonotone(a: int, b: int, c: int)
    requires a <= b && 0 <= c
    ensures a * c <= b * c
  {
  }

  /** The coordinate after n steps in direction s. */
  function Walk(start: int, s: int, n: nat): int { start + s * n }

  function LineError(dx: int, dy: int, i: int, j: int): int { dx - dy + (j * dx - i * dy) }

  lemma WalkStep(start: int, s: int, n: nat)
    ensures Walk(start, s, n) + s == Walk(start, s, n + 1)
  {
  }

  lemma WalkBetween(from: nat, to: nat, n: nat)
    requires n <= Abs(to - from)
    ensures Min(from, to) <= Walk(from, Sign(from, to), n) <= Max(from, to)
    ensures Walk(from, Sign(from, to), n) == to ==> n == Abs(to - from)
    ensures Walk(from, Sign(from, to), 0) == from
  {
  }

  /** The steps made along both axes are those of the ideal segment. */
  lemma StepsAre(a: Point, b: Point, i: nat, j: nat)
    requires 0 < Major(a, b) && NearLine(Abs(b.x - a.x), Abs(b.y - a.y), i, j)
    ensures var k := if Abs(b.y - a.y) <= Abs(b.x - a.x) then i else j;
            LinePoint(a, b, k) == (Walk(a.x, Sign(a.x, b.x), i), Walk(a.y, Sign(a.y, b.y), j))
  {
    var dx: int, dy: int := Abs(b.x - a.x), Abs(b.y - a.y);
    if dy <= dx {
      RoundedIs(i, dy, dx, j);
    } else {
      assert 2 * (i * dy - j * dx) == -(2 * (j * dx - i * dy));
      RoundedIs(j, dx, dy, i);
    }
  }

  lemma OneMorePoint(a: Point, b: Point, k: nat)
    ensures LinePoints(a, b, k + 1) == LinePoints(a, b, k) + iset{LinePoint(a, b, k)}
  {
  }

  /**
    Sets exactly the rounded pixels of the segment, the end point excepted, in Major(a, b) steps.
    The absolute values are taken through f32, which is exact up to 2^24.
  */
  method DrawLine(info: Info, buffer: array<byte>, a: Point, b: Point, color: Color) returns (ghost steps: nat)
    requires Fits(info, buffer.Length)
    requires a.x < ISIZE_END && a.y < ISIZE_END && b.x < ISIZE_END && b.y < ISIZE_END
    requires Abs(b.x - a.x) <= 0x100_0000 && Abs(b.y - a.y) <= 0x100_0000
    modifies buffer
    ensures steps == Major(a, b)
    ensures Painted(info, color, old(buffer[..]), buffer[..], LinePoints(a, b, Major(a, b)))
  {
    hide Painted, LinePoints, LinePoint, NearLine, Fits, Walk, LineError, Sign, Abs;
    var x: int, y: int := a.x, a.y;
    var x1: int, y1: int := b.x, b.y;
    var dx: int := Abs(x1 - x);
    var sx := Sign(a.x, b.x);
    var dy: int := 0 - Abs(y1 - y);
    var sy := Sign(a.y, b.y);
    var err := dx + dy;
    ghost var i: nat, j: nat := 0, 0;
    ghost var was := buffer[..];
    steps := 0;
    PaintedNothing(info, color, was);
    NoPoints(a, b);
    EndPoint(a, b);
    StartNear(dx, -dy);
    WalkBetween(a.x, b.x, 0);
    WalkBetween(a.y, b.y, 0);
    while x != x1 || y != y1
      invariant i <= dx && j <= -dy && steps == (if -dy <= dx then i else j)
      invariant x == Walk(a.x, sx, i) && y == Walk(a.y, sy, j)
      invariant 0 < Major(a, b) ==> NearLine(dx, -dy, i, j)
      invariant err == LineError(dx, -dy, i, j)
      invariant Painted(info, color, was, buffer[..], LinePoints(a, b, steps))
      decreases Major(a, b) - steps
    {
      WalkBetween(a.x, b.x, i);
      WalkBetween(a.y, b.y, j);
      WalkStep(a.x, sx, i);
      WalkStep(a.y, sy, j);
      StepsAre(a, b, i, j);
      ghost var before := buffer[..];
      DrawSigned(info, buffer, x, y, color);
      PaintedMore(info, color, was, before, buffer[..], LinePoints(a, b, steps), iset{(x, y)});
      OneMorePoint(a, b, steps);
      LineStep(i, j, dx, -dy, err);
      var e2 := 2 * err;
      if dy <= e2 {
        err := err + dy;
        x := x + sx;
        i := i + 1;
      }
      if e2 <= dx {
        err := err + dx;
        y := y + sy;
        j := j + 1;
      }
      steps := steps + 1;
      InBox(i, j, dx, -dy);
    }
    WalkBetween(a.x, b.x, i);
    WalkBetween(a.y, b.y, j);
  }

  lemma StartNear(dx: int, dy: int)
    requires 0 <= dx && 0 <= dy
    ensures 0 < dx + dy ==> NearLine(dx, dy, 0, 0)
    ensures LineError(dx, dy, 0, 0) == dx - dy
  {
  }

  lemma NoPoints(a: Point, b: Point)
    ensures LinePoints(a, b, 0) == iset{}
  {
  }

  // ---- rectangles ----

  /** The half-open rectangle between two corners. */
  ghost predicate InQuad(a: Point, b: Point, x: int, y: int) { a.x <= x < b.x && a.y <= y < b.y }

  /** The rows below a.y + j, and the first i pixels of that row. */
  ghost function QuadSoFar(a: Point, b: Point, j: nat, i: nat): iset<(int, int)> {
    iset x, y | InQuad(a, b, x, y) && (y < a.y + j || (y == a.y + j && x < a.x + i)) :: (x, y)
  }

  ghost function QuadPoints(a: Point, b: Point): iset<(int, int)> {
    iset x, y | InQuad(a, b, x, y) :: (x, y)
  }

  lemma QuadPixel(a: Point, b: Point, j: nat, i: nat)
    requires a.x + i < b.x && a.y + j < b.y
    ensures QuadSoFar(a, b, j, i + 1) == QuadSoFar(a, b, j, i) + iset{(a.x + i as int, a.y + j as int)}
  {
  }

  lemma QuadRow(a: Point, b: Point, j: nat)
    requires a.x <= b.x && a.y + j < b.y
    ensures QuadSoFar(a, b, j, b.x - a.x) == QuadSoFar(a, b, j + 1, 0)
  {
  }

  lemma QuadEnds(a: Point, b: Point)
    requires a.x <= b.x && a.y <= b.y
    ensures QuadSoFar(a, b, 0, 0) == iset{} && QuadSoFar(a, b, b.y - a.y, 0) == QuadPoints(a, b)
  {
  }

  /** Sets exactly the half-open rectangle; false is the panic on corners in the wrong order. */
  method DrawQuad(info: Info, buffer: array<byte>, a: Point, b: Point, color: Color) returns (ok: bool)
    requires Fits(info, buffer.Length)
    modifies buffer
    ensures ok <==> a.x <= b.x && a.y <= b.y
    ensures ok ==> Painted(info, color, old(buffer[..]), buffer[..], QuadPoints(a, b))
    ensures !ok ==> buffer[..] == old(buffer[..])
  {
    hide Painted, QuadSoFar, QuadPoints, Fits;
    if b.x < a.x || b.y < a.y {
      return false;
    }
    var width, height := b.x - a.x, b.y - a.y;
    ghost var was := buffer[..];
    PaintedNothing(info, color, was);
    QuadEnds(a, b);
    for j := 0 to height
      invariant Painted(info, color, was, buffer[..], QuadSoFar(a, b, j, 0))
    {
      for i := 0 to width
        invariant Painted(info, color, was, buffer[..], QuadSoFar(a, b, j, i))
      {
        ghost var before := buffer[..];
        DrawPixel(info, buffer, a.x + i, a.y + j, color);
        PaintedMore(info, color, was, before, buffer[..], QuadSoFar(a, b, j, i),
                    iset{(a.x + i as int, a.y + j as int)});
        QuadPixel(a, b, j, i);
      }
      QuadRow(a, b, j);
    }
    return true;
  }

  // ---- disks ----

  /** The pixels within distance r, less those at distance r along an axis. */
  predicate InDisk(r: nat, dx: int, dy: int) { Abs(dx) < r && Abs(dy) < r && dx * dx + dy * dy <= r * r }

  /** The closed disk but for its four pixels on the axes at distance r. */
  lemma InDiskIff(r: nat, dx: int, dy: int)
    ensures InDisk(r, dx, dy) <==>
              && dx * dx + dy * dy <= r * r
              && !(dy == 0 && (dx == r || dx == 0 - r)) && !(dx == 0 && (dy == r || dy == 0 - r))
  {
    var m, n := Abs(dx), Abs(dy);
    SquareOfAbs(dx);
    SquareOfAbs(dy);
    NoFarther(r, m, n);
    NoFarther(r, n, m);
  }

  lemma NoFarther(r: nat, m: nat, n: nat)
    ensures m * m + n * n <= r * r && r <= m ==> m == r && n == 0
  {
    PositiveSquare(n);
    MulMonotone(r, Max(r, m), r);
    MulMonotone(r, Max(r, m), m);
    MulGap(r, m, r);
    MulGap(r, m, m);
    assert r * m == m * r;
    PositiveSquare(m);
  }

  lemma PositiveSquare(d: int)
    ensures 0 <= d * d && (d != 0 ==> 0 < d * d)
  {
  }

  ghost function DiskPoints(a: Point, r: nat): iset<(int, int)> {
    iset x, y | InDisk(r, x - a.x, y - a.y) :: (x, y)
  }

  /** Columns nearer than i, and in columns at distance i the pixels nearer than j. */
  ghost function DiskSoFar(a: Point, r: nat, i: nat, j: nat): iset<(int, int)> {
    iset x, y | InDisk(r, x - a.x, y - a.y) && (Abs(x - a.x) < i || (Abs(x - a.x) == i && Abs(y - a.y) < j)) :: (x, y)
  }

  /** The four mirror images of an offset. */
  ghost function Mirrored(a: Point, i: nat, j: nat): iset<(int, int)> {
    iset{(a.x + i as int, a.y + j as int), (a.x - i, a.y + j as int), (a.x - i, a.y - j), (a.x + i as int, a.y - j)}
  }

  lemma DiskPixel(a: Point, r: nat, i: nat, j: nat)
    requires i < r && j < r
    ensures DiskSoFar(a, r, i, j + 1) ==
              if i * i + j * j <= r * r then DiskSoFar(a, r, i, j) + Mirrored(a, i, j) else DiskSoFar(a, r, i, j)
  {
    var was, now := DiskSoFar(a, r, i, j), DiskSoFar(a, r, i, j + 1);
    forall x: int, y: int
      ensures (x, y) in now <==> (x, y) in was || (i * i + j * j <= r * r && (x, y) in Mirrored(a, i, j))
    {
      if Abs(x - a.x) == i && Abs(y - a.y) == j {
        SquareOfAbs(x - a.x);
        SquareOfAbs(y - a.y);
      }
    }
  }

  lemma SquareOfAbs(d: int)
    ensures d * d == Abs(d) * Abs(d)
  {
  }

  lemma DiskColumn(a: Point, r: nat, i: nat)
    ensures DiskSoFar(a, r, i, r) == DiskSoFar(a, r, i + 1, 0)
  {
  }

  lemma DiskEnds(a: Point, r: nat)
    ensures DiskSoFar(a, r, 0, 0) == iset{} && DiskSoFar(a, r, r, 0) == DiskPoints(a, r)
  {
  }

  /** One mirror image, if its coordinates are not negative. */
  method DrawGuarded(info: Info, buffer: array<byte>, x: int, y: int, color: Color)
    requires Fits(info, buffer.Length)
    modifies buffer
    ensures Painted(info, color, old(buffer[..]), buffer[..], iset{(x, y)})
  {
    if x >= 0 && y >= 0 {
      DrawPixel(info, buffer, x, y, color);
    } else {
      PaintedNothing(info, color, buffer[..]);
      PaintedSame(info, color, buffer[..], buffer[..], iset{}, iset{(x, y)});
    }
  }

  method DrawMirrored(info: Info, buffer: array<byte>, a: Point, i: nat, j: nat, color: Color)
    requires Fits(info, buffer.Length)
    modifies buffer
    ensures Painted(info, color, old(buffer[..]), buffer[..], Mirrored(a, i, j))
  {
    hide Painted, Fits;
    ghost var was := buffer[..];
    var x: int, y: int := a.x, a.y;
    DrawPixel(info, buffer, a.x + i, a.y + j, color);
    ghost var b1, p1 := buffer[..], iset{(x + i, y + j)};
    DrawGuarded(info, buffer, x - i, y + j, color);
    ghost var b2, p2 := buffer[..], p1 + iset{(x - i, y + j)};
    PaintedMore(info, color, was, b1, b2, p1, iset{(x - i, y + j)});
    DrawGuarded(info, buffer, x - i, y - j, color);
    ghost var b3, p3 := buffer[..], p2 + iset{(x - i, y - j)};
    PaintedMore(info, color, was, b2, b3, p2, iset{(x - i, y - j)});
    DrawGuarded(info, buffer, x + i, y - j, color);
    PaintedMore(info, color, was, b3, buffer[..], p3, iset{(x + i, y - j)});
    assert p3 + iset{(x + i, y - j)} == Mirrored(a, i, j);
  }

  /** Sets exactly the pixels of the disk that are on the screen. */
  method DrawDisk(info: Info, buffer: array<byte>, a: Point, r: nat, color: Color)
    requires Fits(info, buffer.Length)
    modifies buffer
    ensures Painted(info, color, old(buffer[..]), buffer[..], DiskPoints(a, r))
  {
    hide Painted, DiskSoFar, DiskPoints, Mirrored, Fits;
    var radiusSquared := r * r;
    ghost var was := buffer[..];
    PaintedNothing(info, color, was);
    DiskEnds(a, r);
    for i := 0 to r
      invariant Painted(info, color, was, buffer[..], DiskSoFar(a, r, i, 0))
    {
      for j := 0 to r
        invariant Painted(info, color, was, buffer[..], DiskSoFar(a, r, i, j))
      {
        DiskPixel(a, r, i, j);
        if i * i + j * j <= radiusSquared {
          ghost var before := buffer[..];
          DrawMirrored(info, buffer, a, i, j, color);
          PaintedMore(info, color, was, before, buffer[..], DiskSoFar(a, r, i, j), Mirrored(a, i, j));
        }
      }
      DiskColumn(a, r, i);
    }
  }

  // ---- circles ----

  /** How far an offset is off the circle. */
  function Excess(r: int, x: int, y: int): int { x * x + y * y - r * r }

  /** In the quadrant swept by the loop, and off the circle by at most r. */
  predicate NearCircle(r: int, x: int, y: int) { -r <= x <= 0 <= y <= r && -r <= Excess(r, x, y) <= r }

  /** The next offset: both moves are decided by the excess of the diagonal neighbour. */
  function ArcStep(r: int, x: int, y: int): (int, int) {
    var err := Excess(r, x + 1, y + 1);
    var y' := if err <= y then y + 1 else y;
    var err' := if err <= y then Excess(r, x + 1, y + 2) else err;
    (if err > x || err' > y' then x + 1 else x, y')
  }

  lemma Excesses(r: int, x: int, y: int)
    ensures Excess(r, x + 1, y + 1) == Excess(r, x, y) + 2 * x + 2 * y + 2
    ensures Excess(r, x + 1, y) == Excess(r, x, y) + 2 * x + 1
    ensures Excess(r, x, y + 1) == Excess(r, x, y) + 2 * y + 1
    ensures Excess(r, x + 1, y + 2) == Excess(r, x + 1, y + 1) + 2 * y + 3
    ensures y == r ==> Excess(r, x, y) == x * x
  {
  }

  lemma SquareAtLeast(x: int)
    ensures x * x >= -2 * x - 1
  {
    assert (x + 1) * (x + 1) == x * x + 2 * x + 1;
    assert (x + 1) * (x + 1) >= 0;
  }

  /** Every step moves, by at most one on each axis, and stays near the circle. */
  lemma ArcStepNear(r: int, x: int, y: int)
    requires NearCircle(r, x, y) && x < 0
    ensures var (x', y') := ArcStep(r, x, y);
            NearCircle(r, x', y') && x <= x' <= x + 1 && y <= y' <= y + 1 && (x', y') != (x, y)
  {
    Excesses(r, x, y);
    SquareAtLeast(x);
    hide Excess;
  }

  /** The offsets from (x, y) on, up to the axis. */
  function Arc(r: int, x: int, y: int): seq<(int, int)>
    requires NearCircle(r, x, y)
    decreases r - y - x
  {
    if x >= 0 then []
    else
      ArcStepNear(r, x, y);
      [(x, y)] + Arc(r, ArcStep(r, x, y).0, ArcStep(r, x, y).1)
  }

  /** All offsets of a circle of radius r; a circle of radius 0 is one pixel. */
  function CircleArc(r: nat): seq<(int, int)> {
    if r == 0 then [(0, 0)] else StartsNear(r); Arc(r, 0 - r, 0)
  }

  lemma StartsNear(r: int)
    requires 0 <= r
    ensures NearCircle(r, -r, 0)
  {
  }

  /** The arc has at most 2r offsets, all near the circle, and ends beside (0, r), where the next quarter starts. */
  lemma {:induction false} ArcIs(r: nat, x: int, y: int, k: nat)
    requires 0 < r && NearCircle(r, x, y) && x < 0
    requires k < |Arc(r, x, y)|
    ensures |Arc(r, x, y)| <= r - y - x
    ensures NearCircle(r, Arc(r, x, y)[k].0, Arc(r, x, y)[k].1) && Arc(r, x, y)[k].0 < 0
    ensures k + 1 < |Arc(r, x, y)| ==> ArcStep(r, Arc(r, x, y)[k].0, Arc(r, x, y)[k].1) == Arc(r, x, y)[k + 1]
    ensures k + 1 == |Arc(r, x, y)| ==> ArcStep(r, Arc(r, x, y)[k].0, Arc(r, x, y)[k].1) == (0, r as int)
    decreases r - y - x
  {
    ArcStepNear(r, x, y);
    var (x', y') := ArcStep(r, x, y);
    if x' < 0 {
      ArcIs(r, x', y', if k == 0 then 0 else k - 1);
    } else {
      EndsAtTop(r, x, y);
    }
  }

  /** Where the arc reaches the axis, it does so at the top. */
  lemma EndsAtTop(r: nat, x: int, y: int)
    requires 0 < r && NearCircle(r, x, y) && x < 0 && ArcStep(r, x, y).0 == 0
    ensures ArcStep(r, x, y).1 == r
  {
    ArcStepNear(r, x, y);
    var y' := ArcStep(r, x, y).1;
    if r == 1 {
    } else if y' < r {
      assert y' * y' <= (r - 1) * (r - 1) by {
        MulMonotone(y', r - 1, y');
        MulMonotone(y', r - 1, r - 1);
      }
    }
  }

  /** The four quarter turns of an offset around the centre. */
  ghost function Turned(a: Point, x: int, y: int): iset<(int, int)> {
    iset{(a.x + y, a.y + x), (a.x - x, a.y + y), (a.x - y, a.y - x), (a.x + x, a.y - y)}
  }

  ghost function TurnedAll(a: Point, arc: seq<(int, int)>): iset<(int, int)> {
    iset k, p | 0 <= k < |arc| && p in Turned(a, arc[k].0, arc[k].1) :: p
  }

  lemma TurnedMore(a: Point, arc: seq<(int, int)>, x: int, y: int)
    ensures TurnedAll(a, arc + [(x, y)]) == TurnedAll(a, arc) + Turned(a, x, y)
  {
    var more := arc + [(x, y)];
    forall p: (int, int)
      ensures p in TurnedAll(a, more) <==> p in TurnedAll(a, arc) || p in Turned(a, x, y)
    {
      if k :| 0 <= k < |arc| && p in Turned(a, arc[k].0, arc[k].1) {
        assert more[k] == arc[k];
      }
      if p in Turned(a, x, y) {
        assert more[|arc|] == (x, y);
      }
    }
  }

  lemma NothingTurned(a: Point)
    ensures TurnedAll(a, []) == iset{}
  {
  }

  /** Every plotted pixel is off the ideal circle by at most r, in squared distance. */
  lemma CirclePixel(a: Point, r: nat, px: int, py: int)
    requires (px, py) in TurnedAll(a, CircleArc(r))
    ensures Abs(Excess(r, px - a.x, py - a.y)) <= r
  {
    var arc := CircleArc(r);
    var k :| 0 <= k < |arc| && (px, py) in Turned(a, arc[k].0, arc[k].1);
    if 0 < r {
      StartsNear(r);
      ArcIs(r, 0 - r, 0, k);
    }
    TurnedExcess(a, r, arc[k].0, arc[k].1, px, py);
  }

  lemma TurnedExcess(a: Point, r: int, x: int, y: int, px: int, py: int)
    requires (px, py) in Turned(a, x, y)
    ensures Excess(r, px - a.x, py - a.y) == Excess(r, x, y)
  {
    TurnKeepsExcess(r, x, y);
  }

  lemma TurnKeepsExcess(r: int, x: int, y: int)
    ensures Excess(r, y, x) == Excess(r, -x, y) == Excess(r, -y, -x) == Excess(r, x, -y) == Excess(r, x, y)
  {
  }

  // ---- the whole circle ----

  /** The pixels of a circle, on the screen or not. */
  ghost function CirclePixels(a: Point, r: nat): iset<(int, int)> { TurnedAll(a, CircleArc(r)) }

  lemma InCircle(a: Point, r: nat, k: nat, p: (int, int))
    requires k < |CircleArc(r)| && p in Turned(a, CircleArc(r)[k].0, CircleArc(r)[k].1)
    ensures p in CirclePixels(a, r)
  {
  }

  lemma TurnedClosed(a: Point, x: int, y: int, px: int, py: int)
    requires (px, py) in Turned(a, x, y)
    ensures (a.x - (py - a.y), a.y + (px - a.x)) in Turned(a, x, y)
  {
  }

  /** A quarter turn around the centre takes the circle to itself. */
  lemma CircleClosed(a: Point, r: nat, px: int, py: int)
    requires (px, py) in CirclePixels(a, r)
    ensures (a.x - (py - a.y), a.y + (px - a.x)) in CirclePixels(a, r)
  {
    hide Turned, CircleArc;
    var k :| 0 <= k < |CircleArc(r)| && (px, py) in Turned(a, CircleArc(r)[k].0, CircleArc(r)[k].1);
    TurnedClosed(a, CircleArc(r)[k].0, CircleArc(r)[k].1, px, py);
    InCircle(a, r, k, (a.x - (py - a.y), a.y + (px - a.x)));
  }

  lemma ArcStarts(r: nat)
    ensures |CircleArc(r)| > 0 && CircleArc(r)[0] == (0 - r, 0)
  {
    if 0 < r {
      StartsNear(r);
    }
  }

  lemma AxesTurned(a: Point, r: nat)
    ensures (a.x + r as int, a.y as int) in Turned(a, 0 - r, 0) && (a.x - r, a.y as int) in Turned(a, 0 - r, 0)
    ensures (a.x as int, a.y + r as int) in Turned(a, 0 - r, 0) && (a.x as int, a.y - r) in Turned(a, 0 - r, 0)
  {
  }

  /** The four pixels at distance r on the axes belong to it. */
  lemma CircleAxes(a: Point, r: nat)
    ensures (a.x + r as int, a.y as int) in CirclePixels(a, r) && (a.x - r, a.y as int) in CirclePixels(a, r)
    ensures (a.x as int, a.y + r as int) in CirclePixels(a, r) && (a.x as int, a.y - r) in CirclePixels(a, r)
  {
    hide Turned, CircleArc, CirclePixels;
    ArcStarts(r);
    AxesTurned(a, r);
    InCircle(a, r, 0, (a.x + r as int, a.y as int));
    InCircle(a, r, 0, (a.x - r, a.y as int));
    InCircle(a, r, 0, (a.x as int, a.y + r as int));
    InCircle(a, r, 0, (a.x as int, a.y - r));
  }

  /** The loop moves strictly round the centre. */
  lemma ArcTurns(r: int, x: int, y: int)
    requires NearCircle(r, x, y) && x < 0
    ensures var (x', y') := ArcStep(r, x, y);
            y * x' - x * y' > 0
  {
    ArcStepNear(r, x, y);
    if y == 0 {
      FirstStepUp(r, x);
    }
    hide ArcStep, NearCircle, Excess;
    assert x * (y + 1) == x * y + x && y * (x + 1) == x * y + y && y * x == x * y;
  }

  lemma FirstStepUp(r: int, x: int)
    requires NearCircle(r, x, 0) && x < 0
    ensures ArcStep(r, x, 0).1 == 1
  {
    MulMonotone(-x, r, -x);
    MulMonotone(-x, r, r);
    assert x * x == (-x) * (-x) && r * (-x) == (-x) * r;
    assert (x + 1) * (x + 1) == x * x + 2 * x + 1;
  }

  /** (qx, qy) is a king's move away from (px, py), and strictly further round the centre. */
  predicate Follows(a: Point, px: int, py: int, qx: int, qy: int) {
    && -1 <= qx - px <= 1 && -1 <= qy - py <= 1
    && (px - a.x) * (qy - a.y) - (py - a.y) * (qx - a.x) > 0
  }

  lemma TurnedFollows(a: Point, x: int, y: int, x': int, y': int, px: int, py: int) returns (qx: int, qy: int)
    requires (px, py) in Turned(a, x, y) && x <= x' <= x + 1 && y <= y' <= y + 1 && y * x' - x * y' > 0
    ensures (qx, qy) in Turned(a, x', y') && Follows(a, px, py, qx, qy)
  {
    assert y * x' == x' * y && x * y' == y' * x;
    if (px, py) == (a.x + y, a.y + x) {
      qx, qy := a.x + y', a.y + x';
    } else if (px, py) == (a.x - x, a.y + y) {
      qx, qy := a.x - x', a.y + y';
      assert (-x) * y' == -(x * y') && y * (-x') == -(y * x');
    } else if (px, py) == (a.x - y, a.y - x) {
      qx, qy := a.x - y', a.y - x';
      assert (-y) * (-x') == y * x' && (-x) * (-y') == x * y';
    } else {
      qx, qy := a.x + x', a.y - y';
      assert x * (-y') == -(x * y') && (-y) * x' == -(y * x');
    }
  }

  /** The curve is closed: every pixel has a next one, further round, so it goes all the way round the centre. */
  lemma CircleGoesRound(a: Point, r: nat, px: int, py: int) returns (qx: int, qy: int)
    requires 0 < r && (px, py) in CirclePixels(a, r)
    ensures (qx, qy) in CirclePixels(a, r) && Follows(a, px, py, qx, qy)
  {
    hide Turned, ArcStep, Arc, NearCircle, Follows;
    var arc := CircleArc(r);
    var k :| 0 <= k < |arc| && (px, py) in Turned(a, arc[k].0, arc[k].1);
    StartsNear(r);
    LeftOfAxis(r);
    ArcIs(r, 0 - r, 0, k);
    var (x, y) := arc[k];
    var (x', y') := ArcStep(r, x, y);
    ArcTurns(r, x, y);
    ArcStepNear(r, x, y);
    qx, qy := TurnedFollows(a, x, y, x', y', px, py);
    if k + 1 < |arc| {
      assert (qx, qy) in Turned(a, arc[k + 1].0, arc[k + 1].1);
    } else {
      TopIsOnAxis(a, r, qx, qy);
    }
  }

  lemma LeftOfAxis(r: nat)
    requires 0 < r
    ensures 0 - r < 0
  {
  }

  lemma TopIsOnAxis(a: Point, r: nat, px: int, py: int)
    requires (px, py) in Turned(a, 0, r)
    ensures (px, py) in CirclePixels(a, r)
  {
    CircleAxes(a, r);
  }

  /** The loop runs at least once and at most max(1, 2r) times. */
  lemma ArcLength(r: nat)
    ensures 1 <= |CircleArc(r)| <= Max(1, 2 * r)
  {
    if 0 < r {
      StartsNear(r);
      ArcIs(r, 0 - r, 0, 0);
    }
  }

  /** The four pixels of one offset, each with the guard the loop gives it. */
  method DrawTurned(info: Info, buffer: array<byte>, a: Point, x: int, y: int, color: Color)
    requires Fits(info, buffer.Length)
    requires a.x < ISIZE_END / 2 && a.y < ISIZE_END / 2
    requires -ISIZE_END / 2 <= x <= 0 <= y < ISIZE_END / 2
    modifies buffer
    ensures Painted(info, color, old(buffer[..]), buffer[..], Turned(a, x, y))
  {
    hide Painted, Fits;
    ghost var was := buffer[..];
    DrawSigned(info, buffer, a.x + y, a.y + x, color);
    ghost var b1, p1 := buffer[..], iset{(a.x + y, a.y + x)};
    if a.x - x >= 0 {
      DrawSigned(info, buffer, a.x - x, a.y + y, color);
    }
    ghost var b2, p2 := buffer[..], p1 + iset{(a.x - x, a.y + y)};
    PaintedMore(info, color, was, b1, b2, p1, iset{(a.x - x, a.y + y)});
    if a.x - y >= 0 && a.y - x >= 0 {
      DrawSigned(info, buffer, a.x - y, a.y - x, color);
    } else {
      OffScreen(info, color, b2, a.x - y, a.y - x);
    }
    ghost var b3, p3 := buffer[..], p2 + iset{(a.x - y, a.y - x)};
    PaintedMore(info, color, was, b2, b3, p2, iset{(a.x - y, a.y - x)});
    if a.y - y >= 0 {
      DrawSigned(info, buffer, a.x + x, a.y - y, color);
    } else {
      OffScreen(info, color, b3, a.x + x, a.y - y);
    }
    PaintedMore(info, color, was, b3, buffer[..], p3, iset{(a.x + x, a.y - y)});
    assert p3 + iset{(a.x + x, a.y - y)} == Turned(a, x, y);
  }

  lemma OffScreen(info: Info, color: Color, buf: seq<byte>, x: int, y: int)
    requires x < 0 || y < 0
    ensures Painted(info, color, buf, buf, iset{(x, y)})
  {
    PaintedNothing(info, color, buf);
    PaintedSame(info, color, buf, buf, iset{}, iset{(x, y)});
  }

  /** Sets exactly the turned pixels of the arc, keeping the error term incrementally. */
  method DrawCircle(info: Info, buffer: array<byte>, a: Point, r: nat, color: Color)
      returns (ghost turns: nat)
    requires Fits(info, buffer.Length)
    requires a.x < ISIZE_END / 2 && a.y < ISIZE_END / 2 && r < ISIZE_END / 8
    modifies buffer
    ensures turns == |CircleArc(r)|
    ensures Painted(info, color, old(buffer[..]), buffer[..], CirclePixels(a, r))
  {
    hide Painted, Fits, TurnedAll, Turned, Excess, CircleArc, Arc;
    var x: int, y: int, rad: int := 0 - r, 0, r;
    var err := 2 - 2 * rad;
    ghost var was, drawn := buffer[..], [];
    turns := 0;
    PaintedNothing(info, color, was);
    NothingTurned(a);
    CircleStarts(r);
    while true
      invariant InSweep(r, x, y) && err == Excess(r, x + 1, y + 1)
      invariant Painted(info, color, was, buffer[..], TurnedAll(a, drawn))
      invariant ToDraw(r, x, y, drawn) && turns == |drawn|
      decreases r - x + r - y
    {
      ghost var before, x0, y0 := buffer[..], x, y;
      DrawTurned(info, buffer, a, x, y, color);
      PaintedMore(info, color, was, before, buffer[..], TurnedAll(a, drawn), Turned(a, x, y));
      TurnedMore(a, drawn, x, y);
      NextOffset(r, x, y, drawn);
      drawn := drawn + [(x, y)];
      turns := turns + 1;
      Excesses(r, x, y);
      Excesses(r, x + 1, y + 1);
      Excesses(r, x + 1, y);
      Excesses(r, x, y + 1);
      rad := err;
      if rad <= y {
        y := y + 1;
        err := err + 2 * y + 1;
      }
      if rad > x || err > y {
        x := x + 1;
        err := err + 2 * x + 1;
      }
      assert (x, y) == ArcStep(r, x0, y0);
      if x >= 0 {
        break;
      }
    }
  }

  /** The loop is about to plot (x, y), having plotted `drawn`. */
  ghost predicate ToDraw(r: nat, x: int, y: int, drawn: seq<(int, int)>) {
    NearCircle(r, x, y) &&
    if r == 0 then drawn == [] && x == 0 && y == 0 else x < 0 && drawn + Arc(r, x, y) == CircleArc(r)
  }

  lemma CircleStarts(r: nat)
    ensures ToDraw(r, -(r as int), 0, []) && Excess(r, 1 - r, 1) == 2 - 2 * r
  {
    StartsNear(r);
  }

  predicate InSweep(r: int, x: int, y: int) { -r <= x <= 1 && 0 <= y <= r }

  lemma ArcUnfolds(r: int, x: int, y: int)
    requires NearCircle(r, x, y) && x < 0
    ensures var (x', y') := ArcStep(r, x, y);
            && NearCircle(r, x', y') && InSweep(r, x', y')
            && x <= x' && y <= y' && (x', y') != (x, y)
            && Arc(r, x, y) == [(x, y)] + Arc(r, x', y')
            && (x' >= 0 ==> Arc(r, x', y') == [])
  {
    ArcStepNear(r, x, y);
  }

  lemma LonePixel()
    ensures ArcStep(0, 0, 0) == (1, 0) && CircleArc(0) == [(0, 0)]
  {
  }

  /** After plotting an offset either the arc is complete or the next offset is its next element. */
  lemma NextOffset(r: nat, x: int, y: int, drawn: seq<(int, int)>)
    requires ToDraw(r, x, y, drawn)
    ensures var (x', y') := ArcStep(r, x, y);
            && InSweep(r, x', y') && x <= x' && y <= y' && (x', y') != (x, y)
            && (if x' >= 0 then drawn + [(x, y)] == CircleArc(r) else ToDraw(r, x', y', drawn + [(x, y)]))
  {
    hide ArcStep, Arc, CircleArc, NearCircle;
    if 0 < r {
      ArcUnfolds(r, x, y);
      var (x', y') := ArcStep(r, x, y);
      assert drawn + Arc(r, x, y) == (drawn + [(x, y)]) + Arc(r, x', y');
    } else {
      LonePixel();
    }
  }
}

/** Pixels in a byte buffer: where a pixel's bytes lie, and what painting a set of pixels means. */
module Framebuffer {
  import opened Common

  datatype PixelFormat = Rgb | Bgr

  datatype Color = Color(red: byte, green: byte, blue: byte)

  datatype Point = Point(x: nat, y: nat)

  datatype Info = Info(width: nat, height: nat, pixelFormat: PixelFormat, bytesPerPixel: nat, stride: nat)

  const ISIZE_END: int := 0x8000_0000_0000_0000
  const USIZE_END: int := 0x1_0000_0000_0000_0000

  /** The cast of a signed coordinate to an unsigned one. */
  function AsUsize(i: int): int { if i < 0 then i + USIZE_END else i }

  /** Rows fit the stride, pixels have room for three channels, and the buffer holds all rows. */
  predicate Fits(info: Info, length: nat) {
    && info.width <= info.stride && 3 <= info.bytesPerPixel
    && info.height * info.stride * info.bytesPerPixel <= length
    && info.width < ISIZE_END && info.height < ISIZE_END
  }

  predicate OnScreen(info: Info, x: int, y: int) { 0 <= x < info.width && 0 <= y < info.height }

  /** The first byte of a pixel; row 0 is the bottom of the screen. */
  function Index(info: Info, x: nat, y: nat): int {
    (x + ((info.height - 1) - y) * info.stride) * info.bytesPerPixel
  }

  /** Byte c of a pixel in the colour's memory order. */
  function Channel(info: Info, color: Color, c: int): byte {
    if c == 1 then color.green
    else if (c == 0) == (info.pixelFormat == Rgb) then color.red else color.blue
  }

  // ---- which pixel a byte belongs to ----

  predicate HasStride(info: Info) { 0 < info.stride && 0 < info.bytesPerPixel }

  function ChannelOf(info: Info, b: nat): int
    requires HasStride(info)
  {
    b % info.bytesPerPixel
  }

  function PixelX(info: Info, b: nat): int
    requires HasStride(info)
  {
    b / info.bytesPerPixel % info.stride
  }

  function PixelY(info: Info, b: nat): int
    requires HasStride(info)
  {
    info.height - 1 - b / info.bytesPerPixel / info.stride
  }

  /** Byte b is one of the three colour bytes of a pixel of `pts` that is on the screen. */
  ghost predicate Touches(info: Info, pts: iset<(int, int)>, b: nat) {
    && HasStride(info)
    && ChannelOf(info, b) < 3
    && OnScreen(info, PixelX(info, b), PixelY(info, b))
    && (PixelX(info, b), PixelY(info, b)) in pts
  }

  /** `now` is `was` with exactly the pixels of `pts` that are on the screen set to the colour. */
  ghost predicate Painted(info: Info, color: Color, was: seq<byte>, now: seq<byte>, pts: iset<(int, int)>) {
    && |now| == |was|
    && forall b :: 0 <= b < |was| ==>
         now[b] == if Touches(info, pts, b) then Channel(info, color, ChannelOf(info, b)) else was[b]
  }

  lemma PaintedNothing(info: Info, color: Color, was: seq<byte>)
    ensures Painted(info, color, was, was, iset{})
  {
  }

  lemma PaintedMore(info: Info, color: Color, a: seq<byte>, b: seq<byte>, c: seq<byte>,
                    p: iset<(int, int)>, q: iset<(int, int)>)
    requires Painted(info, color, a, b, p) && Painted(info, color, b, c, q)
    ensures Painted(info, color, a, c, p + q)
  {
  }

  /** Painting depends only on the pixels that are on the screen. */
  lemma PaintedSame(info: Info, color: Color, a: seq<byte>, b: seq<byte>, p: iset<(int, int)>, q: iset<(int, int)>)
    requires Painted(info, color, a, b, p)
    requires forall x, y :: OnScreen(info, x, y) ==> ((x, y) in p <==> (x, y) in q)
    ensures Painted(info, color, a, b, q)
  {
  }

  // ---- the index arithmetic ----

  lemma DivModUnique(a: int, q: int, r: int, d: int)
    requires 0 < d && 0 <= r < d && a == q * d + r
    ensures a / d == q && a % d == r
  {
    var q', r' := a / d, a % d;
    assert a == q' * d + r' && 0 <= r' < d;
    assert (q - q') * d == r' - r;
    if q < q' {
      MulAtLeast(q' - q, d);
    } else if q' < q {
      MulAtLeast(q - q', d);
    }
  }

  lemma MulAtLeast(k: int, d: int)
    requires 1 <= k && 0 < d
    ensures k * d >= d && -k * d <= -d
  {
  }

  /** The three bytes of an on-screen pixel: in bounds, and no other pixel's. */
  lemma IndexInverse(info: Info, length: nat, x: nat, y: nat, c: nat)
    requires Fits(info, length) && OnScreen(info, x, y) && c < 3
    ensures HasStride(info) && 0 <= Index(info, x, y) && Index(info, x, y) + c < length
    ensures ChannelOf(info, Index(info, x, y) + c) == c
    ensures PixelX(info, Index(info, x, y) + c) == x && PixelY(info, Index(info, x, y) + c) == y
  {
    var row := info.height - 1 - y;
    var cell := x + row * info.stride;
    RowInBounds(info.height, info.stride, row, x);
    DivModUnique(Index(info, x, y) + c, cell, c, info.bytesPerPixel);
    DivModUnique(cell, row, x, info.stride);
    CellInBounds(info.height * info.stride, info.bytesPerPixel, cell, c);
  }

  lemma RowInBounds(height: nat, stride: nat, row: nat, x: nat)
    requires row < height && x < stride
    ensures 0 <= x + row * stride < height * stride
  {
    assert (height - row) * stride >= stride by { MulAtLeast(height - row, stride); }
    assert height * stride == row * stride + (height - row) * stride;
  }

  lemma CellInBounds(cells: nat, bpp: nat, cell: nat, c: nat)
    requires cell < cells && c < bpp
    ensures 0 <= cell * bpp && cell * bpp + c < cells * bpp
  {
    RowInBounds(cells, bpp, cell, c);
  }

  /** A colour byte of an on-screen pixel lies at the pixel's index. */
  lemma IndexOf(info: Info, b: nat)
    requires HasStride(info)
    requires 0 <= PixelY(info, b)
    ensures b == Index(info, PixelX(info, b), PixelY(info, b)) + ChannelOf(info, b)
  {
    var cell := b / info.bytesPerPixel;
    assert b == cell * info.bytesPerPixel + b % info.bytesPerPixel;
    assert cell == cell / info.stride * info.stride + cell % info.stride;
  }

  /**
    The first byte of a pixel in plain numbers: the left pixel of the top row comes first, a step to the right
    is one pixel and a step down one stride.
  */
  lemma IndexIs(info: Info, x: nat, y: nat)
    ensures Index(info, x, y) == (x + (info.height - 1 - y) * info.stride) * info.bytesPerPixel
    ensures Index(info, x + 1, y) == Index(info, x, y) + info.bytesPerPixel
    ensures 0 < info.height ==> Index(info, 0, info.height - 1) == 0
    ensures 0 < y ==> Index(info, x, y - 1) == Index(info, x, y) + info.stride * info.bytesPerPixel
  {
    var row := info.height - 1 - y;
    assert (x + 1 + row * info.stride) * info.bytesPerPixel
        == (x + row * info.stride) * info.bytesPerPixel + info.bytesPerPixel;
    assert (row + 1) * info.stride == row * info.stride + info.stride;
    assert (x + row * info.stride + info.stride) * info.bytesPerPixel
        == (x + row * info.stride) * info.bytesPerPixel + info.stride * info.bytesPerPixel;
  }

  /** The three bytes of a pixel hold its colour in the order of the format. */
  ghost predicate Holds(info: Info, buf: seq<byte>, x: nat, y: nat, color: Color) {
    var i := (x + (info.height - 1 - y) * info.stride) * info.bytesPerPixel;
    && 0 <= i && i + 2 < |buf| && buf[i + 1] == color.green
    && buf[i] == (match info.pixelFormat case Rgb => color.red case Bgr => color.blue)
    && buf[i + 2] == (match info.pixelFormat case Rgb => color.blue case Bgr => color.red)
  }

  /** After painting, every painted pixel on the screen holds the colour. */
  lemma PaintedHolds(info: Info, color: Color, was: seq<byte>, now: seq<byte>, pts: iset<(int, int)>, x: nat, y: nat)
    requires Fits(info, |was|) && Painted(info, color, was, now, pts)
    requires x < info.width && y < info.height && (x as int, y as int) in pts
    ensures Holds(info, now, x, y, color)
  {
    hide Fits;
    IndexInverse(info, |was|, x, y, 0);
    IndexInverse(info, |was|, x, y, 1);
    IndexInverse(info, |was|, x, y, 2);
    IndexIs(info, x, y);
    hide Index, PixelX, PixelY, ChannelOf;
    var i := Index(info, x, y);
    assert Touches(info, pts, i) && Touches(info, pts, i + 1) && Touches(info, pts, i + 2);
  }

  /** Every other pixel on the screen keeps its bytes. */
  lemma PaintedKeeps(info: Info, color: Color, was: seq<byte>, now: seq<byte>, pts: iset<(int, int)>, x: nat, y: nat,
                     c: nat)
    requires Fits(info, |was|) && Painted(info, color, was, now, pts)
    requires x < info.width && y < info.height && (x as int, y as int) !in pts && c < 3
    ensures var b := (x + (info.height - 1 - y) * info.stride) * info.bytesPerPixel + c;
            0 <= b < |was| == |now| && now[b] == was[b]
  {
    IndexInverse(info, |was|, x, y, c);
    IndexIs(info, x, y);
  }

  /** Writes one pixel, and nothing where it lies off the screen. */
  method DrawPixel(info: Info, buffer: array<byte>, x: nat, y: nat, color: Color)
    requires Fits(info, buffer.Length)
    modifies buffer
    ensures Painted(info, color, old(buffer[..]), buffer[..], iset{(x as int, y as int)})
  {
    hide Index, ChannelOf, PixelX, PixelY;
    if x < info.width && y < info.height {
      IndexInverse(info, buffer.Length, x, y, 0);
      IndexInverse(info, buffer.Length, x, y, 1);
      IndexInverse(info, buffer.Length, x, y, 2);
      var i := Index(info, x, y);
      if info.pixelFormat == Rgb {
        buffer[i + 0] := color.red;
        buffer[i + 1] := color.green;
        buffer[i + 2] := color.blue;
      } else {
        buffer[i + 0] := color.blue;
        buffer[i + 1] := color.green;
        buffer[i + 2] := color.red;
      }
      forall b: nat | b < buffer.Length && Touches(info, iset{(x as int, y as int)}, b)
        ensures b == i + ChannelOf(info, b) && 0 <= ChannelOf(info, b)
      {
        IndexOf(info, b);
        ChannelNonNegative(info, b);
      }
    }
  }

  lemma ChannelNonNegative(info: Info, b: nat)
    requires HasStride(info)
    ensures 0 <= ChannelOf(info, b)
  {
  }

  /** As DrawPixel, for signed coordinates: a negative one is cast to a huge one and clipped. */
  method DrawSigned(info: Info, buffer: array<byte>, x: int, y: int, color: Color)
    requires Fits(info, buffer.Length)
    requires -ISIZE_END <= x < ISIZE_END && -ISIZE_END <= y < ISIZE_END
    modifies buffer
    ensures Painted(info, color, old(buffer[..]), buffer[..], iset{(x, y)})
  {
    DrawPixel(info, buffer, AsUsize(x), AsUsize(y), color);
    PaintedSame(info, color, old(buffer[..]), buffer[..], iset{(AsUsize(x), AsUsize(y))}, iset{(x, y)});
  }
}

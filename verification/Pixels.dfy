/** The linear frame buffer as a picture: which pixel a byte belongs to, and what
    drawing a filled box or copying an image means pixel by pixel. */
module Pixels {
  import opened Bits

  /** A graphics mode: `h` by `v` pixels of `bpp` bytes, in a buffer of less than 4 GB. */
  datatype Geometry = Geometry(h: nat, v: nat, bpp: nat) {
    ghost predicate Ok() {
      h < 0x1_0000 && v < 0x1_0000 && 1 <= bpp <= 4 && Size() < 0x1_0000_0000
    }

    function Size(): nat {
      v * h * bpp
    }

    /** Byte `j` of the pixel in column `x` of row `y`. */
    function Offset(x: nat, y: nat, j: nat): nat {
      (y * h + x) * bpp + j
    }

    predicate Inside(i: int) {
      0 <= i < Size()
    }

    function Col(i: nat): nat
      requires h > 0 && bpp > 0
    {
      (i / bpp) % h
    }

    function Row(i: nat): nat
      requires h > 0 && bpp > 0
    {
      DivNat(i, bpp);
      DivNat(i / bpp, h);
      (i / bpp) / h
    }
  }

  /** Byte `j`, from the low end, of a colour. */
  function ColorByte(color: nat, j: nat): byte {
    Shr(color, 8 * j) % 256
  }

  lemma InsideHasWidth(g: Geometry, i: nat)
    requires g.Inside(i)
    ensures g.h > 0 && g.bpp > 0
  {
  }

  lemma RowOnScreen(g: Geometry, i: nat)
    requires g.Inside(i) && g.h > 0 && g.bpp > 0
    ensures g.Row(i) < g.v
  {
    PixelOffset(g, i);
    OffsetInside(g, g.Col(i), g.Row(i), i % g.bpp);
  }

  /** Coordinates and offsets are inverse to each other. */
  lemma OffsetPixel(g: Geometry, x: nat, y: nat, j: nat)
    requires x < g.h && j < g.bpp
    ensures g.Col(g.Offset(x, y, j)) == x && g.Row(g.Offset(x, y, j)) == y && g.Offset(x, y, j) % g.bpp == j
  {
    DivModUnique(y * g.h + x, g.bpp, j);
    DivModUnique(y, g.h, x);
  }

  lemma PixelOffset(g: Geometry, i: nat)
    requires g.h > 0 && g.bpp > 0
    ensures i == g.Offset(g.Col(i), g.Row(i), i % g.bpp) && g.Col(i) < g.h
  {
    DivModIs(i, g.bpp);
    DivNat(i, g.bpp);
    DivModIs(i / g.bpp, g.h);
  }

  /** A byte is inside the buffer exactly when its row is on the screen. */
  lemma OffsetInside(g: Geometry, x: nat, y: nat, j: nat)
    requires x < g.h && j < g.bpp
    ensures g.Inside(g.Offset(x, y, j)) <==> y < g.v
  {
    var p, n := y * g.h + x, g.v * g.h;
    if y < g.v {
      MulLess(y, g.v, g.h);
      MulLess(p, n, g.bpp);
    } else {
      MulLeq(g.v, y, g.h);
      MulLeq(n, p, g.bpp);
    }
  }

  /** The offsets of one row, from column `x0` to before column `x1`, are one stretch of bytes. */
  lemma RowStretch(g: Geometry, x0: nat, x1: nat, y: nat, i: nat)
    requires g.h > 0 && g.bpp > 0 && x0 <= x1 <= g.h
    ensures g.Offset(x0, y, 0) <= i < g.Offset(x1, y, 0) <==> g.Row(i) == y && x0 <= g.Col(i) < x1
  {
    DivNat(i, g.bpp);
    Stretch(y * g.h + x0, g.bpp, i);
    Stretch(y * g.h + x1, g.bpp, i);
    DivModIs(i / g.bpp, g.h);
    RowOf(g.h, x0, x1, y, g.Row(i), g.Col(i));
  }

  lemma RowOf(h: nat, x0: nat, x1: nat, y: nat, row: nat, col: nat)
    requires x0 <= x1 <= h && col < h
    ensures y * h + x0 <= row * h + col < y * h + x1 <==> row == y && x0 <= col < x1
  {
    if row < y { MulLess(row, y, h); }
    if row > y { MulLess(y, row, h); }
  }

  lemma Stretch(p: int, d: int, i: int)
    requires d > 0
    ensures p * d <= i <==> p <= i / d
  {
    DivModIs(i, d);
    if p <= i / d { if p < i / d { MulLess(p, i / d, d); } } else { MulLess(i / d, p, d); }
  }

  // ----- pictures

  predicate InBox(g: Geometry, i: nat, x0: nat, x1: nat, y0: nat, y1: nat)
    requires g.h > 0 && g.bpp > 0
  {
    x0 <= g.Col(i) < x1 && y0 <= g.Row(i) < y1
  }

  /** `m` with the part of the box [x0, x1) x [y0, y1) that is on the screen filled with `color`. */
  ghost function Filled(g: Geometry, m: seq<byte>, x0: nat, x1: nat, y0: nat, y1: nat, color: nat): (r: seq<byte>)
    requires |m| == g.Size()
  {
    seq(|m|, i requires 0 <= i < |m| =>
      InsideHasWidth(g, i); if InBox(g, i, x0, x1, y0, y1) then ColorByte(color, i % g.bpp) else m[i])
  }

  /** The stretch [from, to) of `m` overwritten with the bytes of `color`, over and over. */
  ghost function Span(g: Geometry, m: seq<byte>, from: nat, to: nat, color: nat): seq<byte>
    requires g.bpp > 0
  {
    seq(|m|, i requires 0 <= i < |m| => if from <= i < to then ColorByte(color, i % g.bpp) else m[i])
  }

  lemma SpanIsRow(g: Geometry, m: seq<byte>, x0: nat, x1: nat, y: nat, end: nat, color: nat)
    requires |m| == g.Size() && g.bpp > 0 && x0 <= end <= g.h
    requires end == x1 || end == g.h <= x1 || x1 <= x0 == end
    ensures Span(g, m, g.Offset(x0, y, 0), g.Offset(end, y, 0), color) == Filled(g, m, x0, x1, y, y + 1, color)
  {
    forall i | 0 <= i < |m|
      ensures Span(g, m, g.Offset(x0, y, 0), g.Offset(end, y, 0), color)[i] == Filled(g, m, x0, x1, y, y + 1, color)[i]
    {
      InsideHasWidth(g, i);
      RowStretch(g, x0, end, y, i);
      PixelOffset(g, i);
    }
  }

  /** Nothing is drawn to the right of the screen or below it. */
  lemma FilledOffScreen(g: Geometry, m: seq<byte>, x0: nat, x1: nat, y0: nat, y1: nat, color: nat)
    requires |m| == g.Size() && (x0 >= g.h || y0 >= g.v || x1 <= x0 || y1 <= y0)
    ensures Filled(g, m, x0, x1, y0, y1, color) == m
  {
    forall i | 0 <= i < |m|
      ensures Filled(g, m, x0, x1, y0, y1, color)[i] == m[i]
    {
      InsideHasWidth(g, i);
      RowOnScreen(g, i);
      PixelOffset(g, i);
    }
  }

  /** One more row. */
  lemma FilledRows(g: Geometry, m: seq<byte>, x0: nat, x1: nat, y0: nat, y: nat, color: nat)
    requires |m| == g.Size() && y0 <= y
    ensures Filled(g, Filled(g, m, x0, x1, y0, y, color), x0, x1, y, y + 1, color)
            == Filled(g, m, x0, x1, y0, y + 1, color)
  {
    var a := Filled(g, Filled(g, m, x0, x1, y0, y, color), x0, x1, y, y + 1, color);
    var b := Filled(g, m, x0, x1, y0, y + 1, color);
    forall i | 0 <= i < |m|
      ensures a[i] == b[i]
    {
      InsideHasWidth(g, i);
    }
  }

  /** Rows below the screen do not count. */
  lemma FilledClipped(g: Geometry, m: seq<byte>, x0: nat, x1: nat, y0: nat, y1: nat, color: nat)
    requires |m| == g.Size() && y1 >= g.v
    ensures Filled(g, m, x0, x1, y0, g.v, color) == Filled(g, m, x0, x1, y0, y1, color)
  {
    var a, b := Filled(g, m, x0, x1, y0, g.v, color), Filled(g, m, x0, x1, y0, y1, color);
    forall i | 0 <= i < |m|
      ensures a[i] == b[i]
    {
      InsideHasWidth(g, i);
      RowOnScreen(g, i);
    }
  }

  // ----- the colour a pixel shows

  /** The number whose bytes these are, low byte first. */
  function LittleEndian(bs: seq<byte>): nat {
    if bs == [] then 0 else bs[0] + 256 * LittleEndian(bs[1..])
  }

  /** The colour of the pixel in column `x` of row `y`, read back from the buffer. */
  ghost function PixelAt(g: Geometry, m: seq<byte>, x: nat, y: nat): nat
    requires |m| == g.Size() && g.bpp > 0 && x < g.h && y < g.v
  {
    OffsetInside(g, x, y, g.bpp - 1);
    LittleEndian(m[g.Offset(x, y, 0)..g.Offset(x, y, 0) + g.bpp])
  }

  lemma ByteMod(n: nat, p: nat)
    requires p > 0
    ensures n % (256 * p) == n % 256 + 256 * ((n / 256) % p)
  {
    var q := (n / 256) / p;
    DivModIs(n / 256, p);
    assert q * (256 * p) == 256 * (q * p);
    DivModUnique(q, 256 * p, n % 256 + 256 * ((n / 256) % p));
  }

  lemma ByteDiv(n: nat, p: nat)
    requires p > 0
    ensures (n / 256) / p == n / (256 * p)
  {
    var h := n / 256;
    DivModIs(h, p);
    assert (h / p) * (256 * p) == 256 * ((h / p) * p);
    DivModUnique(h / p, 256 * p, 256 * (h % p) + n % 256);
  }

  lemma NextByte(color: nat, j: nat)
    ensures ColorByte(color, j + 1) == ColorByte(color / 256, j)
  {
    PowByte(8 * j);
    ByteDiv(color, Pow2(8 * j));
  }

  lemma PowByte(n: nat)
    ensures Pow2(n + 8) == 256 * Pow2(n)
  {
    Powers();
    Pow2Add(8, n);
  }

  /** The bytes of a colour, read back, are the colour cut to so many bytes. */
  lemma {:induction false} ColorBytes(color: nat, bs: seq<byte>)
    requires forall j :: 0 <= j < |bs| ==> bs[j] == ColorByte(color, j)
    ensures LittleEndian(bs) == color % Pow2(8 * |bs|)
  {
    if bs != [] {
      forall j | 0 <= j < |bs| - 1
        ensures bs[1..][j] == ColorByte(color / 256, j)
      {
        NextByte(color, j);
      }
      ColorBytes(color / 256, bs[1..]);
      PowByte(8 * (|bs| - 1));
      ByteMod(color, Pow2(8 * (|bs| - 1)));
      assert bs[0] == Shr(color, 0) % 256 == color % 256;
    }
  }

  /** A pixel whose bytes are those of a colour shows that colour. */
  lemma PixelShows(g: Geometry, m: seq<byte>, x: nat, y: nat, color: nat)
    requires |m| == g.Size() && g.bpp > 0 && x < g.h && y < g.v
    requires forall j :: 0 <= j < g.bpp ==> g.Inside(g.Offset(x, y, j)) && m[g.Offset(x, y, j)] == ColorByte(color, j)
    ensures PixelAt(g, m, x, y) == color % Pow2(8 * g.bpp)
  {
    OffsetInside(g, x, y, g.bpp - 1);
    var bs := m[g.Offset(x, y, 0)..g.Offset(x, y, 0) + g.bpp];
    forall j | 0 <= j < |bs|
      ensures bs[j] == ColorByte(color, j)
    {
      assert bs[j] == m[g.Offset(x, y, j)];
    }
    ColorBytes(color, bs);
  }

  lemma PixelKept(g: Geometry, m: seq<byte>, r: seq<byte>, x: nat, y: nat)
    requires |m| == |r| == g.Size() && g.bpp > 0 && x < g.h && y < g.v
    requires forall j :: 0 <= j < g.bpp ==> g.Inside(g.Offset(x, y, j)) && r[g.Offset(x, y, j)] == m[g.Offset(x, y, j)]
    ensures PixelAt(g, r, x, y) == PixelAt(g, m, x, y)
  {
    OffsetInside(g, x, y, g.bpp - 1);
    var p := g.Offset(x, y, 0);
    var a, b := m[p..p + g.bpp], r[p..p + g.bpp];
    forall j | 0 <= j < |b|
      ensures a[j] == b[j]
    {
      assert r[g.Offset(x, y, j)] == m[g.Offset(x, y, j)];
    }
    assert a == b;
  }

  /** Every pixel of the box that is on the screen shows the colour, every other one what it did. */
  ghost predicate Painted(g: Geometry, m: seq<byte>, r: seq<byte>, x0: nat, x1: nat, y0: nat, y1: nat, color: nat)
    requires |m| == |r| == g.Size() && g.bpp > 0
  {
    forall x: nat, y: nat :: x < g.h && y < g.v ==>
      PixelAt(g, r, x, y) ==
        if x0 <= x < x1 && y0 <= y < y1 then color % Pow2(8 * g.bpp) else PixelAt(g, m, x, y)
  }

  lemma FilledPixel(g: Geometry, m: seq<byte>, x0: nat, x1: nat, y0: nat, y1: nat, color: nat, x: nat, y: nat)
    requires |m| == g.Size() && g.bpp > 0 && x < g.h && y < g.v
    ensures PixelAt(g, Filled(g, m, x0, x1, y0, y1, color), x, y) ==
            if x0 <= x < x1 && y0 <= y < y1 then color % Pow2(8 * g.bpp) else PixelAt(g, m, x, y)
  {
    var r := Filled(g, m, x0, x1, y0, y1, color);
    forall j | 0 <= j < g.bpp
      ensures g.Inside(g.Offset(x, y, j))
      ensures r[g.Offset(x, y, j)] ==
              if x0 <= x < x1 && y0 <= y < y1 then ColorByte(color, j) else m[g.Offset(x, y, j)]
    {
      OffsetInside(g, x, y, j);
      OffsetPixel(g, x, y, j);
    }
    if x0 <= x < x1 && y0 <= y < y1 { PixelShows(g, r, x, y, color); } else { PixelKept(g, m, r, x, y); }
  }

  /** Filling a box byte by byte paints it pixel by pixel. */
  lemma FilledPaints(g: Geometry, m: seq<byte>, x0: nat, x1: nat, y0: nat, y1: nat, color: nat)
    requires |m| == g.Size() && g.bpp > 0
    ensures Painted(g, m, Filled(g, m, x0, x1, y0, y1, color), x0, x1, y0, y1, color)
  {
    forall x: nat, y: nat | x < g.h && y < g.v
      ensures PixelAt(g, Filled(g, m, x0, x1, y0, y1, color), x, y) ==
              if x0 <= x < x1 && y0 <= y < y1 then color % Pow2(8 * g.bpp) else PixelAt(g, m, x, y)
    {
      FilledPixel(g, m, x0, x1, y0, y1, color, x, y);
    }
  }
}

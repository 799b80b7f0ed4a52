/** The tile pattern and the sprite, pixel by pixel. */
module Pictures {
  import opened Bits
  import opened Pixels

  // ----- tiles

  /** Whether a pixel coordinate pair lies in one of the first `done` tiles of an `n` x `n` grid. */
  predicate InTiles(x: nat, y: nat, tw: nat, th: nat, n: nat, done: nat)
    requires tw > 0 && th > 0
  {
    0 <= x / tw < n && 0 <= y / th < n && (y / th) * n + x / tw < done
  }

  ghost function TileByte(g: Geometry, m: seq<byte>, i: nat, tw: nat, th: nat, n: nat, done: nat,
                          color: (nat, nat) -> nat): byte
    requires i < |m| == g.Size() && tw > 0 && th > 0
  {
    InsideHasWidth(g, i);
    var x, y := g.Col(i), g.Row(i);
    if InTiles(x, y, tw, th, n, done) then ColorByte(color(x / tw, y / th), i % g.bpp) else m[i]
  }

  /** `m` with the first `done` tiles of an `n` x `n` grid drawn; a tile is `tw` x `th` pixels. */
  ghost function Tiled(g: Geometry, m: seq<byte>, tw: nat, th: nat, n: nat, done: nat,
                       color: (nat, nat) -> nat): seq<byte>
    requires |m| == g.Size() && tw > 0 && th > 0
  {
    seq(|m|, i requires 0 <= i < |m| => TileByte(g, m, i, tw, th, n, done, color))
  }

  /** The same for tiles that may be empty. */
  ghost function TiledSoFar(g: Geometry, m: seq<byte>, tw: nat, th: nat, n: nat, done: nat,
                            color: (nat, nat) -> nat): seq<byte>
    requires |m| == g.Size()
  {
    if tw > 0 && th > 0 then Tiled(g, m, tw, th, n, done, color) else m
  }

  lemma TiledNone(g: Geometry, m: seq<byte>, tw: nat, th: nat, n: nat, color: (nat, nat) -> nat)
    requires |m| == g.Size() && tw > 0 && th > 0
    ensures Tiled(g, m, tw, th, n, 0, color) == m
  {
    forall i | 0 <= i < |m|
      ensures Tiled(g, m, tw, th, n, 0, color)[i] == m[i]
    {
      InsideHasWidth(g, i);
    }
  }

  /** A pixel lies in a tile's box exactly when dividing its coordinates gives the tile. */
  lemma InTile(c: nat, d: nat, t: nat)
    requires d > 0
    ensures t * d <= c < t * d + d <==> c / d == t
  {
    Stretch(t, d, c);
    Stretch(t + 1, d, c);
  }

  lemma TileOrder(tx: nat, ty: nat, x: nat, y: nat, n: nat)
    requires tx < n && x < n
    ensures ty * n + tx == y * n + x <==> tx == x && ty == y
  {
    DivModUnique(ty, n, tx);
    DivModUnique(y, n, x);
  }

  /** Drawing the box of the next tile draws the next tile and touches no other. */
  lemma TiledNext(g: Geometry, m: seq<byte>, tw: nat, th: nat, n: nat, x: nat, y: nat, left: nat, top: nat, done: nat,
                  color: (nat, nat) -> nat)
    requires |m| == g.Size() && tw > 0 && th > 0 && x < n && y < n
    requires left == x * tw && top == y * th && done == y * n + x
    ensures Filled(g, Tiled(g, m, tw, th, n, done, color), left, left + tw, top, top + th, color(x, y))
            == Tiled(g, m, tw, th, n, done + 1, color)
  {
    var a := Filled(g, Tiled(g, m, tw, th, n, done, color), left, left + tw, top, top + th, color(x, y));
    var b := Tiled(g, m, tw, th, n, done + 1, color);
    forall i | 0 <= i < |m|
      ensures a[i] == b[i]
    {
      InsideHasWidth(g, i);
      TileNext(g.Col(i), g.Row(i), tw, th, n, x, y);
    }
  }

  lemma TiledSoFarNext(g: Geometry, m: seq<byte>, tw: nat, th: nat, n: nat, x: nat, y: nat, left: nat, top: nat,
                       color: (nat, nat) -> nat)
    requires |m| == g.Size() && x < n && y < n && left == x * tw && top == y * th
    ensures Filled(g, TiledSoFar(g, m, tw, th, n, y * n + x, color), left, left + tw, top, top + th, color(x, y))
            == TiledSoFar(g, m, tw, th, n, y * n + x + 1, color)
  {
    if tw > 0 && th > 0 { TiledNext(g, m, tw, th, n, x, y, left, top, y * n + x, color); }
    else { FilledOffScreen(g, m, left, left + tw, top, top + th, color(x, y)); }
  }

  /** The next tile adds exactly the pixels of its box. */
  lemma TileNext(px: nat, py: nat, tw: nat, th: nat, n: nat, x: nat, y: nat)
    requires tw > 0 && th > 0 && x < n && y < n
    ensures x * tw <= px < x * tw + tw && y * th <= py < y * th + th <==> px / tw == x && py / th == y
    ensures InTiles(px, py, tw, th, n, y * n + x + 1) <==>
            InTiles(px, py, tw, th, n, y * n + x) || (px / tw == x && py / th == y)
  {
    InTile(px, tw, x);
    InTile(py, th, y);
    DivNat(px, tw);
    DivNat(py, th);
    if px / tw < n { TileOrder(px / tw, py / th, x, y, n); }
  }

  /** The finished pattern: a pixel of the grid has its tile's colour, the rest is as it was. */
  ghost predicate Patterned(g: Geometry, m: seq<byte>, r: seq<byte>, n: nat, color: (nat, nat) -> nat)
    requires |m| == |r| == g.Size() && n > 0
  {
    var tw, th := g.h / n, g.v / n;
    forall x: nat, y: nat, j: nat :: x < g.h && y < g.v && j < g.bpp ==>
      g.Inside(g.Offset(x, y, j)) &&
      r[g.Offset(x, y, j)] ==
        if tw > 0 && th > 0 && 0 <= x / tw < n && 0 <= y / th < n then ColorByte(color(x / tw, y / th), j)
        else m[g.Offset(x, y, j)]
  }

  /** The same in terms of the colours that the pixels show. */
  ghost predicate Shows(g: Geometry, m: seq<byte>, r: seq<byte>, n: nat, color: (nat, nat) -> nat)
    requires |m| == |r| == g.Size() && n > 0 && g.bpp > 0
  {
    var tw, th := g.h / n, g.v / n;
    forall x: nat, y: nat :: x < g.h && y < g.v ==>
      PixelAt(g, r, x, y) ==
        if tw > 0 && th > 0 && 0 <= x / tw < n && 0 <= y / th < n then color(x / tw, y / th) % Pow2(8 * g.bpp)
        else PixelAt(g, m, x, y)
  }

  lemma PatternShows(g: Geometry, m: seq<byte>, r: seq<byte>, n: nat, drawn: (nat, nat) -> nat,
                     wanted: (nat, nat) -> nat)
    requires |m| == |r| == g.Size() && n > 0 && g.bpp > 0 && Patterned(g, m, r, n, drawn)
    requires forall x: nat, y: nat :: drawn(x, y) % Pow2(8 * g.bpp) == wanted(x, y) % Pow2(8 * g.bpp)
    ensures Shows(g, m, r, n, wanted)
  {
    var tw, th := g.h / n, g.v / n;
    forall x: nat, y: nat | x < g.h && y < g.v
      ensures PixelAt(g, r, x, y) ==
              if tw > 0 && th > 0 && 0 <= x / tw < n && 0 <= y / th < n then wanted(x / tw, y / th) % Pow2(8 * g.bpp)
              else PixelAt(g, m, x, y)
    {
      if tw > 0 && th > 0 && 0 <= x / tw < n && 0 <= y / th < n {
        PixelShows(g, r, x, y, drawn(x / tw, y / th));
      } else {
        PixelKept(g, m, r, x, y);
      }
    }
  }

  lemma TiledAll(g: Geometry, m: seq<byte>, n: nat, color: (nat, nat) -> nat)
    requires |m| == g.Size() && n > 0 && g.h / n > 0 && g.v / n > 0
    ensures Patterned(g, m, Tiled(g, m, g.h / n, g.v / n, n, n * n, color), n, color)
  {
    var tw, th := g.h / n, g.v / n;
    forall x: nat, y: nat, j: nat | x < g.h && y < g.v && j < g.bpp
      ensures g.Inside(g.Offset(x, y, j))
      ensures Tiled(g, m, tw, th, n, n * n, color)[g.Offset(x, y, j)] ==
              if 0 <= x / tw < n && 0 <= y / th < n then ColorByte(color(x / tw, y / th), j)
              else m[g.Offset(x, y, j)]
    {
      OffsetInside(g, x, y, j);
      OffsetPixel(g, x, y, j);
      if y / th < n { MulLess(y / th, n, n); }
    }
  }

  lemma UnchangedPattern(g: Geometry, m: seq<byte>, n: nat, color: (nat, nat) -> nat)
    requires |m| == g.Size() && n > 0 && (g.h / n == 0 || g.v / n == 0)
    ensures Patterned(g, m, m, n, color)
  {
    forall x: nat, y: nat, j: nat | x < g.h && y < g.v && j < g.bpp
      ensures g.Inside(g.Offset(x, y, j))
    {
      OffsetInside(g, x, y, j);
    }
  }

  /** The guard that skips tiles reaching over the edge never fires. */
  lemma TileFits(size: nat, n: nat, t: nat)
    requires n > 0 && t < n
    ensures size / n >= 0 && (t + 1) * (size / n) <= size
  {
    DivNat(size, n);
    DivModIs(size, n);
    MulLeq(t + 1, n, size / n);
  }

  // ----- sprites

  /** An image of `w` x `h` pixels. */
  datatype Image = Image(w: nat, h: nat, bytes: seq<byte>)

  ghost predicate ImageOk(g: Geometry, image: Image) {
    |image.bytes| == image.h * image.w * g.bpp
  }

  /** How many columns of the image are on the screen when it is drawn at column `x`. */
  function Visible(g: Geometry, x: nat, w: nat): nat {
    if x >= g.h then 0 else if x + w <= g.h then w else g.h - x
  }

  /** Byte `j` of the image at column `c` of row `r`, when rows are `pitch` pixels long. */
  function Source(g: Geometry, pitch: nat, c: nat, r: nat, j: nat): nat {
    (r * pitch + c) * g.bpp + j
  }

  lemma SourceInside(g: Geometry, image: Image, pitch: nat, c: nat, r: nat, j: nat)
    requires ImageOk(g, image) && pitch <= image.w && c < pitch && r < image.h && j < g.bpp
    ensures Source(g, pitch, c, r, j) < |image.bytes|
  {
    MulLess(r, image.h, pitch);
    MulCommLeq(image.h, pitch, image.w);
    MulLess(r * pitch + c, image.h * image.w, g.bpp);
  }

  lemma MulCommLeq(a: nat, b: nat, c: nat)
    requires b <= c
    ensures a * b <= a * c
  {
    MulLeq(b, c, a);
  }

  /** `m` with the rows before row `to` of the screen of an image drawn at (`x`, `y`), the
      image read as rows of `pitch` pixels. */
  ghost function Drawn(g: Geometry, m: seq<byte>, image: Image, x: nat, y: nat, pitch: nat, to: nat): seq<byte>
    requires |m| == g.Size() && ImageOk(g, image)
    requires Visible(g, x, image.w) <= pitch <= image.w && to <= y + image.h
  {
    seq(|m|, i requires 0 <= i < |m| =>
      InsideHasWidth(g, i);
      if InBox(g, i, x, x + image.w, y, to) then
        PixelOffset(g, i);
        SourceInside(g, image, pitch, g.Col(i) - x, g.Row(i) - y, i % g.bpp);
        image.bytes[Source(g, pitch, g.Col(i) - x, g.Row(i) - y, i % g.bpp)]
      else m[i])
  }

  /** What `vg_draw_sprite` draws: its source pointer only advances over visible columns. */
  ghost function Blitted(g: Geometry, m: seq<byte>, image: Image, x: nat, y: nat): seq<byte>
    requires |m| == g.Size() && ImageOk(g, image)
  {
    Drawn(g, m, image, x, y, Visible(g, x, image.w), y + image.h)
  }

  /** The image itself, clipped to the screen. */
  ghost function Clipped(g: Geometry, m: seq<byte>, image: Image, x: nat, y: nat): seq<byte>
    requires |m| == g.Size() && ImageOk(g, image)
  {
    Drawn(g, m, image, x, y, image.w, y + image.h)
  }

  /** `m` with `n` bytes from `from` on replaced by those of `bytes` from `src` on. */
  ghost function Copied(m: seq<byte>, from: nat, bytes: seq<byte>, src: nat, n: nat): seq<byte>
    requires src + n <= |bytes|
  {
    seq(|m|, i requires 0 <= i < |m| => if from <= i < from + n then bytes[src + (i - from)] else m[i])
  }

  /** Copying the next row's stretch of bytes draws the next row. */
  lemma DrawnNext(g: Geometry, m: seq<byte>, image: Image, x: nat, y: nat, row: nat)
    requires |m| == g.Size() && g.bpp > 0 && ImageOk(g, image) && x < g.h && y <= row < y + image.h
    ensures var vis := Visible(g, x, image.w);
            && Source(g, vis, 0, row - y, 0) + vis * g.bpp <= |image.bytes|
            && Copied(Drawn(g, m, image, x, y, vis, row), g.Offset(x, row, 0), image.bytes,
                      Source(g, vis, 0, row - y, 0), vis * g.bpp)
               == Drawn(g, m, image, x, y, vis, row + 1)
  {
    var vis := Visible(g, x, image.w);
    SourceRow(g, image, vis, row - y);
    var a := Copied(Drawn(g, m, image, x, y, vis, row), g.Offset(x, row, 0), image.bytes,
                    Source(g, vis, 0, row - y, 0), vis * g.bpp);
    var b := Drawn(g, m, image, x, y, vis, row + 1);
    forall i | 0 <= i < |m|
      ensures a[i] == b[i]
    {
      InsideHasWidth(g, i);
      PixelOffset(g, i);
      RowStretch(g, x, x + vis, row, i);
      OffsetAfter(g, x, row, vis);
      if g.Row(i) == row && x <= g.Col(i) < x + vis {
        StretchSource(g, x, row, g.Col(i) - x, i % g.bpp, vis, row - y);
      }
    }
  }

  lemma SourceRow(g: Geometry, image: Image, vis: nat, r: nat)
    requires ImageOk(g, image) && vis <= image.w && r < image.h
    ensures Source(g, vis, 0, r, 0) + vis * g.bpp <= |image.bytes|
  {
    MulLess(r, image.h, vis);
    MulCommLeq(image.h, vis, image.w);
    MulLeq(r * vis + vis, image.h * image.w, g.bpp);
    assert (r * vis + vis) * g.bpp == (r * vis) * g.bpp + vis * g.bpp;
  }

  lemma OffsetAfter(g: Geometry, x: nat, y: nat, n: nat)
    ensures g.Offset(x + n, y, 0) == g.Offset(x, y, 0) + n * g.bpp
  {
    assert (y * g.h + (x + n)) * g.bpp == (y * g.h + x) * g.bpp + n * g.bpp;
  }

  /** Inside a row, source and destination advance together. */
  lemma StretchSource(g: Geometry, x: nat, y: nat, c: nat, j: nat, pitch: nat, r: nat)
    ensures g.Offset(x + c, y, j) - g.Offset(x, y, 0) == Source(g, pitch, c, r, j) - Source(g, pitch, 0, r, 0)
  {
    OffsetAfter(g, x, y, c);
    assert (r * pitch + c) * g.bpp == (r * pitch) * g.bpp + c * g.bpp;
  }

  lemma DrawnNone(g: Geometry, m: seq<byte>, image: Image, x: nat, y: nat, pitch: nat, to: nat)
    requires |m| == g.Size() && ImageOk(g, image)
    requires Visible(g, x, image.w) <= pitch <= image.w && to <= y + image.h && (to <= y || x >= g.h || image.w == 0)
    ensures Drawn(g, m, image, x, y, pitch, to) == m
  {
    forall i | 0 <= i < |m|
      ensures Drawn(g, m, image, x, y, pitch, to)[i] == m[i]
    {
      InsideHasWidth(g, i);
      PixelOffset(g, i);
    }
  }

  lemma DrawnClipped(g: Geometry, m: seq<byte>, image: Image, x: nat, y: nat, pitch: nat, to: nat)
    requires |m| == g.Size() && ImageOk(g, image)
    requires Visible(g, x, image.w) <= pitch <= image.w && g.v <= to <= y + image.h
    ensures Drawn(g, m, image, x, y, pitch, to) == Drawn(g, m, image, x, y, pitch, y + image.h)
  {
    var a, b := Drawn(g, m, image, x, y, pitch, to), Drawn(g, m, image, x, y, pitch, y + image.h);
    forall i | 0 <= i < |m|
      ensures a[i] == b[i]
    {
      InsideHasWidth(g, i);
      RowOnScreen(g, i);
    }
  }

  // ----- when a sprite is drawn faithfully

  /** Whether the columns cut off at the right edge can shear the image. */
  predicate Sheared(g: Geometry, x: nat, y: nat, w: nat, h: nat) {
    x < g.h < x + w && y + 1 < g.v && h > 1
  }

  /** At this place, every image of this size is drawn as itself, clipped. */
  ghost predicate Faithful(g: Geometry, x: nat, y: nat, w: nat, h: nat) {
    forall m: seq<byte>, image: Image ::
      |m| == g.Size() && image.w == w && image.h == h && ImageOk(g, image) ==>
        Blitted(g, m, image, x, y) == Clipped(g, m, image, x, y)
  }

  lemma NotSheared(g: Geometry, m: seq<byte>, image: Image, x: nat, y: nat)
    requires |m| == g.Size() && ImageOk(g, image) && !Sheared(g, x, y, image.w, image.h)
    ensures Blitted(g, m, image, x, y) == Clipped(g, m, image, x, y)
  {
    var a, b := Blitted(g, m, image, x, y), Clipped(g, m, image, x, y);
    forall i | 0 <= i < |m|
      ensures a[i] == b[i]
    {
      InsideHasWidth(g, i);
      PixelOffset(g, i);
      RowOnScreen(g, i);
      if InBox(g, i, x, x + image.w, y, y + image.h) {
        SameSource(g, x, y, image.w, image.h, g.Col(i) - x, g.Row(i) - y, i % g.bpp);
      }
    }
  }

  /** Where nothing is sheared, both ways of reading the image agree. */
  lemma SameSource(g: Geometry, x: nat, y: nat, w: nat, h: nat, c: nat, r: nat, j: nat)
    requires !Sheared(g, x, y, w, h) && x + c < g.h && c < w && y + r < g.v && r < h
    ensures Source(g, Visible(g, x, w), c, r, j) == Source(g, w, c, r, j)
  {
  }

  /** The image that shows the shear: a single byte set, where the second row is read. */
  ghost function Probe(g: Geometry, x: nat, w: nat, h: nat): Image {
    Image(w, h, seq(h * w * g.bpp, k => if k == Visible(g, x, w) * g.bpp then 1 else 0))
  }

  lemma ShearShows(g: Geometry, m: seq<byte>, x: nat, y: nat, w: nat, h: nat)
    requires g.Ok() && |m| == g.Size() && Sheared(g, x, y, w, h)
    ensures ImageOk(g, Probe(g, x, w, h))
    ensures Blitted(g, m, Probe(g, x, w, h), x, y) != Clipped(g, m, Probe(g, x, w, h), x, y)
  {
    var image, vis := Probe(g, x, w, h), Visible(g, x, w);
    var i := g.Offset(x, y + 1, 0);
    OffsetInside(g, x, y + 1, 0);
    OffsetPixel(g, x, y + 1, 0);
    SourceInside(g, image, vis, 0, 1, 0);
    SourceInside(g, image, w, 0, 1, 0);
    MulLess(vis, w, g.bpp);
    assert Blitted(g, m, image, x, y)[i] == image.bytes[vis * g.bpp] == 1;
    assert Clipped(g, m, image, x, y)[i] == image.bytes[w * g.bpp] == 0;
  }

  /** A sprite is drawn faithfully, whatever it shows, exactly when no columns are cut off
      or at most one row is visible. */
  lemma FaithfulExactly(g: Geometry, x: nat, y: nat, w: nat, h: nat)
    requires g.Ok()
    ensures Faithful(g, x, y, w, h) <==> !Sheared(g, x, y, w, h)
  {
    if Sheared(g, x, y, w, h) {
      ShearShows(g, seq(g.Size(), _ => 0), x, y, w, h);
    } else {
      forall m: seq<byte>, image: Image |
        |m| == g.Size() && image.w == w && image.h == h && ImageOk(g, image)
        ensures Blitted(g, m, image, x, y) == Clipped(g, m, image, x, y)
      {
        NotSheared(g, m, image, x, y);
      }
    }
  }

  // ----- the colours a sprite shows

  /** Where pixel (`px`, `py`) of the screen lies in the image that a sprite at (`x`, `y`) reads: its
      rows count only the columns that are visible. */
  function ImagePixel(g: Geometry, image: Image, x: nat, y: nat, px: nat, py: nat): nat
    requires x <= px < x + image.w && px < g.h && y <= py
  {
    var columns: nat := if x + image.w <= g.h then image.w else g.h - x;
    MulNat(py - y, columns);
    (py - y) * columns + (px - x)
  }

  /** Inside its box a sprite shows the colours of the image, everything else is as it was. */
  lemma SpriteShows(g: Geometry, m: seq<byte>, image: Image, x: nat, y: nat, px: nat, py: nat)
    requires g.bpp > 0 && |m| == g.Size() && ImageOk(g, image) && px < g.h && py < g.v
    ensures x <= px < x + image.w && y <= py < y + image.h ==>
              var k := ImagePixel(g, image, x, y, px, py) * g.bpp;
              && 0 <= k && k + g.bpp <= |image.bytes|
              && PixelAt(g, Blitted(g, m, image, x, y), px, py) == LittleEndian(image.bytes[k..k + g.bpp])
    ensures !(x <= px < x + image.w && y <= py < y + image.h) ==>
              PixelAt(g, Blitted(g, m, image, x, y), px, py) == PixelAt(g, m, px, py)
  {
    var r := Blitted(g, m, image, x, y);
    forall j | 0 <= j < g.bpp
      ensures g.Inside(g.Offset(px, py, j)) && g.Col(g.Offset(px, py, j)) == px && g.Row(g.Offset(px, py, j)) == py
      ensures g.Offset(px, py, j) % g.bpp == j
    {
      OffsetInside(g, px, py, j);
      OffsetPixel(g, px, py, j);
    }
    if x <= px < x + image.w && y <= py < y + image.h {
      SpriteInside(g, m, image, x, y, px, py, ImagePixel(g, image, x, y, px, py) * g.bpp);
    } else {
      PixelKept(g, m, r, px, py);
    }
  }

  lemma SpriteInside(g: Geometry, m: seq<byte>, image: Image, x: nat, y: nat, px: nat, py: nat, k: int)
    requires g.bpp > 0 && |m| == g.Size() && ImageOk(g, image) && px < g.h && py < g.v
    requires x <= px < x + image.w && y <= py < y + image.h && k == ImagePixel(g, image, x, y, px, py) * g.bpp
    ensures 0 <= k && k + g.bpp <= |image.bytes|
    ensures PixelAt(g, Blitted(g, m, image, x, y), px, py) == LittleEndian(image.bytes[k..k + g.bpp])
  {
    var r, vis := Blitted(g, m, image, x, y), Visible(g, x, image.w);
    MulNat(ImagePixel(g, image, x, y, px, py), g.bpp);
    SourceInside(g, image, vis, px - x, py - y, g.bpp - 1);
    OffsetInside(g, px, py, g.bpp - 1);
    var p := g.Offset(px, py, 0);
    var a, b := image.bytes[k..k + g.bpp], r[p..p + g.bpp];
    forall j | 0 <= j < |b|
      ensures a[j] == b[j]
    {
      OffsetPixel(g, px, py, j);
      assert b[j] == r[g.Offset(px, py, j)];
      assert a[j] == image.bytes[Source(g, vis, px - x, py - y, j)];
    }
    assert a == b;
  }
}

/** The drawing functions of lab5/video_card.c, writing the mapped video memory in place. */
module Screen {
  import opened Bits
  import opened Pixels
  import opened Pictures
  import opened Colors

  /** When `vg_draw_hline` keeps to the frame buffer: it lets row `v_res` pass its check. */
  predicate HLineFits(g: Geometry, x: nat, y: nat, len: nat) {
    !(y == g.v && x < g.h && len > 0)
  }

  /** The condition is exact: the bytes a line that passes the check writes are all inside
      the buffer if and only if it holds. */
  lemma HLineFitsExactly(g: Geometry, x: nat, y: nat, len: nat)
    requires g.Ok() && x <= g.h && y <= g.v
    ensures HLineFits(g, x, y, len) <==>
            forall i, j :: x <= i < g.h && i < x + len && 0 <= j < g.bpp ==> g.Inside(g.Offset(i, y, j))
  {
    forall i, j | x <= i < g.h && i < x + len && 0 <= j < g.bpp
      ensures g.Inside(g.Offset(i, y, j)) <==> y < g.v
    {
      OffsetInside(g, i, y, j);
    }
    if x < g.h && len > 0 {
      assert g.Inside(g.Offset(x, y, 0)) <==> y < g.v;
    }
  }

  const INDEXED_MODE: nat := 0x105

  /** The colour of tile (`x`, `y`) of the pattern. */
  function TileColor(mode: nat, l: Layout, bpp: nat, n: nat, first: nat, step: nat, x: nat, y: nat): nat {
    if mode == INDEXED_MODE then Indexed(bpp, n, x, y, first, step) else Direct(l, x, y, first, step)
  }

  /** The colour of a tile as it is meant: palette mode counts the tiles. */
  function Meant(mode: nat, l: Layout, n: nat, first: nat, step: nat, x: nat, y: nat): nat {
    if mode == 0x105 then MulNat(y * n + x, step); first + (y * n + x) * step else Direct(l, x, y, first, step)
  }

  lemma TileColorIs(mode: nat, l: Layout, bpp: nat, n: nat, first: nat, step: nat, x: nat, y: nat)
    requires bpp <= 4
    ensures TileColor(mode, l, bpp, n, first, step, x, y) % Pow2(8 * bpp) ==
            Meant(mode, l, n, first, step, x, y) % Pow2(8 * bpp)
  {
    if mode == INDEXED_MODE {
      var k := y * n + x;
      IndexedIs(bpp, n, x, y, k, first, step);
      ModOnce(first + k * step, Pow2(8 * bpp));
    }
  }

  lemma ModOnce(c: nat, p: nat)
    requires p > 0
    ensures c % p % p == c % p
  {
    DivModIs(c, p);
    DivModUnique(0, p, c % p);
  }

  /** `vg_draw_sprite` on one of its two targets: `sprite` is the source pointer, moving on
      byte by byte. */
  method DrawSprite(g: Geometry, mem: array<byte>, image: Image, x: nat, y: nat)
    requires g.Ok() && mem.Length == g.Size() && ImageOk(g, image)
    modifies mem
    ensures mem[..] == Blitted(g, old(mem[..]), image, x, y)
  {
    ghost var m, vis := mem[..], Visible(g, x, image.w);
    DrawnNone(g, m, image, x, y, vis, y);
    var sprite := 0;
    var i := y;
    while i < g.v && i < y + image.h
      invariant y <= i <= y + image.h
      invariant if x < g.h then sprite == Source(g, vis, 0, i - y, 0) else sprite == 0
      invariant mem[..] == Drawn(g, m, image, x, y, vis, i)
    {
      if x < g.h {
        DrawnNext(g, m, image, x, y, i);
        NextSourceRow(g, vis, i - y);
      } else {
        DrawnNone(g, m, image, x, y, vis, i);
        DrawnNone(g, m, image, x, y, vis, i + 1);
      }
      sprite := DrawSpriteRow(g, mem, image, x, i, sprite);
      i := i + 1;
    }
    if i < y + image.h {
      if i == y { DrawnNone(g, m, image, x, y, vis, i); }
      DrawnClipped(g, m, image, x, y, vis, i);
    }
  }

  lemma NextSourceRow(g: Geometry, pitch: nat, r: nat)
    ensures Source(g, pitch, 0, r + 1, 0) == Source(g, pitch, 0, r, 0) + pitch * g.bpp
  {
    assert ((r + 1) * pitch) * g.bpp == (r * pitch + pitch) * g.bpp == (r * pitch) * g.bpp + pitch * g.bpp;
  }

  /** The inner loops of `vg_draw_sprite`, over the columns and the bytes of a pixel. */
  method DrawSpriteRow(g: Geometry, mem: array<byte>, image: Image, x: nat, row: nat, src: nat) returns (sprite: nat)
    requires g.Ok() && mem.Length == g.Size() && row < g.v
    requires src + Visible(g, x, image.w) * g.bpp <= |image.bytes|
    modifies mem
    ensures sprite == src + Visible(g, x, image.w) * g.bpp
    ensures mem[..] == Copied(old(mem[..]), g.Offset(x, row, 0), image.bytes, src, Visible(g, x, image.w) * g.bpp)
  {
    ghost var m, vis, from := mem[..], Visible(g, x, image.w), g.Offset(x, row, 0);
    ghost var t: nat := 0;
    sprite := src;
    var j := x;
    while j < g.h && j < x + image.w
      invariant x <= j <= x + vis
      invariant t == (j - x) * g.bpp && t <= vis * g.bpp
      invariant sprite == src + t
      invariant mem[..] == Copied(m, from, image.bytes, src, t)
    {
      MulLess(j - x, vis, g.bpp);
      OffsetAfter(g, x, row, j - x);
      OffsetInside(g, j, row, g.bpp - 1);
      NextColumn(j - x, g.bpp);
      sprite := CopyPixel(mem, (row * g.h + j) * g.bpp, g.bpp, image.bytes, sprite, m, from, src);
      t := t + g.bpp;
      j := j + 1;
    }
  }

  /** The innermost loop: the bytes of one pixel. */
  method CopyPixel(mem: array<byte>, p: nat, bpp: nat, bytes: seq<byte>, first: nat,
                   ghost m: seq<byte>, ghost from: nat, ghost src: nat)
    returns (sprite: nat)
    requires p + bpp <= mem.Length && first + bpp <= |bytes|
    requires src <= first && p - from == first - src
    requires mem[..] == Copied(m, from, bytes, src, first - src)
    modifies mem
    ensures sprite == first + bpp
    ensures mem[..] == Copied(m, from, bytes, src, sprite - src)
  {
    sprite := first;
    for b := 0 to bpp
      invariant sprite == first + b
      invariant mem[..] == Copied(m, from, bytes, src, sprite - src)
    {
      mem[p + b] := bytes[sprite];
      sprite := sprite + 1;
    }
  }

  lemma NextColumn(c: nat, d: nat)
    ensures (c + 1) * d == c * d + d
  {
  }

  /** There is room for the pixel at (`i`, `y`), and the next one follows it. */
  lemma PixelRoom(g: Geometry, x: nat, i: nat, y: nat)
    requires g.Ok() && x <= i < g.h && y < g.v
    ensures g.Offset(i, y, 0) % g.bpp == 0 && g.Offset(i, y, 0) + g.bpp <= g.Size()
    ensures g.Offset(x, y, 0) <= g.Offset(i, y, 0)
    ensures g.Offset(i + 1, y, 0) == g.Offset(i, y, 0) + g.bpp
  {
    MulNat(y, g.h);
    OffsetInside(g, i, y, g.bpp - 1);
    DivModUnique(y * g.h + i, g.bpp, 0);
    MulLeq(y * g.h + x, y * g.h + i, g.bpp);
    OffsetAfter(g, i, y, 1);
  }

  class VideoCard {
    const g: Geometry
    const mem: array<byte>

    constructor (g: Geometry)
      requires g.Ok()
      ensures Mapped() && this.g == g && fresh(mem)
    {
      this.g := g;
      mem := new byte[g.Size()];
    }

    ghost predicate Mapped() {
      g.Ok() && mem.Length == g.Size()
    }

    /** The bytes of one pixel. */
    method PutPixel(p: nat, color: nat, ghost from: nat, ghost m: seq<byte>)
      requires Mapped() && p % g.bpp == 0 && p + g.bpp <= mem.Length && from <= p
      requires mem[..] == Span(g, m, from, p, color)
      modifies mem
      ensures mem[..] == Span(g, m, from, p + g.bpp, color)
    {
      for j := 0 to g.bpp
        invariant mem[..] == Span(g, m, from, p + j, color)
      {
        DivModIs(p, g.bpp);
        DivModUnique(p / g.bpp, g.bpp, j);
        mem[p + j] := ColorByte(color, j);
      }
    }

    method DrawHLine(x: nat, y: nat, len: nat, color: nat) returns (r: nat)
      requires Mapped() && HLineFits(g, x, y, len)
      modifies mem
      ensures mem[..] == Filled(g, old(mem[..]), x, x + len, y, y + 1, color)
      ensures Painted(g, old(mem[..]), mem[..], x, x + len, y, y + 1, color)
      ensures r == if x > g.h || y > g.v then 1 else 0
    {
      ghost var m := mem[..];
      FilledPaints(g, m, x, x + len, y, y + 1, color);
      if x > g.h || y > g.v {
        FilledOffScreen(g, m, x, x + len, y, y + 1, color);
        return 1;
      }
      var p := (y * g.h + x) * g.bpp;
      var i := x;
      while i < g.h && i < x + len
        invariant x <= i <= g.h && (i <= x + len)
        invariant p == g.Offset(i, y, 0)
        invariant mem[..] == Span(g, m, g.Offset(x, y, 0), p, color)
      {
        assert y < g.v;
        PixelRoom(g, x, i, y);
        PutPixel(p, color, g.Offset(x, y, 0), m);
        p := p + g.bpp;
        i := i + 1;
      }
      SpanIsRow(g, m, x, x + len, y, i, color);
      return 0;
    }

    method DrawRectangle(x: nat, y: nat, width: nat, height: nat, color: nat) returns (r: nat)
      requires Mapped()
      modifies mem
      ensures mem[..] == Filled(g, old(mem[..]), x, x + width, y, y + height, color)
      ensures Painted(g, old(mem[..]), mem[..], x, x + width, y, y + height, color)
      ensures r != 0 <==> x > g.h && y < g.v && height > 0
    {
      ghost var m := mem[..];
      FilledOffScreen(g, m, x, x + width, y, y, color);
      FilledPaints(g, m, x, x + width, y, y + height, color);
      r := 0;
      var i := y;
      while i < g.v && i < y + height
        invariant y <= i <= y + height && (i > y ==> i <= g.v)
        invariant mem[..] == Filled(g, m, x, x + width, y, i, color)
        invariant r == if x > g.h && i > y then 1 else 0
      {
        FilledRows(g, m, x, x + width, y, i, color);
        var line := DrawHLine(x, i, width, color);
        r := if r == 1 || line == 1 then 1 else 0;
        i := i + 1;
      }
      if i < y + height {
        if i == y {
          FilledOffScreen(g, m, x, x + width, y, y + height, color);
        } else {
          FilledClipped(g, m, x, x + width, y, y + height, color);
        }
      }
    }

    /** The inner loop's body: tile (`x`, `y`), unless it reaches over the edge. */
    method DrawTile(l: Layout, mode: nat, n: nat, first: nat, step: nat, tw: nat, th: nat, x: nat, y: nat,
                    ghost m: seq<byte>, ghost color: (nat, nat) -> nat)
      requires Mapped() && n > 0 && x < n && y < n && tw == g.h / n && th == g.v / n && |m| == g.Size()
      requires color(x, y) == TileColor(mode, l, g.bpp, n, first, step, x, y)
      requires mem[..] == TiledSoFar(g, m, tw, th, n, y * n + x, color)
      modifies mem
      ensures mem[..] == TiledSoFar(g, m, tw, th, n, y * n + x + 1, color)
    {
      TileFits(g.h, n, x);
      TileFits(g.v, n, y);
      if (x + 1) * tw > g.h || (y + 1) * th > g.v { return; }
      var c := if mode == INDEXED_MODE then Indexed(g.bpp, n, x, y, first, step) else Direct(l, x, y, first, step);
      MulNat(x, tw);
      MulNat(y, th);
      var left: nat, top: nat := x * tw, y * th;
      var _ := DrawRectangle(left, top, tw, th, c);
      TiledSoFarNext(g, m, tw, th, n, x, y, left, top, color);
    }

    lemma PatternMeant(l: Layout, mode: nat, n: nat, first: nat, step: nat, m: seq<byte>, color: (nat, nat) -> nat)
      requires Mapped() && n > 0 && |m| == g.Size() && Patterned(g, m, mem[..], n, color)
      requires forall x: nat, y: nat :: color(x, y) == TileColor(mode, l, g.bpp, n, first, step, x, y)
      ensures Shows(g, m, mem[..], n, (x, y) => Meant(mode, l, n, first, step, x, y))
    {
      var wanted := (x, y) => Meant(mode, l, n, first, step, x, y);
      forall x: nat, y: nat
        ensures color(x, y) % Pow2(8 * g.bpp) == wanted(x, y) % Pow2(8 * g.bpp)
      {
        TileColorIs(mode, l, g.bpp, n, first, step, x, y);
      }
      PatternShows(g, m, mem[..], n, color, wanted);
    }

    method DrawPattern(l: Layout, mode: nat, n: nat, first: nat, step: nat) returns (r: nat)
      requires Mapped() && n > 0 && (mode == INDEXED_MODE ==> g.bpp <= 3)
      modifies mem
      ensures Patterned(g, old(mem[..]), mem[..], n, (x, y) => TileColor(mode, l, g.bpp, n, first, step, x, y))
      ensures Shows(g, old(mem[..]), mem[..], n, (x, y) => Meant(mode, l, n, first, step, x, y))
      ensures r == 0
    {
      DivNat(g.h, n);
      DivNat(g.v, n);
      var tw: nat, th: nat := g.h / n, g.v / n;
      ghost var m := mem[..];
      ghost var color: (nat, nat) -> nat := (x, y) => TileColor(mode, l, g.bpp, n, first, step, x, y);
      if tw > 0 && th > 0 { TiledNone(g, m, tw, th, n, color); }
      for y := 0 to n
        invariant mem[..] == TiledSoFar(g, m, tw, th, n, y * n, color)
      {
        for x := 0 to n
          invariant mem[..] == TiledSoFar(g, m, tw, th, n, y * n + x, color)
        {
          DrawTile(l, mode, n, first, step, tw, th, x, y, m, color);
        }
        NextColumn(y, n);
      }
      if tw > 0 && th > 0 { TiledAll(g, m, n, color); } else { UnchangedPattern(g, m, n, color); }
      PatternMeant(l, mode, n, first, step, m, color);
      return 0;
    }
  }
}

/** The colours of the tile pattern: the per-channel arithmetic of direct colour modes and
    the palette arithmetic of mode 0x105, on 32-bit unsigned numbers. */
module Colors {
  import opened Bits

  /** Where the mode keeps its three channels. */
  datatype Layout = Layout(redSize: nat, greenSize: nat, blueSize: nat, redPos: nat, greenPos: nat, bluePos: nat)

  /** A field of at least one bit, low enough for `1 << size` to be an `int`. */
  predicate FieldOk(size: nat, pos: nat) {
    1 <= size <= 30 && pos + size <= 32
  }

  predicate Apart(size1: nat, pos1: nat, size2: nat, pos2: nat) {
    pos1 + size1 <= pos2 || pos2 + size2 <= pos1
  }

  predicate LayoutOk(l: Layout) {
    && FieldOk(l.redSize, l.redPos) && FieldOk(l.greenSize, l.greenPos) && FieldOk(l.blueSize, l.bluePos)
    && Apart(l.redSize, l.redPos, l.greenSize, l.greenPos)
    && Apart(l.redSize, l.redPos, l.blueSize, l.bluePos)
    && Apart(l.greenSize, l.greenPos, l.blueSize, l.bluePos)
  }

  /** `get...BitsFirst`. */
  function Channel(color: nat, size: nat, pos: nat): nat {
    BitAnd(Pow2(size) - 1, Shr(color, pos))
  }

  function BlueBits(l: Layout, k: nat, first: nat, step: nat): nat {
    U32(Channel(first, l.blueSize, l.bluePos) + U32(U32(k) * step)) % Pow2(l.blueSize)
  }

  function GreenBits(l: Layout, k: nat, first: nat, step: nat): nat {
    U32(Channel(first, l.greenSize, l.greenPos) + U32(k * step)) % Pow2(l.greenSize)
  }

  function RedBits(l: Layout, k: nat, first: nat, step: nat): nat {
    U32(Channel(first, l.redSize, l.redPos) + U32(k * step)) % Pow2(l.redSize)
  }

  /** `calculateColorPatternDirect`; blue is not shifted back to its field. */
  function Direct(l: Layout, x: nat, y: nat, first: nat, step: nat): nat {
    var blue := BlueBits(l, x + y, first, step);
    var green := Shl(GreenBits(l, y, first, step), l.greenPos);
    var red := Shl(RedBits(l, x, first, step), l.redPos);
    BitOr(BitOr(red, green), blue)
  }

  /** The number of a tile, row by row. */
  function TileNumber(n: nat, x: nat, y: nat): nat {
    MulNat(y, n);
    y * n + x
  }

  /** `calculateColorPatternIndexed`. */
  function Indexed(bpp: nat, n: nat, x: nat, y: nat, first: nat, step: nat): nat {
    U32(first + U32(U32(TileNumber(n, x, y)) * step)) % Pow2(8 * bpp)
  }

  /** What a channel should hold after `k` steps. */
  function Stepped(color: nat, size: nat, pos: nat, k: nat, step: nat): nat {
    (Channel(color, size, pos) + k * step) % Pow2(size)
  }

  // ----- arithmetic modulo powers of two

  lemma AddMultiple(n: nat, k: nat, d: nat)
    requires d > 0
    ensures (n + k * d) % d == n % d
  {
    DivModIs(n, d);
    assert n + k * d == (n / d + k) * d + n % d;
    DivModUnique(n / d + k, d, n % d);
  }

  /** Numbers that differ by a multiple of `d` are equal modulo `d`. */
  lemma ModDrop(n: nat, c: nat, s: nat, d: nat)
    requires d > 0
    ensures (c + (n % d) * s) % d == (c + n * s) % d
  {
    DivModIs(n, d);
    DivNat(n, d);
    var q := n / d;
    assert c + n * s == c + (n % d) * s + (q * s) * d by {
      assert n * s == (q * d + n % d) * s == (q * s) * d + (n % d) * s;
    }
    AddMultiple(c + (n % d) * s, q * s, d);
  }

  /** Wrapping to 32 bits does not matter modulo a smaller power of two. */
  lemma WrapMod(n: nat, k: nat)
    requires k <= 32
    ensures U32(n) % Pow2(k) == n % Pow2(k)
  {
    Pow2Add(32 - k, k);
    PowWord();
    ModMod(n, Pow2(32 - k), Pow2(k));
  }

  lemma ModMod(n: nat, f: nat, d: nat)
    requires f > 0 && d > 0
    ensures f * d > 0 && (n % (f * d)) % d == n % d
  {
    var w := f * d;
    DivModIs(n, w);
    DivNat(n, w);
    var q := n / w;
    assert q * w == (q * f) * d;
    AddMultiple(n % w, q * f, d);
  }

  lemma PowWord()
    ensures Pow2(32) == WORD
  {
    Pow2Add(16, 16);
    assert Pow2(16) == 0x1_0000 by { Pow2Add(8, 8); assert Pow2(8) == 256; }
  }

  lemma SumDrop(n: nat, c: nat, d: nat)
    requires d > 0
    ensures (c + n % d) % d == (c + n) % d
  {
    ModDrop(n, c, 1, d);
  }

  lemma WrapSum(c: nat, n: nat, size: nat)
    requires size <= 32
    ensures U32(c + U32(n)) % Pow2(size) == (c + n) % Pow2(size)
  {
    WrapMod(c + U32(n), size);
    SumDrop(U32(n), c, Pow2(size));
    WrapMod(n, size);
    SumDrop(n, c, Pow2(size));
  }

  lemma WrapFactor(c: nat, k: nat, step: nat, size: nat)
    requires size <= 32
    ensures (c + U32(k) * step) % Pow2(size) == (c + k * step) % Pow2(size)
  {
    ModDrop(U32(k), c, step, Pow2(size));
    WrapMod(k, size);
    ModDrop(k, c, step, Pow2(size));
  }

  lemma WrapStepped(c: nat, k: nat, step: nat, size: nat)
    requires size <= 32
    ensures U32(c + U32(U32(k) * step)) % Pow2(size) == (c + k * step) % Pow2(size)
  {
    WrapSum(c, U32(k) * step, size);
    WrapFactor(c, k, step, size);
  }

  // ----- fields

  lemma {:induction false} Pow2Mono(a: nat, b: nat)
    requires a <= b
    ensures Pow2(a) <= Pow2(b)
  {
    if a < b { Pow2Mono(a, b - 1); }
  }

  lemma ChannelIs(color: nat, size: nat, pos: nat)
    ensures Channel(color, size, pos) == (color / Pow2(pos)) % Pow2(size)
  {
    MaskIsMod(size, Shr(color, pos));
  }

  /** A field between lower and higher bits. */
  lemma FieldOf(v: nat, high: nat, f: nat, low: nat, size: nat, pos: nat)
    requires low < Pow2(pos) && f < Pow2(size) && v == high * Pow2(pos + size) + f * Pow2(pos) + low
    ensures Channel(v, size, pos) == f
  {
    Pow2Add(size, pos);
    ChannelIs(v, size, pos);
    FieldArithmetic(v, high, f, low, Pow2(size), Pow2(pos));
  }

  lemma FieldArithmetic(v: nat, high: nat, f: nat, low: nat, s: nat, p: nat)
    requires low < p && f < s && v == high * (s * p) + f * p + low
    ensures v / p % s == f
  {
    MulAssoc(high, s, p);
    AddMul(high * s, f, p);
    DivModUnique(high * s + f, p, low);
    DivModUnique(high, s, f);
  }

  lemma ShlSplit(a: nat, p: nat, q: nat)
    requires q <= p
    ensures Shl(a, p) == (a * Pow2(p - q)) * Pow2(q)
  {
    Pow2Add(p - q, q);
    MulAssoc(a, Pow2(p - q), Pow2(q));
  }

  lemma MulAssoc(a: nat, b: nat, c: nat)
    ensures (a * b) * c == a * (b * c)
  {
  }

  lemma AddMul(a: nat, b: nat, c: nat)
    ensures (a + b) * c == a * c + b * c
  {
  }

  /** Three fields, from the top: `a` at `pa`, `b` at `pb`, `c` at 0. */
  ghost predicate Stacked(a: nat, sa: nat, pa: nat, b: nat, sb: nat, pb: nat, c: nat, sc: nat) {
    a < Pow2(sa) && b < Pow2(sb) && c < Pow2(sc) && sc <= pb && pb + sb <= pa
  }

  lemma StackedOr(a: nat, sa: nat, pa: nat, b: nat, sb: nat, pb: nat, c: nat, sc: nat)
    requires Stacked(a, sa, pa, b, sb, pb, c, sc)
    ensures BitOr(BitOr(Shl(a, pa), Shl(b, pb)), c) == Shl(a, pa) + Shl(b, pb) + c
  {
    FieldBelow(b, sb, pb, c, sc, pa);
    OrDisjoint(Shl(b, pb), a, pa);
    Pow2Mono(sc, pb);
    var high := TopFields(a, pa, b, pb);
    OrDisjoint(c, high, pb);
  }

  /** Two fields above `pb`, as one. */
  lemma TopFields(a: nat, pa: nat, b: nat, pb: nat) returns (high: nat)
    requires pb <= pa
    ensures Shl(high, pb) == Shl(a, pa) + Shl(b, pb)
  {
    high := a * Pow2(pa - pb) + b;
    ShlSplit(a, pa, pb);
    AddMul(a * Pow2(pa - pb), b, Pow2(pb));
  }

  lemma StackedTop(a: nat, sa: nat, pa: nat, b: nat, sb: nat, pb: nat, c: nat, sc: nat)
    requires Stacked(a, sa, pa, b, sb, pb, c, sc)
    ensures Channel(Shl(a, pa) + Shl(b, pb) + c, sa, pa) == a
  {
    FieldBelow(b, sb, pb, c, sc, pa);
    FieldOf(Shl(a, pa) + Shl(b, pb) + c, 0, a, Shl(b, pb) + c, sa, pa);
  }

  lemma StackedMiddle(a: nat, sa: nat, pa: nat, b: nat, sb: nat, pb: nat, c: nat, sc: nat)
    requires Stacked(a, sa, pa, b, sb, pb, c, sc)
    ensures Channel(Shl(a, pa) + Shl(b, pb) + c, sb, pb) == b
  {
    Pow2Mono(sc, pb);
    ShlSplit(a, pa, pb + sb);
    FieldOf(Shl(a, pa) + Shl(b, pb) + c, a * Pow2(pa - (pb + sb)), b, c, sb, pb);
  }

  lemma StackedBottom(a: nat, sa: nat, pa: nat, b: nat, sb: nat, pb: nat, c: nat, sc: nat)
    requires Stacked(a, sa, pa, b, sb, pb, c, sc)
    ensures Channel(Shl(a, pa) + Shl(b, pb) + c, sc, 0) == c
  {
    ShlSplit(a, pa, sc);
    ShlSplit(b, pb, sc);
    var ha, hb := a * Pow2(pa - sc), b * Pow2(pb - sc);
    AddMul(ha, hb, Pow2(sc));
    FieldOf(Shl(a, pa) + Shl(b, pb) + c, ha + hb, c, 0, sc, 0);
  }

  lemma StackedFields(a: nat, sa: nat, pa: nat, b: nat, sb: nat, pb: nat, c: nat, sc: nat)
    requires Stacked(a, sa, pa, b, sb, pb, c, sc)
    ensures var v := BitOr(BitOr(Shl(a, pa), Shl(b, pb)), c);
            Channel(v, sa, pa) == a && Channel(v, sb, pb) == b && Channel(v, sc, 0) == c
  {
    StackedOr(a, sa, pa, b, sb, pb, c, sc);
    StackedTop(a, sa, pa, b, sb, pb, c, sc);
    StackedMiddle(a, sa, pa, b, sb, pb, c, sc);
    StackedBottom(a, sa, pa, b, sb, pb, c, sc);
  }

  /** A field and what is below it stay below the next one. */
  lemma FieldBelow(b: nat, sb: nat, pb: nat, c: nat, sc: nat, pa: nat)
    requires b < Pow2(sb) && c < Pow2(sc) && sc <= pb && pb + sb <= pa
    ensures Shl(b, pb) + c < Pow2(pa)
  {
    Pow2Mono(sc, pb);
    MulLess(b, Pow2(sb), Pow2(pb));
    Pow2Add(sb, pb);
    Pow2Mono(pb + sb, pa);
  }

  // ----- the direct colours

  /** With blue at the bottom, every channel of a direct colour is the stepped channel. */
  lemma DirectChannels(l: Layout, x: nat, y: nat, first: nat, step: nat)
    requires LayoutOk(l) && l.bluePos == 0
    ensures var color := Direct(l, x, y, first, step);
            && Channel(color, l.redSize, l.redPos) == Stepped(first, l.redSize, l.redPos, x, step)
            && Channel(color, l.greenSize, l.greenPos) == Stepped(first, l.greenSize, l.greenPos, y, step)
            && Channel(color, l.blueSize, l.bluePos) == Stepped(first, l.blueSize, l.bluePos, x + y, step)
  {
    var r := Stepped(first, l.redSize, l.redPos, x, step);
    var g := Stepped(first, l.greenSize, l.greenPos, y, step);
    var b := Stepped(first, l.blueSize, l.bluePos, x + y, step);
    DirectIs(l, x, y, first, step);
    if l.greenPos < l.redPos {
      StackedFields(r, l.redSize, l.redPos, g, l.greenSize, l.greenPos, b, l.blueSize);
    } else {
      OrComm(Shl(r, l.redPos), Shl(g, l.greenPos));
      StackedFields(g, l.greenSize, l.greenPos, r, l.redSize, l.redPos, b, l.blueSize);
    }
  }

  lemma DirectIs(l: Layout, x: nat, y: nat, first: nat, step: nat)
    requires LayoutOk(l)
    ensures Direct(l, x, y, first, step) ==
            BitOr(BitOr(Shl(Stepped(first, l.redSize, l.redPos, x, step), l.redPos),
                        Shl(Stepped(first, l.greenSize, l.greenPos, y, step), l.greenPos)),
                  Stepped(first, l.blueSize, l.bluePos, x + y, step))
  {
    BlueIs(l, x + y, first, step);
    GreenIs(l, y, first, step);
    RedIs(l, x, first, step);
  }

  lemma BlueIs(l: Layout, k: nat, first: nat, step: nat)
    requires LayoutOk(l)
    ensures BlueBits(l, k, first, step) == Stepped(first, l.blueSize, l.bluePos, k, step)
  {
    WrapStepped(Channel(first, l.blueSize, l.bluePos), k, step, l.blueSize);
  }

  lemma GreenIs(l: Layout, k: nat, first: nat, step: nat)
    requires LayoutOk(l)
    ensures GreenBits(l, k, first, step) == Stepped(first, l.greenSize, l.greenPos, k, step)
  {
    WrapSum(Channel(first, l.greenSize, l.greenPos), k * step, l.greenSize);
  }

  lemma RedIs(l: Layout, k: nat, first: nat, step: nat)
    requires LayoutOk(l)
    ensures RedBits(l, k, first, step) == Stepped(first, l.redSize, l.redPos, k, step)
  {
    WrapSum(Channel(first, l.redSize, l.redPos), k * step, l.redSize);
  }

  /** Stepping composes: walking by (x1, y1) and then by (x2, y2) is walking by their sum. */
  lemma DirectComposes(l: Layout, x1: nat, y1: nat, x2: nat, y2: nat, first: nat, step: nat)
    requires LayoutOk(l) && l.bluePos == 0
    ensures Direct(l, x2, y2, Direct(l, x1, y1, first, step), step) == Direct(l, x1 + x2, y1 + y2, first, step)
  {
    var color := Direct(l, x1, y1, first, step);
    DirectChannels(l, x1, y1, first, step);
    DirectIs(l, x2, y2, color, step);
    DirectIs(l, x1 + x2, y1 + y2, first, step);
    SteppedTwice(first, color, l.redSize, l.redPos, x1, x2, step);
    SteppedTwice(first, color, l.greenSize, l.greenPos, y1, y2, step);
    SteppedTwice(first, color, l.blueSize, l.bluePos, x1 + y1, x2 + y2, step);
  }

  lemma SteppedTwice(first: nat, color: nat, size: nat, pos: nat, k1: nat, k2: nat, step: nat)
    requires Channel(color, size, pos) == Stepped(first, size, pos, k1, step)
    ensures Stepped(color, size, pos, k2, step) == Stepped(first, size, pos, k1 + k2, step)
  {
    var c := Channel(first, size, pos);
    ModDrop(c + k1 * step, k2 * step, 1, Pow2(size));
    assert c + k1 * step + k2 * step == c + (k1 + k2) * step;
  }

  /** The blue of every direct colour is the stepped blue of the first one. */
  ghost predicate KeepsBlue(l: Layout) {
    forall x: nat, y: nat, first: nat, step: nat ::
      Channel(Direct(l, x, y, first, step), l.blueSize, l.bluePos) ==
      Stepped(first, l.blueSize, l.bluePos, x + y, step)
  }

  /** The pattern has the right blue for all inputs exactly when the mode keeps blue at
      position 0: anywhere else, the lone low blue bit is already lost at the origin. */
  lemma BlueKeptExactly(l: Layout)
    requires LayoutOk(l)
    ensures KeepsBlue(l) <==> l.bluePos == 0
  {
    if l.bluePos == 0 {
      forall x: nat, y: nat, first: nat, step: nat
        ensures Channel(Direct(l, x, y, first, step), l.blueSize, l.bluePos) ==
                Stepped(first, l.blueSize, l.bluePos, x + y, step)
      {
        DirectChannels(l, x, y, first, step);
      }
    } else {
      BlueLost(l);
    }
  }

  lemma BlueLost(l: Layout)
    requires LayoutOk(l) && l.bluePos > 0
    ensures var first := Pow2(l.bluePos);
            Channel(Direct(l, 0, 0, first, 0), l.blueSize, l.bluePos) != Stepped(first, l.blueSize, l.bluePos, 0, 0)
  {
    var first := Pow2(l.bluePos);
    BitInField(l.blueSize, l.bluePos);
    BitOutside(l.bluePos, l.redSize, l.redPos);
    BitOutside(l.bluePos, l.greenSize, l.greenPos);
    OriginIs(first, l.blueSize, l.bluePos);
    OriginIs(first, l.redSize, l.redPos);
    OriginIs(first, l.greenSize, l.greenPos);
    DirectIs(l, 0, 0, first, 0);
    LowBitOutside(l.blueSize, l.bluePos);
  }

  /** Nothing is stepped at the origin. */
  lemma OriginIs(first: nat, size: nat, pos: nat)
    requires size > 0 && Channel(first, size, pos) <= 1
    ensures Stepped(first, size, pos, 0, 0) == Channel(first, size, pos)
  {
    Pow2Mono(1, size);
    DivModUnique(0, Pow2(size), Channel(first, size, pos));
  }

  lemma BitInField(size: nat, pos: nat)
    requires size > 0
    ensures Channel(Pow2(pos), size, pos) == 1
  {
    ChannelIs(Pow2(pos), size, pos);
    DivModUnique(1, Pow2(pos), 0);
    Pow2Mono(1, size);
    DivModUnique(0, Pow2(size), 1);
  }

  lemma LowBitOutside(size: nat, pos: nat)
    requires pos > 0
    ensures Channel(1, size, pos) == 0
  {
    ChannelIs(1, size, pos);
    Pow2Mono(1, pos);
    DivModUnique(0, Pow2(pos), 1);
  }

  lemma BitOutside(bit: nat, size: nat, pos: nat)
    requires size > 0 && (bit < pos || pos + size <= bit)
    ensures Channel(Pow2(bit), size, pos) == 0
  {
    ChannelIs(Pow2(bit), size, pos);
    if bit < pos {
      Pow2Mono(bit + 1, pos);
      DivModUnique(0, Pow2(pos), Pow2(bit));
    } else {
      Pow2Add(bit - pos, pos);
      DivModUnique(Pow2(bit - pos), Pow2(pos), 0);
      Pow2Add(bit - pos - size, size);
      DivModUnique(Pow2(bit - pos - size), Pow2(size), 0);
    }
  }

  // ----- the palette colours

  lemma IndexedIs(bpp: nat, n: nat, x: nat, y: nat, k: nat, first: nat, step: nat)
    requires bpp <= 4 && k == y * n + x
    ensures Indexed(bpp, n, x, y, first, step) == (first + k * step) % Pow2(8 * bpp)
  {
    WrapStepped(first, k, step, 8 * bpp);
  }
}

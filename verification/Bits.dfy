/** Bit arithmetic on natural numbers: shifts, masks and the bitwise operators of C. */
module Bits {

  type byte = b: int | 0 <= b < 256

  const WORD: nat := 0x1_0000_0000

  /** The values of a `uint32_t`. */
  type Word = n: int | 0 <= n < WORD

  /** Arithmetic on `uint32_t`. */
  function U32(n: int): (r: nat)
    ensures r < WORD
  {
    n % WORD
  }

  function Pow2(n: nat): (r: nat)
    ensures r > 0
  {
    if n == 0 then 1 else 2 * Pow2(n - 1)
  }

  function BitAnd(a: nat, b: nat): nat {
    if a == 0 || b == 0 then 0 else (a % 2) * (b % 2) + 2 * BitAnd(a / 2, b / 2)
  }

  function BitOr(a: nat, b: nat): nat {
    if a == 0 then b else if b == 0 then a
    else (if a % 2 == 1 || b % 2 == 1 then 1 else 0) + 2 * BitOr(a / 2, b / 2)
  }

  function Shl(a: nat, n: nat): nat {
    a * Pow2(n)
  }

  function Shr(a: nat, n: nat): nat {
    DivNat(a, Pow2(n));
    a / Pow2(n)
  }

  // ----- multiplication and division

  lemma DivModUnique(q: int, d: int, r: int)
    requires 0 <= r < d
    ensures (q * d + r) / d == q && (q * d + r) % d == r
  {
    var n := q * d + r;
    DivModIs(n, d);
    if n / d < q { MulLess(n / d, q, d); }
    if n / d > q { MulLess(q, n / d, d); }
  }

  lemma DivModIs(n: int, d: int)
    requires d > 0
    ensures n == (n / d) * d + n % d && 0 <= n % d < d
  {
  }

  lemma DivNat(n: nat, d: nat)
    requires d > 0
    ensures n / d >= 0
  {
    DivModIs(n, d);
    if n / d < 0 { MulLess(n / d, 0, d); }
  }

  lemma MulNat(a: nat, b: nat)
    ensures a * b >= 0
  {
  }

  lemma MulLess(a: int, b: int, d: int)
    requires a < b && d >= 0
    ensures a * d + d <= b * d
  {
    var c := b - a - 1;
    assert c * d >= 0;
    assert b * d == (a + 1 + c) * d == a * d + d + c * d;
  }

  lemma MulLeq(a: nat, b: nat, d: nat)
    requires a <= b
    ensures a * d <= b * d
  {
    assert b * d == (a + (b - a)) * d == a * d + (b - a) * d;
  }

  lemma {:induction false} Pow2Add(a: nat, b: nat)
    ensures Pow2(a + b) == Pow2(a) * Pow2(b)
  {
    if a > 0 {
      Pow2Add(a - 1, b);
      assert Pow2(a + b) == 2 * (Pow2(a - 1) * Pow2(b)) == Pow2(a) * Pow2(b);
    }
  }

  // ----- masks and disjoint fields

  lemma HalfMod(n: nat, s: nat)
    requires s > 0
    ensures n % Pow2(s) == n % 2 + 2 * ((n / 2) % Pow2(s - 1))
  {
    HalfModOf(n, Pow2(s - 1));
  }

  lemma HalfModOf(n: nat, p: nat)
    requires p > 0
    ensures n % (2 * p) == n % 2 + 2 * ((n / 2) % p)
  {
    var q := (n / 2) / p;
    DivModIs(n / 2, p);
    DoubleMul(q, p);
    DivModUnique(q, 2 * p, n % 2 + 2 * ((n / 2) % p));
  }

  lemma AndOdd(a: nat, half: nat, b: nat)
    requires a == 2 * half + 1
    ensures BitAnd(a, b) == b % 2 + 2 * BitAnd(half, b / 2)
  {
  }

  lemma OrEven(a: nat, b: nat)
    ensures BitOr(2 * a, b) == b % 2 + 2 * BitOr(a, b / 2)
  {
  }

  /** An odd mask keeps the lowest bit, and `half` of the mask the rest. */
  lemma MaskNext(half: nat, n: nat, r: nat)
    requires BitAnd(half, n / 2) == r
    ensures BitAnd(2 * half + 1, n) == n % 2 + 2 * r
  {
    AndOdd(2 * half + 1, half, n);
  }

  /** Masking with `(1 << s) - 1` keeps the low `s` bits. */
  lemma {:induction false} MaskIsMod(s: nat, n: nat)
    ensures BitAnd(Pow2(s) - 1, n) == n % Pow2(s)
    decreases s
  {
    if s > 0 {
      MaskIsMod(s - 1, n / 2);
      MaskNext(Pow2(s - 1) - 1, n, (n / 2) % Pow2(s - 1));
      HalfMod(n, s);
    }
  }

  /** OR-ing a number below `2^n` into a multiple of `2^n` adds them. */
  lemma {:induction false} OrDisjoint(low: nat, high: nat, n: nat)
    requires low < Pow2(n)
    ensures BitOr(Shl(high, n), low) == Shl(high, n) + low
    decreases n
  {
    if n > 0 {
      OrDisjoint(low / 2, high, n - 1);
      DoubleShl(high, n);
      OrEven(Shl(high, n - 1), low);
    }
  }

  lemma {:induction false} OrComm(a: nat, b: nat)
    ensures BitOr(a, b) == BitOr(b, a)
  {
    if a != 0 && b != 0 { OrComm(a / 2, b / 2); }
  }

  /** Testing a single bit. */
  lemma {:induction false} SingleBit(a: nat, n: nat)
    ensures BitAnd(a, Pow2(n)) == (Shr(a, n) % 2) * Pow2(n)
    decreases n
  {
    if n == 0 {
      if a > 0 { assert BitAnd(a, 1) == a % 2 + 2 * BitAnd(a / 2, 0); }
    } else if a > 0 {
      SingleBit(a / 2, n - 1);
      DivDiv(a, Pow2(n - 1));
      assert Shr(a, n) == Shr(a / 2, n - 1);
      assert Pow2(n) % 2 == 0 && Pow2(n) / 2 == Pow2(n - 1);
      DoubleMul(Shr(a, n) % 2, Pow2(n - 1));
    } else {
      DivModUnique(0, Pow2(n), 0);
    }
  }

  lemma DoubleMul(a: int, p: int)
    ensures 2 * (a * p) == a * (2 * p)
  {
  }

  lemma DivDiv(a: nat, p: nat)
    requires p > 0
    ensures (a / 2) / p == a / (2 * p)
  {
    var h := a / 2;
    DivModIs(h, p);
    assert a == (h / p) * (2 * p) + (2 * (h % p) + a % 2);
    DivModUnique(h / p, 2 * p, 2 * (h % p) + a % 2);
  }

  lemma DoubleShl(a: nat, n: nat)
    requires n > 0
    ensures Shl(a, n) == 2 * Shl(a, n - 1)
  {
    DoubleMul(a, Pow2(n - 1));
  }

  lemma OrDouble(a: nat, b: nat)
    ensures BitOr(2 * a, 2 * b) == 2 * BitOr(a, b)
  {
  }

  lemma {:induction false} OrShl(a: nat, b: nat, n: nat)
    ensures BitOr(Shl(a, n), Shl(b, n)) == Shl(BitOr(a, b), n)
  {
    if n > 0 {
      OrShl(a, b, n - 1);
      DoubleShl(a, n);
      DoubleShl(b, n);
      DoubleShl(BitOr(a, b), n);
      OrDouble(Shl(a, n - 1), Shl(b, n - 1));
    }
  }

  lemma Powers()
    ensures Pow2(0) == 1 && Pow2(1) == 2 && Pow2(2) == 4 && Pow2(3) == 8 && Pow2(4) == 16
    ensures Pow2(5) == 32 && Pow2(6) == 64 && Pow2(7) == 128 && Pow2(8) == 256
  {
    assert Pow2(4) == 16;
  }
}

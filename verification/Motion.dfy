/** The position logic of `vg_draw_moving_sprite`: one update per drawn frame, on `uint16_t`
    coordinates. */
module Motion {
  import opened Bits

  /** The arguments of the call and the screen: the sprite is `w` x `h` on `hRes` x `vRes` pixels. */
  datatype Trip = Trip(xi: nat, yi: nat, xf: nat, yf: nat, speed: int, w: nat, h: nat, hRes: nat, vRes: nat)

  datatype Motion = Motion(x: nat, y: nat, speedX: int, speedY: int, waited: nat)

  function U16(n: int): nat {
    n % 0x1_0000
  }

  function Abs(n: int): nat {
    if n < 0 then -n else n
  }

  function Start(t: Trip): Motion {
    if t.xf == t.xi then Motion(t.xi, t.yi, 0, Abs(t.speed), 0) else Motion(t.xi, t.yi, Abs(t.speed), 0, 0)
  }

  predicate AtTarget(t: Trip, m: Motion) {
    m.x == t.xf && m.y == t.yf
  }

  predicate OnScreen(t: Trip, m: Motion) {
    m.x + t.w <= t.hRes && m.y + t.h <= t.vRes
  }

  /** The move itself, before the edges are looked at. */
  function Moved(t: Trip, m: Motion): Motion {
    if t.speed > 0 then m.(x := U16(m.x + m.speedX), y := U16(m.y + m.speedY))
    else if m.waited != Abs(t.speed) then m.(waited := m.waited + 1)
    else if m.speedX == 0 then m.(y := U16(m.y + 1), waited := 0)
    else m.(x := U16(m.x + 1), waited := 0)
  }

  /** At the edge the move is taken back by the full speed, and the sprite stops. */
  function Update(t: Trip, m: Motion): Motion {
    if AtTarget(t, m) then m
    else
      var n := Moved(t, m);
      if OnScreen(t, n) then n
      else n.(x := U16(n.x - n.speedX), y := U16(n.y - n.speedY), speedX := 0, speedY := 0)
  }

  /** After `n` updates. */
  function After(t: Trip, m: Motion, n: nat): Motion {
    if n == 0 then m else Update(t, After(t, m, n - 1))
  }

  /** The calls that make sense: a screen of at most 32768 pixels a side, a speed whose
      absolute value is an `int16_t`, and a sprite that starts fully on the screen. */
  predicate TripOk(t: Trip) {
    && t.hRes <= 0x8000 && t.vRes <= 0x8000 && -0x8000 < t.speed < 0x8000
    && t.xf < 0x1_0000 && t.yf < 0x1_0000
    && t.xi + t.w <= t.hRes && t.yi + t.h <= t.vRes
  }

  lemma {:induction false} AfterAfter(t: Trip, m: Motion, a: nat, b: nat)
    ensures After(t, m, a + b) == After(t, After(t, m, a), b)
  {
    if b > 0 { AfterAfter(t, m, a, b - 1); }
  }

  lemma {:induction false} Rests(t: Trip, m: Motion, n: nat)
    requires Update(t, m) == m
    ensures After(t, m, n) == m
  {
    if n > 0 { Rests(t, m, n - 1); }
  }

  // ----- positive speed

  /** Whether moving from `p` in steps of `speed` ends on `q`, at most `max`. */
  predicate Hits(p: nat, q: nat, speed: nat, max: nat)
    requires speed > 0
  {
    p <= q <= max && (q - p) % speed == 0
  }

  /** How many moves a sprite makes along one axis, from `p`, never passing `max`: to the
      target `q` if it lies on the way, and otherwise as far as it fits. */
  function Moves(p: nat, q: nat, aligned: bool, speed: nat, max: nat): (r: nat)
    requires speed > 0 && p <= max
  {
    DivNat(max - p, speed);
    if aligned && Hits(p, q, speed, max) then DivNat(q - p, speed); (q - p) / speed else (max - p) / speed
  }

  function Min(a: nat, b: nat): nat {
    if a < b then a else b
  }

  /** Whether the trip ends at its target: it is straight ahead, on the screen, and a whole
      number of moves away. */
  predicate Arrives(t: Trip)
    requires TripOk(t) && t.speed > 0
  {
    if t.xf == t.xi then Hits(t.yi, t.yf, t.speed, t.vRes - t.h)
    else t.yf == t.yi && Hits(t.xi, t.xf, t.speed, t.hRes - t.w)
  }

  function TripMoves(t: Trip): nat
    requires TripOk(t) && t.speed > 0
  {
    if t.xf == t.xi then Moves(t.yi, t.yf, true, t.speed, t.vRes - t.h)
    else Moves(t.xi, t.xf, t.yf == t.yi, t.speed, t.hRes - t.w)
  }

  /** The state after `n` updates in closed form: `k` moves made, and standing still once blocked. */
  function Forecast(t: Trip, n: nat): Motion
    requires TripOk(t) && t.speed > 0
  {
    var all := TripMoves(t);
    var d := Min(n, all) * t.speed;
    var s := if n > all && !Arrives(t) then 0 else t.speed;
    if t.xf == t.xi then Motion(t.xi, t.yi + d, 0, s, 0) else Motion(t.xi + d, t.yi, s, 0, 0)
  }

  /** Where the moves end, and that the target is met only at the end. */
  lemma MovesEnd(p: nat, q: nat, aligned: bool, speed: nat, max: nat)
    requires speed > 0 && p <= max
    ensures var n := Moves(p, q, aligned, speed, max);
            && p + n * speed <= max
            && (if aligned && Hits(p, q, speed, max) then p + n * speed == q else p + n * speed + speed > max)
  {
    DivModIs(max - p, speed);
    if aligned && Hits(p, q, speed, max) { DivModIs(q - p, speed); }
  }

  lemma MovesBefore(p: nat, q: nat, aligned: bool, speed: nat, max: nat, k: nat)
    requires speed > 0 && p <= max && k <= Moves(p, q, aligned, speed, max) && aligned && p + k * speed == q
    ensures Hits(p, q, speed, max) && k == Moves(p, q, aligned, speed, max)
  {
    MovesEnd(p, q, aligned, speed, max);
    var n := Moves(p, q, aligned, speed, max);
    if k < n { MulLess(k, n, speed); }
    DivModUnique(k, speed, 0);
  }

  /** One axis of one update: the sprite is at move `k` of its `n` moves. */
  lemma AxisNext(p: nat, q: nat, aligned: bool, speed: nat, max: nat, k: nat)
    requires speed > 0 && p <= max && k <= Moves(p, q, aligned, speed, max)
    ensures var n := Moves(p, q, aligned, speed, max);
            && p + k * speed <= max
            && (aligned && p + k * speed == q <==> k == n && aligned && Hits(p, q, speed, max))
            && (k < n ==> p + (k + 1) * speed <= max)
            && (k == n && !(aligned && Hits(p, q, speed, max)) ==> p + (k + 1) * speed > max)
            && p + (k + 1) * speed == p + k * speed + speed
  {
    var n := Moves(p, q, aligned, speed, max);
    MovesEnd(p, q, aligned, speed, max);
    assert (k + 1) * speed == k * speed + speed;
    if k < n { MulLess(k, n, speed); }
    if aligned && p + k * speed == q { MovesBefore(p, q, aligned, speed, max, k); }
  }

  lemma ForecastX(t: Trip, n: nat)
    requires TripOk(t) && t.speed > 0 && t.xf != t.xi
    ensures OnScreen(t, Forecast(t, n))
    ensures AtTarget(t, Forecast(t, n)) <==> Arrives(t) && n >= TripMoves(t)
  {
    AxisNext(t.xi, t.xf, t.yf == t.yi, t.speed, t.hRes - t.w, Min(n, TripMoves(t)));
  }

  lemma ForecastY(t: Trip, n: nat)
    requires TripOk(t) && t.speed > 0 && t.xf == t.xi
    ensures OnScreen(t, Forecast(t, n))
    ensures AtTarget(t, Forecast(t, n)) <==> Arrives(t) && n >= TripMoves(t)
  {
    AxisNext(t.yi, t.yf, true, t.speed, t.vRes - t.h, Min(n, TripMoves(t)));
  }

  /** The forecast is on the screen, and at the target exactly when the trip has arrived. */
  lemma ForecastFacts(t: Trip, n: nat)
    requires TripOk(t) && t.speed > 0
    ensures OnScreen(t, Forecast(t, n))
    ensures AtTarget(t, Forecast(t, n)) <==> Arrives(t) && n >= TripMoves(t)
  {
    if t.xf == t.xi { ForecastY(t, n); } else { ForecastX(t, n); }
  }

  lemma ForecastNext(t: Trip, n: nat)
    requires TripOk(t) && t.speed > 0
    ensures Update(t, Forecast(t, n)) == Forecast(t, n + 1)
  {
    var all := TripMoves(t);
    ForecastFacts(t, n);
    if n < all {
      ForecastMoves(t, n);
    } else if !Arrives(t) && n == all {
      ForecastBlocked(t);
    } else if !Arrives(t) {
      ForecastStands(t, n);
    }
  }

  lemma ForecastMoves(t: Trip, n: nat)
    requires TripOk(t) && t.speed > 0 && n < TripMoves(t) && !AtTarget(t, Forecast(t, n))
    ensures Update(t, Forecast(t, n)) == Forecast(t, n + 1)
  {
    ForecastFacts(t, n + 1);
    if t.xf == t.xi { ForecastMovesY(t, n); } else { ForecastMovesX(t, n); }
  }

  lemma ForecastMovesX(t: Trip, n: nat)
    requires TripOk(t) && t.speed > 0 && t.xf != t.xi && n < TripMoves(t) && !AtTarget(t, Forecast(t, n))
    ensures Update(t, Forecast(t, n)) == Forecast(t, n + 1)
  {
    AxisNext(t.xi, t.xf, t.yf == t.yi, t.speed, t.hRes - t.w, n);
    Steps(t, t.xi + n * t.speed, t.yi, t.speed, 0);
  }

  lemma ForecastMovesY(t: Trip, n: nat)
    requires TripOk(t) && t.speed > 0 && t.xf == t.xi && n < TripMoves(t) && !AtTarget(t, Forecast(t, n))
    ensures Update(t, Forecast(t, n)) == Forecast(t, n + 1)
  {
    AxisNext(t.yi, t.yf, true, t.speed, t.vRes - t.h, n);
    Steps(t, t.xi, t.yi + n * t.speed, 0, t.speed);
  }

  /** A move that stays on the screen. */
  lemma Steps(t: Trip, x: nat, y: nat, sx: nat, sy: nat)
    requires TripOk(t) && t.speed > 0 && !AtTarget(t, Motion(x, y, sx, sy, 0))
    requires x + sx + t.w <= t.hRes && y + sy + t.h <= t.vRes
    ensures Update(t, Motion(x, y, sx, sy, 0)) == Motion(x + sx, y + sy, sx, sy, 0)
  {
  }

  lemma ForecastBlocked(t: Trip)
    requires TripOk(t) && t.speed > 0 && !Arrives(t) && !AtTarget(t, Forecast(t, TripMoves(t)))
    ensures Update(t, Forecast(t, TripMoves(t))) == Forecast(t, TripMoves(t) + 1)
  {
    var n := TripMoves(t);
    if t.xf == t.xi {
      AxisNext(t.yi, t.yf, true, t.speed, t.vRes - t.h, n);
      Blocked(t, t.xi, t.yi + n * t.speed, 0, t.speed);
    } else {
      AxisNext(t.xi, t.xf, t.yf == t.yi, t.speed, t.hRes - t.w, n);
      Blocked(t, t.xi + n * t.speed, t.yi, t.speed, 0);
    }
  }

  /** A move over the edge is taken back, and the sprite stands. */
  lemma Blocked(t: Trip, x: nat, y: nat, sx: nat, sy: nat)
    requires TripOk(t) && t.speed > 0 && x <= 0x8000 && y <= 0x8000 && sx < 0x8000 && sy < 0x8000
    requires !AtTarget(t, Motion(x, y, sx, sy, 0)) && (x + sx + t.w > t.hRes || y + sy + t.h > t.vRes)
    ensures Update(t, Motion(x, y, sx, sy, 0)) == Motion(x, y, 0, 0, 0)
  {
    StepBack(x, sx);
    StepBack(y, sy);
  }

  lemma StepBack(p: nat, speed: nat)
    requires p <= 0x8000 && speed < 0x8000
    ensures U16(p + speed) == p + speed && U16(p + speed - speed) == p && U16(p) == p
  {
  }

  lemma ForecastStands(t: Trip, n: nat)
    requires TripOk(t) && t.speed > 0 && !Arrives(t) && n > TripMoves(t)
    requires OnScreen(t, Forecast(t, n))
    ensures Update(t, Forecast(t, n)) == Forecast(t, n + 1)
  {
    assert Moved(t, Forecast(t, n)) == Forecast(t, n);
  }

  /** Where a sprite with positive speed is after any number of updates, for every trip. */
  lemma {:induction false} PositiveTrip(t: Trip, n: nat)
    requires TripOk(t) && t.speed > 0
    ensures After(t, Start(t), n) == Forecast(t, n) && OnScreen(t, Forecast(t, n))
  {
    ForecastFacts(t, n);
    if n == 0 {
      ForecastStart(t);
    } else {
      PositiveTrip(t, n - 1);
      ForecastNext(t, n - 1);
    }
  }

  lemma ForecastStart(t: Trip)
    requires TripOk(t) && t.speed > 0
    ensures Forecast(t, 0) == Start(t)
  {
  }

  /** It comes to rest at the target exactly when the trip arrives there. */
  lemma ArrivesExactly(t: Trip)
    requires TripOk(t) && t.speed > 0
    ensures Arrives(t) <==> exists n: nat :: AtTarget(t, After(t, Start(t), n))
    ensures Arrives(t) ==> forall n: nat :: n >= TripMoves(t) ==> AtTarget(t, After(t, Start(t), n))
  {
    if Arrives(t) {
      AtTargetExactly(t, TripMoves(t));
      forall n: nat | n >= TripMoves(t)
        ensures AtTarget(t, After(t, Start(t), n))
      {
        AtTargetExactly(t, n);
      }
    }
    forall n: nat | AtTarget(t, After(t, Start(t), n))
      ensures Arrives(t)
    {
      AtTargetExactly(t, n);
    }
  }

  lemma AtTargetExactly(t: Trip, n: nat)
    requires TripOk(t) && t.speed > 0
    ensures AtTarget(t, After(t, Start(t), n)) <==> Arrives(t) && n >= TripMoves(t)
  {
    PositiveTrip(t, n);
    ForecastFacts(t, n);
  }

  // ----- negative speed, and none

  /** The axis the sprite climbs along: it adds one pixel to `y` once it has no speed in `x`. */
  function Climbed(m: Motion, k: nat, waited: nat): Motion {
    if m.speedX == 0 then m.(y := m.y + k, waited := waited) else m.(x := m.x + k, waited := waited)
  }

  /** Nothing stops the sprite during the next `k` pixels: no target before, no edge up to then. */
  ghost predicate Clear(t: Trip, m: Motion, k: nat) {
    && m.waited == 0 && OnScreen(t, Climbed(m, k, 0))
    && forall i :: 0 <= i < k ==> !AtTarget(t, Climbed(m, i, 0))
  }

  /** One pixel takes the speed's absolute value and one more updates. */
  function Pace(t: Trip): nat {
    Abs(t.speed) + 1
  }

  lemma ClimbNext(t: Trip, m: Motion, k: nat, waited: nat)
    requires TripOk(t) && t.speed <= 0 && waited < Pace(t)
    requires OnScreen(t, m) && OnScreen(t, Climbed(m, k + 1, 0)) && !AtTarget(t, Climbed(m, k, 0))
    ensures Update(t, Climbed(m, k, waited)) ==
            if waited + 1 < Pace(t) then Climbed(m, k, waited + 1) else Climbed(m, k + 1, 0)
  {
  }

  lemma DivNext(n: nat, p: nat)
    requires p > 0
    ensures n / p >= 0
    ensures if n % p + 1 < p then (n + 1) / p == n / p && (n + 1) % p == n % p + 1
            else (n + 1) / p == n / p + 1 && (n + 1) % p == 0
  {
    DivModIs(n, p);
    DivNat(n, p);
    if n % p + 1 < p {
      DivModUnique(n / p, p, n % p + 1);
    } else {
      assert (n / p + 1) * p == n / p * p + p;
      DivModUnique(n / p + 1, p, 0);
    }
  }

  lemma Quotient(n: nat, p: nat, k: nat)
    requires p > 0 && n < k * p
    ensures 0 <= n / p < k
  {
    DivModIs(n, p);
    DivNat(n, p);
    if n / p >= k && n / p > k { MulLess(k, n / p, p); }
  }

  /** While nothing stops it, the sprite gains a pixel every `Pace` updates. */
  lemma {:induction false} Climb(t: Trip, m: Motion, k: nat, n: nat)
    requires TripOk(t) && t.speed <= 0 && Clear(t, m, k) && OnScreen(t, m)
    requires n <= k * Pace(t)
    ensures n / Pace(t) >= 0 && After(t, m, n) == Climbed(m, n / Pace(t), n % Pace(t))
    decreases n
  {
    var p := Pace(t);
    if n == 0 {
      DivModUnique(0, p, 0);
    } else {
      Climb(t, m, k, n - 1);
      Quotient(n - 1, p, k);
      DivNext(n - 1, p);
      ClimbNext(t, m, (n - 1) / p, (n - 1) % p);
    }
  }

  lemma ClimbOnScreen(t: Trip, m: Motion, k: nat, n: nat)
    requires TripOk(t) && t.speed <= 0 && Clear(t, m, k) && OnScreen(t, m)
    requires n <= k * Pace(t)
    ensures OnScreen(t, After(t, m, n))
  {
    Climb(t, m, k, n);
    if n < k * Pace(t) { Quotient(n, Pace(t), k); } else { DivModUnique(k, Pace(t), 0); }
  }

  lemma ClimbTop(t: Trip, m: Motion, k: nat)
    requires TripOk(t) && t.speed <= 0 && Clear(t, m, k) && OnScreen(t, m)
    ensures After(t, m, k * Pace(t)) == Climbed(m, k, 0)
  {
    Climb(t, m, k, k * Pace(t));
    DivModUnique(k, Pace(t), 0);
  }

  /** A climb that ends at the target ends there for good, and never leaves the screen. */
  lemma ClimbToTarget(t: Trip, m: Motion, k: nat, n: nat)
    requires TripOk(t) && t.speed <= 0 && Clear(t, m, k) && OnScreen(t, m)
    requires AtTarget(t, Climbed(m, k, 0))
    ensures OnScreen(t, After(t, m, n))
    ensures AtTarget(t, After(t, m, n)) <==> n >= k * Pace(t)
  {
    if n < k * Pace(t) { OnTheWay(t, m, k, n); } else { Arrived(t, m, k, k * Pace(t), n); }
  }

  lemma OnTheWay(t: Trip, m: Motion, k: nat, n: nat)
    requires TripOk(t) && t.speed <= 0 && Clear(t, m, k) && OnScreen(t, m) && n < k * Pace(t)
    ensures OnScreen(t, After(t, m, n)) && !AtTarget(t, After(t, m, n))
  {
    ClimbOnScreen(t, m, k, n);
    Climb(t, m, k, n);
    Quotient(n, Pace(t), k);
    assert !AtTarget(t, Climbed(m, n / Pace(t), 0));
  }

  lemma Arrived(t: Trip, m: Motion, k: nat, e: nat, n: nat)
    requires TripOk(t) && t.speed <= 0 && Clear(t, m, k) && OnScreen(t, m) && e == k * Pace(t) <= n
    requires AtTarget(t, Climbed(m, k, 0))
    ensures OnScreen(t, After(t, m, n)) && AtTarget(t, After(t, m, n))
  {
    ClimbTop(t, m, k);
    Rests(t, Climbed(m, k, 0), n - e);
    AfterAfter(t, m, e, n - e);
  }

  /** Where the sprite is put when the next pixel would be off the screen. */
  function Bounced(m: Motion): Motion {
    var n := if m.speedX == 0 then m.(y := U16(m.y + 1)) else m.(x := U16(m.x + 1));
    n.(x := U16(n.x - n.speedX), y := U16(n.y - n.speedY), speedX := 0, speedY := 0, waited := 0)
  }

  lemma {:induction false} Waits(t: Trip, m: Motion, n: nat)
    requires t.speed <= 0 && OnScreen(t, m) && !AtTarget(t, m) && m.waited == 0 && n <= Abs(t.speed)
    ensures After(t, m, n) == m.(waited := n)
  {
    if n > 0 { Waits(t, m, n - 1); }
  }

  lemma AfterNext(t: Trip, m: Motion, n: nat)
    ensures After(t, m, n + 1) == Update(t, After(t, m, n))
  {
  }

  lemma BounceNext(t: Trip, m: Motion)
    requires TripOk(t) && t.speed <= 0 && OnScreen(t, m) && !AtTarget(t, m) && m.waited == Abs(t.speed)
    requires !OnScreen(t, Climbed(m, 1, 0))
    ensures Update(t, m) == Bounced(m)
  {
    assert U16(m.x + 1) == m.x + 1 && U16(m.y + 1) == m.y + 1;
    assert Moved(t, m) == Climbed(m, 1, 0);
  }

  lemma Bounce(t: Trip, m: Motion)
    requires TripOk(t) && t.speed <= 0 && OnScreen(t, m) && !AtTarget(t, m) && m.waited == 0
    requires !OnScreen(t, Climbed(m, 1, 0))
    ensures After(t, m, Pace(t)) == Bounced(m)
  {
    BounceAfter(t, m, Abs(t.speed));
  }

  lemma BounceAfter(t: Trip, m: Motion, n: nat)
    requires TripOk(t) && t.speed <= 0 && OnScreen(t, m) && !AtTarget(t, m) && m.waited == 0 && n == Abs(t.speed)
    requires !OnScreen(t, Climbed(m, 1, 0))
    ensures After(t, m, n + 1) == Bounced(m)
  {
    Waits(t, m, n);
    AfterNext(t, m, n);
    var w := m.(waited := n);
    BounceNext(t, w);
    assert Bounced(w) == Bounced(m);
  }

  /** While it waits at the edge the sprite is still on the screen. */
  lemma BounceOnScreen(t: Trip, m: Motion, n: nat)
    requires TripOk(t) && t.speed <= 0 && OnScreen(t, m) && !AtTarget(t, m) && m.waited == 0 && n < Pace(t)
    ensures OnScreen(t, After(t, m, n))
  {
    Waits(t, m, n);
  }

  /** A climb to the edge, with no target on the way, and the bounce after it; the climb takes
      `e` updates. */
  lemma ClimbAndBounce(t: Trip, m: Motion, k: nat, e: nat)
    requires TripOk(t) && t.speed <= 0 && OnScreen(t, m) && Clear(t, m, k) && e == k * Pace(t)
    requires !AtTarget(t, Climbed(m, k, 0)) && !OnScreen(t, Climbed(m, k + 1, 0))
    ensures After(t, m, e + Pace(t)) == Bounced(Climbed(m, k, 0))
  {
    ClimbTop(t, m, k);
    var top := Climbed(m, k, 0);
    assert Climbed(top, 1, 0) == Climbed(m, k + 1, 0);
    Bounce(t, top);
    AfterAfter(t, m, e, Pace(t));
  }

  lemma ClimbAndWait(t: Trip, m: Motion, k: nat, e: nat, n: nat)
    requires TripOk(t) && t.speed <= 0 && OnScreen(t, m) && Clear(t, m, k) && e == k * Pace(t)
    requires !AtTarget(t, Climbed(m, k, 0)) && n < e + Pace(t)
    ensures OnScreen(t, After(t, m, n))
  {
    if n <= e {
      ClimbOnScreen(t, m, k, n);
    } else {
      ClimbTop(t, m, k);
      var top := Climbed(m, k, 0);
      BounceOnScreen(t, top, n - e);
      AfterAfter(t, m, e, n - e);
    }
  }

  ghost predicate StaysOnScreen(t: Trip, m: Motion) {
    forall n: nat :: OnScreen(t, After(t, m, n))
  }

  ghost predicate OnScreenUntil(t: Trip, m: Motion, k: nat) {
    forall n :: 0 <= n < k ==> OnScreen(t, After(t, m, n))
  }

  /** Being on the screen for ever, split at update `k`. */
  lemma StaysSplit(t: Trip, m: Motion, k: nat)
    requires OnScreenUntil(t, m, k)
    ensures StaysOnScreen(t, m) <==> StaysOnScreen(t, After(t, m, k))
  {
    forall n: nat
      ensures After(t, After(t, m, k), n) == After(t, m, k + n)
    {
      AfterAfter(t, m, k, n);
    }
    if StaysOnScreen(t, After(t, m, k)) {
      forall n: nat
        ensures OnScreen(t, After(t, m, n))
      {
        if n >= k { assert OnScreen(t, After(t, After(t, m, k), n - k)); }
      }
    }
    if StaysOnScreen(t, m) {
      forall n: nat
        ensures OnScreen(t, After(t, After(t, m, k), n))
      {
        assert OnScreen(t, After(t, m, k + n));
      }
    }
  }

  lemma StaysIfTarget(t: Trip, m: Motion, k: nat)
    requires TripOk(t) && t.speed <= 0 && Clear(t, m, k) && OnScreen(t, m) && AtTarget(t, Climbed(m, k, 0))
    ensures StaysOnScreen(t, m)
  {
    forall n: nat
      ensures OnScreen(t, After(t, m, n))
    {
      ClimbToTarget(t, m, k, n);
    }
  }

  lemma StaysAfterBounce(t: Trip, m: Motion, k: nat)
    requires TripOk(t) && t.speed <= 0 && OnScreen(t, m) && Clear(t, m, k)
    requires !AtTarget(t, Climbed(m, k, 0)) && !OnScreen(t, Climbed(m, k + 1, 0))
    ensures StaysOnScreen(t, m) <==> StaysOnScreen(t, Bounced(Climbed(m, k, 0)))
  {
    var e := k * Pace(t);
    ClimbAndBounce(t, m, k, e);
    WaitsOnScreen(t, m, k, e);
    StaysSplit(t, m, e + Pace(t));
  }

  lemma WaitsOnScreen(t: Trip, m: Motion, k: nat, e: nat)
    requires TripOk(t) && t.speed <= 0 && OnScreen(t, m) && Clear(t, m, k) && e == k * Pace(t)
    requires !AtTarget(t, Climbed(m, k, 0))
    ensures OnScreenUntil(t, m, e + Pace(t))
  {
    forall n | 0 <= n < e + Pace(t)
      ensures OnScreen(t, After(t, m, n))
    {
      ClimbAndWait(t, m, k, e, n);
    }
  }

  lemma OffScreenNow(t: Trip, m: Motion)
    requires !OnScreen(t, m)
    ensures !StaysOnScreen(t, m)
  {
    assert After(t, m, 0) == m;
  }

  /** A sprite that was stopped at the edge keeps creeping down: only a target below it, in
      its own column, can hold it on the screen. */
  lemma Creeps(t: Trip, m: Motion)
    requires TripOk(t) && t.speed <= 0 && OnScreen(t, m) && m.speedX == 0 && m.speedY == 0 && m.waited == 0
    ensures StaysOnScreen(t, m) <==> m.x == t.xf && m.y <= t.yf <= t.vRes - t.h
  {
    if m.x == t.xf && m.y <= t.yf <= t.vRes - t.h {
      StaysIfTarget(t, m, t.yf - m.y);
    } else {
      var k := t.vRes - t.h - m.y;
      StaysAfterBounce(t, m, k);
      OffScreenNow(t, Bounced(Climbed(m, k, 0)));
    }
  }

  /** Whether a trip without positive speed stays on the screen: its target is straight ahead
      and fits, or the bounce at the edge happens to put the sprite in line with it. With
      speed 0 the sprite moves down whatever the target. */
  predicate NegativeSafe(t: Trip)
    requires TripOk(t) && t.speed <= 0
  {
    var s, right, bottom := -t.speed, t.hRes - t.w, t.vRes - t.h;
    if t.speed == 0 then
      t.xf == t.xi && t.yi <= t.yf <= bottom
    else if t.xf == t.xi then
      t.yf <= bottom && (t.yi <= t.yf || 0 <= bottom + 1 - s <= t.yf)
    else
      || (t.yf == t.yi && t.xi < t.xf <= right)
      || (t.xf == right + 1 - s && t.yi <= t.yf <= bottom)
  }

  lemma BounceWraps(p: nat, s: nat)
    requires p <= 0x8000 && s < 0x8000
    ensures U16(U16(p + 1) - s) == if p + 1 >= s then p + 1 - s else 0x1_0000 + p + 1 - s
  {
  }

  /** Where the bounce puts the sprite, in the coordinate it was moving in. */
  lemma BouncedAt(t: Trip)
    requires TripOk(t) && t.speed < 0
    ensures var s, right, bottom := Abs(t.speed), t.hRes - t.w, t.vRes - t.h;
            if t.xf == t.xi then
              Bounced(Climbed(Start(t), bottom - t.yi, 0)) == Motion(t.xi, U16(U16(bottom + 1) - s), 0, 0, 0)
            else
              Bounced(Climbed(Start(t), right - t.xi, 0)) == Motion(U16(U16(right + 1) - s), t.yi, 0, 0, 0)
  {
  }

  lemma NegativeDown(t: Trip)
    requires TripOk(t) && t.speed < 0 && t.xf == t.xi
    ensures StaysOnScreen(t, Start(t)) <==> NegativeSafe(t)
  {
    var m, s, bottom := Start(t), Abs(t.speed), t.vRes - t.h;
    if t.yi <= t.yf <= bottom {
      StaysIfTarget(t, m, t.yf - t.yi);
    } else {
      StaysAfterBounce(t, m, bottom - t.yi);
      BouncedAt(t);
      BounceWraps(bottom, s);
      var b := Motion(t.xi, U16(U16(bottom + 1) - s), 0, 0, 0);
      if bottom + 1 >= s { Creeps(t, b); } else { OffScreenNow(t, b); }
    }
  }

  lemma NegativeRight(t: Trip)
    requires TripOk(t) && t.speed < 0 && t.xf != t.xi
    ensures StaysOnScreen(t, Start(t)) <==> NegativeSafe(t)
  {
    var m, s, right := Start(t), Abs(t.speed), t.hRes - t.w;
    if t.yf == t.yi && t.xi < t.xf <= right {
      StaysIfTarget(t, m, t.xf - t.xi);
    } else {
      StaysAfterBounce(t, m, right - t.xi);
      BouncedAt(t);
      BounceWraps(right, s);
      var b := Motion(U16(U16(right + 1) - s), t.yi, 0, 0, 0);
      if right + 1 >= s { Creeps(t, b); } else { OffScreenNow(t, b); }
    }
  }

  /** Without positive speed, the sprite stays on the screen for ever exactly in these cases. */
  lemma NegativeSafeExactly(t: Trip)
    requires TripOk(t) && t.speed <= 0
    ensures StaysOnScreen(t, Start(t)) <==> NegativeSafe(t)
  {
    if t.speed == 0 { Creeps(t, Start(t)); }
    else if t.xf == t.xi { NegativeDown(t); }
    else { NegativeRight(t); }
  }

  /** A target straight ahead that fits on the screen is reached after exactly
      distance * (|speed| + 1) updates, and kept. */
  lemma NegativeArrives(t: Trip, n: nat)
    requires TripOk(t) && t.speed < 0
    requires if t.xf == t.xi then t.yi <= t.yf <= t.vRes - t.h else t.yf == t.yi && t.xi < t.xf <= t.hRes - t.w
    ensures AtTarget(t, After(t, Start(t), n)) <==> n >= (t.xf - t.xi + (t.yf - t.yi)) * (1 - t.speed)
  {
    ClimbToTarget(t, Start(t), t.xf - t.xi + (t.yf - t.yi), n);
  }
}

/** The event loop of `vg_draw_moving_sprite`: a double-buffered sprite, redrawn every few
    timer ticks until ESC is released. */
module Animation {
  import opened Bits
  import opened Pixels
  import opened Pictures
  import opened Watchdog
  import Keyboard
  import Motion
  import Screen

  ghost function Blank(g: Geometry): seq<byte> {
    seq(g.Size(), _ => 0)
  }

  /** The screen after `frames` frames: untouched before the first one, and from then on a blank
      screen with the sprite once, where it was when the last frame was drawn. */
  ghost function ScreenAfter(g: Geometry, m: seq<byte>, image: Image, t: Motion.Trip, frames: nat): seq<byte>
    requires ImageOk(g, image)
  {
    if frames == 0 then m else
      var p := Motion.After(t, Motion.Start(t), frames - 1);
      Blitted(g, Blank(g), image, p.x, p.y)
  }

  /** Timer ticks between two frames. */
  function Period(frameRate: nat): (r: nat)
    requires frameRate > 0
    ensures r > 0
  {
    DivNat(60, frameRate);
    60 / frameRate + 1
  }

  /** Frames drawn in the course of the messages. */
  function Frames(ns: seq<Notification<Keyboard.Reads>>, n: nat, frameRate: nat): nat
    requires n <= |ns| && frameRate > 0
  {
    DivNat(Ticks(ns, 0, n), Period(frameRate));
    Ticks(ns, 0, n) / Period(frameRate)
  }

  /** The ticks between two frames are the fewest that are more than a frame's share of a second. */
  lemma PeriodExactly(frameRate: nat)
    requires frameRate > 0
    ensures (Period(frameRate) - 1) * frameRate <= 60 < Period(frameRate) * frameRate
  {
    var q := 60 / frameRate;
    DivModIs(60, frameRate);
    assert (q + 1) * frameRate == q * frameRate + frameRate;
  }

  /** The frame rate asked for is never reached: in any number of whole seconds there are too
      few frames. */
  lemma RateMissed(ns: seq<Notification<Keyboard.Reads>>, n: nat, frameRate: nat, seconds: nat)
    requires n <= |ns| && frameRate > 0 && seconds > 0 && Ticks(ns, 0, n) == 60 * seconds
    ensures Frames(ns, n, frameRate) < frameRate * seconds
  {
    PeriodExactly(frameRate);
    TooFew(60 * seconds, Period(frameRate), frameRate, seconds);
  }

  lemma TooFew(ticks: nat, period: nat, frameRate: nat, seconds: nat)
    requires seconds > 0 && period > 0 && ticks == 60 * seconds && 60 < period * frameRate
    ensures ticks / period < frameRate * seconds
  {
    var frames, wanted := ticks / period, frameRate * seconds;
    DivModIs(ticks, period);
    MulLess(60, period * frameRate, seconds);
    assert (period * frameRate) * seconds == wanted * period;
    if frames >= wanted { MulLeq(wanted, frames, period); }
  }

  /** Clear the buffer, draw into it, show it. */
  method DrawFrame(g: Geometry, mem: array<byte>, buffer: array<byte>, image: Image, x: nat, y: nat)
    requires g.Ok() && mem.Length == buffer.Length == g.Size() && mem != buffer && ImageOk(g, image)
    modifies mem, buffer
    ensures mem[..] == Blitted(g, Blank(g), image, x, y)
  {
    forall i | 0 <= i < buffer.Length { buffer[i] := 0; }
    assert buffer[..] == Blank(g);
    Screen.DrawSprite(g, buffer, image, x, y);
    ghost var shown := buffer[..];
    forall i | 0 <= i < mem.Length { mem[i] := buffer[i]; }
    assert mem[..] == shown;
  }

  class MovingSprite {
    const g: Geometry
    const mem: array<byte>
    const buffer: array<byte>
    const image: Image
    const trip: Motion.Trip
    const noInterrupts: nat
    var x: nat
    var y: nat
    var speedX: int
    var speedY: int
    var counterInterrupts: nat
    var waited: nat

    constructor (g: Geometry, mem: array<byte>, image: Image, trip: Motion.Trip, frameRate: nat)
      requires g.Ok() && mem.Length == g.Size() && ImageOk(g, image) && frameRate > 0
      requires trip.w == image.w && trip.h == image.h && trip.hRes == g.h && trip.vRes == g.v
      requires -0x8000 < trip.speed < 0x8000
      ensures Valid() && fresh(buffer) && this.g == g && this.mem == mem && this.image == image && this.trip == trip
      ensures noInterrupts + 1 == Period(frameRate) && counterInterrupts == 0 && Where() == Motion.Start(trip)
    {
      this.g, this.mem, this.image, this.trip := g, mem, image, trip;
      x, y := trip.xi, trip.yi;
      if trip.xf == trip.xi {
        speedX, speedY := 0, Motion.Abs(trip.speed);
      } else {
        speedX, speedY := Motion.Abs(trip.speed), 0;
      }
      buffer := new byte[g.Size()];
      DivNat(60, frameRate);
      noInterrupts := 60 / frameRate;
      counterInterrupts, waited := 0, 0;
    }

    ghost predicate Valid() {
      && g.Ok() && mem.Length == buffer.Length == g.Size() && mem != buffer && ImageOk(g, image)
      && trip.w == image.w && trip.h == image.h && trip.hRes == g.h && trip.vRes == g.v
    }

    ghost function Where(): Motion.Motion
      reads this
    {
      Motion.Motion(x, y, speedX, speedY, waited)
    }

    /** The movement after a frame has been drawn. */
    method Move()
      requires Valid()
      modifies this
      ensures Where() == Motion.Update(trip, old(Where())) && counterInterrupts == old(counterInterrupts)
    {
      if x == trip.xf && y == trip.yf { return; }
      if trip.speed > 0 {
        x := Motion.U16(x + speedX);
        y := Motion.U16(y + speedY);
      } else if waited == Motion.Abs(trip.speed) {
        if speedX == 0 { y := Motion.U16(y + 1); } else { x := Motion.U16(x + 1); }
        waited := 0;
      } else {
        waited := waited + 1;
      }
      if x + image.w > g.h || y + image.h > g.v || x < 0 || y < 0 {
        x := Motion.U16(x - speedX);
        y := Motion.U16(y - speedY);
        speedX := 0;
        speedY := 0;
      }
    }

    /** A timer interrupt: a frame every `noInterrupts + 1` of them. */
    method Tick()
      requires Valid()
      modifies this, mem, buffer
      ensures old(counterInterrupts) < noInterrupts ==>
                counterInterrupts == old(counterInterrupts) + 1 && Where() == old(Where()) && mem[..] == old(mem[..])
      ensures old(counterInterrupts) >= noInterrupts ==>
                && counterInterrupts == 0 && Where() == Motion.Update(trip, old(Where()))
                && mem[..] == Blitted(g, Blank(g), image, old(x), old(y))
    {
      if counterInterrupts < noInterrupts {
        counterInterrupts := counterInterrupts + 1;
        return;
      }
      counterInterrupts := 0;
      DrawFrame(g, mem, buffer, image, x, y);
      Move();
    }
  }

  /** How far the animation is after `ticks` timer interrupts. */
  ghost predicate Reached(a: MovingSprite, m: seq<byte>, ticks: nat)
    requires a.Valid()
    reads a, a.mem
  {
    var frames := ticks / (a.noInterrupts + 1);
    && frames >= 0 && a.counterInterrupts == ticks % (a.noInterrupts + 1)
    && a.Where() == Motion.After(a.trip, Motion.Start(a.trip), frames)
    && a.mem[..] == ScreenAfter(a.g, m, a.image, a.trip, frames)
  }

  method TickOnce(a: MovingSprite, ghost m: seq<byte>, ghost ticks: nat)
    requires a.Valid() && Reached(a, m, ticks)
    modifies a, a.mem, a.buffer
    ensures Reached(a, m, ticks + 1)
  {
    Motion.DivNext(ticks, a.noInterrupts + 1);
    DivModIs(ticks, a.noInterrupts + 1);
    a.Tick();
  }

  /** One message: the keyboard is served before the timer. */
  method HandleMessage(a: MovingSprite, kbd: Keyboard.Controller, msg: Notification<Keyboard.Reads>,
                       ghost m: seq<byte>, ghost ticks: nat)
    requires a.Valid() && Reached(a, m, ticks)
    modifies a, a.mem, a.buffer, kbd
    ensures Reached(a, m, if msg.timer then ticks + 1 else ticks)
    ensures kbd.Value() == Keyboard.OnMessage(old(kbd.Value()), msg)
  {
    if msg.device.Some? { kbd.KbcIh(msg.device.value); }
    if msg.timer { TickOnce(a, m, ticks); }
  }

  /** The event loop itself. */
  method Loop(a: MovingSprite, kbd: Keyboard.Controller, ns: seq<Notification<Keyboard.Reads>>, ghost m: seq<byte>)
    returns (n: nat)
    requires a.Valid() && Reached(a, m, 0) && kbd.Value() == Keyboard.START
    modifies a, a.mem, a.buffer, kbd
    ensures n <= |ns| && (n < |ns| ==> Keyboard.EscAt(ns, n)) && forall i :: 0 <= i < n ==> !Keyboard.EscAt(ns, i)
    ensures Reached(a, m, Ticks(ns, 0, n))
  {
    n := 0;
    ghost var ticks := 0;
    Keyboard.RunningStart(ns);
    while n < |ns| && kbd.flagESC
      invariant n <= |ns| && Keyboard.Running(ns, n, kbd.Value())
      invariant ticks == Ticks(ns, 0, n) && Reached(a, m, ticks)
    {
      Keyboard.RunningNext(ns, n, kbd.Value());
      HandleMessage(a, kbd, ns[n], m, ticks);
      ticks := if ns[n].timer then ticks + 1 else ticks;
      n := n + 1;
    }
    Keyboard.RunningEnds(ns, n, kbd.Value());
  }

  /** The whole loop over the messages `ns`, of which `n` are handled: after any number of
      frames the video memory is the sprite at its current place on a blank screen, whatever
      was on the screen before and however keyboard and timer messages interleave. */
  method DrawMovingSprite(g: Geometry, mem: array<byte>, image: Image, t: Motion.Trip, frameRate: nat,
                          kbd: Keyboard.Controller, ns: seq<Notification<Keyboard.Reads>>) returns (n: nat)
    requires g.Ok() && mem.Length == g.Size() && ImageOk(g, image) && frameRate > 0
    requires t.w == image.w && t.h == image.h && t.hRes == g.h && t.vRes == g.v && -0x8000 < t.speed < 0x8000
    modifies mem, kbd
    ensures n <= |ns| && (n < |ns| ==> Keyboard.EscAt(ns, n)) && forall i :: 0 <= i < n ==> !Keyboard.EscAt(ns, i)
    ensures mem[..] == ScreenAfter(g, old(mem[..]), image, t, Frames(ns, n, frameRate))
  {
    ghost var m := mem[..];
    var a := new MovingSprite(g, mem, image, t, frameRate);
    DivModUnique(0, a.noInterrupts + 1, 0);
    kbd.Restart();
    n := Loop(a, kbd, ns, m);
  }

  /** Outside the sprite a frame is black, wherever the sprite is and whatever was on the screen. */
  lemma BlackAround(g: Geometry, m: seq<byte>, image: Image, t: Motion.Trip, frames: nat, x: nat, y: nat)
    requires g.Ok() && ImageOk(g, image) && frames > 0 && |m| == g.Size() && x < g.h && y < g.v
    requires var p := Motion.After(t, Motion.Start(t), frames - 1);
             !(p.x <= x < p.x + image.w && p.y <= y < p.y + image.h)
    ensures PixelAt(g, ScreenAfter(g, m, image, t, frames), x, y) == 0
  {
    var r := ScreenAfter(g, m, image, t, frames);
    forall j | 0 <= j < g.bpp
      ensures g.Inside(g.Offset(x, y, j)) && r[g.Offset(x, y, j)] == ColorByte(0, j)
    {
      OffsetInside(g, x, y, j);
      OffsetPixel(g, x, y, j);
      ZeroByte(j);
    }
    PixelShows(g, r, x, y, 0);
    DivModUnique(0, Pow2(8 * g.bpp), 0);
  }

  lemma ZeroByte(j: nat)
    ensures ColorByte(0, j) == 0
  {
    DivModUnique(0, Pow2(8 * j), 0);
  }

  /** With a sprite that stays on the screen, each frame shows the whole image, unsheared. */
  lemma FramesFaithful(g: Geometry, m: seq<byte>, image: Image, t: Motion.Trip, frames: nat)
    requires g.Ok() && ImageOk(g, image) && t.w == image.w && t.hRes == g.h && frames > 0
    requires Motion.OnScreen(t, Motion.After(t, Motion.Start(t), frames - 1))
    ensures var p := Motion.After(t, Motion.Start(t), frames - 1);
            ScreenAfter(g, m, image, t, frames) == Clipped(g, Blank(g), image, p.x, p.y)
  {
    var p := Motion.After(t, Motion.Start(t), frames - 1);
    NotSheared(g, Blank(g), image, p.x, p.y);
  }

  /** For every trip with positive speed, frame by frame: a blank screen with the whole sprite
      where the forecast has it. */
  lemma PositiveFrames(g: Geometry, m: seq<byte>, image: Image, t: Motion.Trip, frames: nat)
    requires g.Ok() && ImageOk(g, image) && t.w == image.w && t.h == image.h && t.hRes == g.h && t.vRes == g.v
    requires Motion.TripOk(t) && t.speed > 0 && frames > 0
    ensures var p := Motion.Forecast(t, frames - 1);
            ScreenAfter(g, m, image, t, frames) == Clipped(g, Blank(g), image, p.x, p.y)
  {
    Motion.PositiveTrip(t, frames - 1);
    FramesFaithful(g, m, image, t, frames);
  }
}

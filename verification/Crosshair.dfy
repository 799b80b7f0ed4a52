/** The mouse of the game: the crosshair, the button, and the cell a click is aimed at. */
module Crosshair {
  import opened Bits
  import opened GameModel
  import Game

  const GAME_WIDTH: int := 800
  const GAME_HEIGHT: int := 600
  const HORIZONTAL_MARGIN: int := 15
  const VERTICAL_MARGIN: int := 95
  const ALIEN_SIZE: int := 70

  // half a crosshair, and where it would leave the screen
  const HALF: int := 32
  const RIGHT: int := GAME_WIDTH - HALF
  const BOTTOM: int := GAME_HEIGHT - HALF

  datatype MouseEvent = MouseEvent(moveX: int, moveY: int, lbdown: bool, overflow: bool)

  datatype Pointer = Pointer(x: int, y: int, raised: bool)

  /** A button of the menu, with its corners. */
  datatype Box = Box(xi: int, yi: int, xf: int, yf: int)

  /** Arithmetic on `int16_t`. */
  function I16(n: int): int {
    (n + 0x8000) % 0x1_0000 - 0x8000
  }

  /** Division as in C: towards zero. */
  function CDiv(a: int, b: nat): int
    requires b > 0
  {
    if a >= 0 then a / b else -(-a / b)
  }

  function Clamp(n: int, low: int, end: int): int {
    if n < low then low else if n >= end then end - 1 else n
  }

  /** Where an event moves the crosshair; the mouse counts upwards. */
  function Moved(p: Pointer, e: MouseEvent): Pointer {
    Pointer(Clamp(I16(p.x + e.moveX), HALF, RIGHT), Clamp(I16(p.y - e.moveY), HALF, BOTTOM), p.raised || !e.lbdown)
  }

  predicate Inside(p: Pointer, b: Box) {
    b.xi <= p.x <= b.xf && b.yi <= p.y <= b.yf
  }

  function AimedRow(p: Pointer): int {
    CDiv(p.y - VERTICAL_MARGIN, ALIEN_SIZE)
  }

  function AimedColumn(p: Pointer): int {
    CDiv(p.x - HORIZONTAL_MARGIN, ALIEN_SIZE)
  }

  /** The game event a press of the button stands for, if any. */
  datatype Press = Nothing | Sends(event: Event)

  function Pressed(mode: Mode, p: Pointer, play: Box, exit: Box): Press {
    match mode
    case Playing => Sends(Click(AimedRow(p), AimedColumn(p)))
    case Menu => if Inside(p, exit) then Sends(ExitButton) else if Inside(p, play) then Sends(PlayButton) else Nothing
    case _ => Nothing
  }

  function After(s: State, p: Press): State
    requires GridOk(s.grid)
  {
    if p.Nothing? then s else Next(s, p.event)
  }

  /** What a mouse event does to the pointer: a press that is looked at lowers the button. */
  function PointerAfter(p: Pointer, mode: Mode, e: MouseEvent): Pointer {
    if e.overflow then p
    else
      var q := Moved(p, e);
      if e.lbdown && q.raised && (mode == Playing || mode == Menu) then q.(raised := false) else q
  }

  /** What a mouse event sends to the game: only a button that was up before is pressed. */
  function Sent(p: Pointer, mode: Mode, e: MouseEvent, play: Box, exit: Box): Press {
    if e.overflow || !e.lbdown || !p.raised then Nothing else Pressed(mode, Moved(p, e), play, exit)
  }

  class Mouse {
    var x: int
    var y: int
    var raised: bool

    constructor ()
      ensures Value() == Pointer(GAME_WIDTH / 2, GAME_HEIGHT / 2, true)
    {
      x, y, raised := GAME_WIDTH / 2, GAME_HEIGHT / 2, true;
    }

    ghost function Value(): Pointer
      reads this
    {
      Pointer(x, y, raised)
    }

    method Move(e: MouseEvent)
      modifies this
      ensures Value() == Moved(old(Value()), e)
    {
      x := I16(x + e.moveX);
      y := I16(y - e.moveY);
      if x < HALF { x := HALF; }
      if x >= RIGHT { x := RIGHT - 1; }
      if y < HALF { y := HALF; }
      if y >= BOTTOM { y := BOTTOM - 1; }
      if !e.lbdown { raised := true; }
    }

    method CheckPlayButton(game: Game.AlienGame, play: Box)
      requires game.Shaped()
      modifies game`mode
      ensures game.Value() == old(game.Value()).(mode := if Inside(Value(), play) then Playing else old(game.mode))
    {
      if x < play.xi || x > play.xf || y < play.yi || y > play.yf { return; }
      game.mode := Playing;
    }

    method CheckExitButton(game: Game.AlienGame, exit: Box)
      requires game.Shaped()
      modifies game`mode
      ensures game.Value() == old(game.Value()).(mode := if Inside(Value(), exit) then Exit else old(game.mode))
    {
      if x < exit.xi || x > exit.xf || y < exit.yi || y > exit.yf { return; }
      game.mode := Exit;
    }

    /** The press of a button that was up, in a mode that looks at it. */
    method Press(game: Game.AlienGame, play: Box, exit: Box)
      requires game.Shaped() && GridOk(game.Grid()) && (game.mode == Playing || game.mode == Menu)
      modifies `raised, game, game.matrix
      ensures !raised && game.Value() == After(old(game.Value()), Pressed(old(game.mode), old(Value()), play, exit))
    {
      if game.mode == Playing {
        game.CheckKill(CDiv(y - VERTICAL_MARGIN, ALIEN_SIZE), CDiv(x - HORIZONTAL_MARGIN, ALIEN_SIZE));
      } else {
        CheckPlayButton(game, play);
        CheckExitButton(game, exit);
      }
      raised := false;
    }

    method HandleEvent(game: Game.AlienGame, e: MouseEvent, play: Box, exit: Box)
      requires game.Shaped() && GridOk(game.Grid())
      modifies this, game, game.matrix
      ensures Value() == PointerAfter(old(Value()), old(game.mode), e)
      ensures game.Value() == After(old(game.Value()), Sent(old(Value()), old(game.mode), e, play, exit))
    {
      if e.overflow { return; }
      Move(e);
      if e.lbdown && raised && (game.mode == Playing || game.mode == Menu) { Press(game, play, exit); }
    }
  }

  // ----- where clicks land

  predicate OnScreen(p: Pointer) {
    32 <= p.x < 768 && 32 <= p.y < 568
  }

  /** Pixel (`p.x`, `p.y`) lies in the picture of the cell in this row and column. */
  predicate Shows(p: Pointer, row: int, column: int) {
    15 + 70 * column <= p.x < 15 + 70 * (column + 1) && 95 + 70 * row <= p.y < 95 + 70 * (row + 1)
  }

  /** The crosshair never leaves the screen, whatever the mouse reports. */
  lemma {:induction false} PointerStays(p: Pointer, mode: seq<Mode>, es: seq<MouseEvent>)
    requires OnScreen(p) && |mode| == |es|
    ensures OnScreen(PointerAfterAll(p, mode, es))
  {
    if es != [] { PointerStays(p, mode[..|es| - 1], es[..|es| - 1]); }
  }

  function PointerAfterAll(p: Pointer, mode: seq<Mode>, es: seq<MouseEvent>): Pointer
    requires |mode| == |es|
  {
    if es == [] then p
    else PointerAfter(PointerAfterAll(p, mode[..|es| - 1], es[..|es| - 1]), mode[|es| - 1], es[|es| - 1])
  }

  /** Every click is aimed at a cell of the grid, and at the one under the crosshair exactly
      below the top margin: above it, the division towards zero takes the first row. */
  lemma AimExactly(p: Pointer)
    requires OnScreen(p)
    ensures InGrid(AimedRow(p), AimedColumn(p))
    ensures Shows(p, AimedRow(p), AimedColumn(p)) <==> p.y >= 95
    ensures p.y < 95 ==> AimedRow(p) == 0
  {
  }

  /** A button that is held sends nothing more, however the mouse moves, until it is let go. */
  lemma {:induction false} HeldButton(p: Pointer, mode: seq<Mode>, es: seq<MouseEvent>)
    requires !p.raised && |mode| == |es| && forall i :: 0 <= i < |es| ==> es[i].lbdown
    ensures !PointerAfterAll(p, mode, es).raised
    ensures forall m, e, play, exit :: Sent(PointerAfterAll(p, mode, es), m, e, play, exit) == Nothing
  {
    if es != [] { HeldButton(p, mode[..|es| - 1], es[..|es| - 1]); }
  }

  // ----- what an event means

  function Distance(a: int, b: int): nat {
    if a < b then b - a else a - b
  }

  /** The crosshair goes to the point of the screen that is nearest to where the mouse went: to
      the right by `moveX` and up by `moveY`. */
  lemma MovesNearest(p: Pointer, mode: Mode, e: MouseEvent, q: Pointer)
    requires OnScreen(p) && OnScreen(q) && !e.overflow && -256 <= e.moveX < 256 && -256 <= e.moveY < 256
    ensures var r := PointerAfter(p, mode, e);
            && OnScreen(r)
            && Distance(r.x, p.x + e.moveX) <= Distance(q.x, p.x + e.moveX)
            && Distance(r.y, p.y - e.moveY) <= Distance(q.y, p.y - e.moveY)
  {
    SmallMove(p.x + e.moveX);
    SmallMove(p.y - e.moveY);
  }

  lemma SmallMove(n: int)
    requires -0x8000 <= n < 0x8000
    ensures I16(n) == n
  {
  }

  /** A click at this point is aimed at cell `k`: the cell under it, or the one below it in the
      top row. */
  predicate Under(p: Pointer, k: nat) {
    && 15 + 70 * (k % 11) <= p.x < 85 + 70 * (k % 11)
    && (95 + 70 * (k / 11) <= p.y < 165 + 70 * (k / 11) || (p.y < 95 && k / 11 == 0))
  }

  lemma UnderExactly(p: Pointer, k: nat)
    requires OnScreen(p) && k < CELLS
    ensures Under(p, k) <==> AimedRow(p) * WIDTH + AimedColumn(p) == k
  {
    AimExactly(p);
  }

  /** A press while playing shoots the alien under the crosshair, if it is live, and nothing else. */
  lemma ShotExactly(s: State, p: Pointer, e: MouseEvent, play: Box, exit: Box, k: nat)
    requires GridOk(s.grid) && OnScreen(p) && s.mode == Playing && !e.overflow && e.lbdown && p.raised && k < CELLS
    ensures var q, t := PointerAfter(p, s.mode, e), After(s, Sent(p, s.mode, e, play, exit));
            && t.grid[k] == (if Under(q, k) && Live(s.grid[k]) then Alien(2, 2) else s.grid[k])
            && (Under(q, k) ==> t == s.(grid := s.grid[k := t.grid[k]],
                                        points := if Live(s.grid[k]) then U32(s.points + 1) else s.points))
  {
    var q := PointerAfter(p, s.mode, e);
    AimExactly(q);
    UnderExactly(q, k);
  }

  /** A press in the menu: the exit button comes first where the two overlap. */
  lemma MenuExactly(s: State, p: Pointer, e: MouseEvent, play: Box, exit: Box)
    requires GridOk(s.grid) && s.mode == Menu && !e.overflow && e.lbdown && p.raised
    ensures var q := PointerAfter(p, s.mode, e);
            After(s, Sent(p, s.mode, e, play, exit)) == s.(mode :=
              if exit.xi <= q.x <= exit.xf && exit.yi <= q.y <= exit.yf then Exit
              else if play.xi <= q.x <= play.xf && play.yi <= q.y <= play.yf then Playing
              else Menu)
  {
  }

  /** Nothing else that the mouse does changes the game. */
  lemma OnlyPresses(s: State, p: Pointer, e: MouseEvent, play: Box, exit: Box)
    requires GridOk(s.grid) && After(s, Sent(p, s.mode, e, play, exit)) != s
    ensures !e.overflow && e.lbdown && p.raised && (s.mode == Playing || s.mode == Menu)
    ensures !PointerAfter(p, s.mode, e).raised
  {
  }

  /** The button counts as up again exactly when it is seen released, or when a press has not
      been looked at. */
  lemma RaisedExactly(p: Pointer, mode: Mode, e: MouseEvent)
    requires !e.overflow
    ensures PointerAfter(p, mode, e).raised <==> !e.lbdown || (p.raised && mode != Playing && mode != Menu)
  {
  }
}

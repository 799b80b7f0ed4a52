/** The alien game as a state machine over values: the constants and records of
    game.h and, for every handler, the state it leaves.  Cell `k` of the grid is
    row `k / WIDTH`, column `k % WIDTH`, so index order is the row-major order in
    which the handlers scan `game_matrix`. */
module GameModel {
  import opened Bits

  const HEIGHT: nat := 7
  const WIDTH: nat := 11
  const CELLS: nat := 77

  // enum ALIEN_STATE; the handlers do arithmetic on it, so it stays a number
  const APPEARING: nat := 0
  const ALIVE: nat := 1
  const DEAD_1: nat := 2
  const DEAD_5: nat := 6
  const EMPTY: nat := 7
  const ALIEN_TIMES: seq<nat> := [5, 300, 2, 2, 2, 2, 2, 0]

  const INIT_SPAWN_TIME: nat := 70
  const SPAWN_RATE_INCREASE: nat := 5
  const MAX_SPAWN_RATE: nat := 20
  const SPAWN_ATTEMPTS: nat := 2
  const GAME_OVER_WAIT: nat := 120

  datatype Alien = Alien(state: nat, time: nat)

  datatype Mode = Playing | Pause | Menu | GameOver | Exit | Leaderboard | LbInput

  datatype Killer = Killer(state: nat, x: nat, y: nat)

  datatype Spawner = Spawner(counter: nat, number: nat, increase: nat)

  datatype State = State(
    mode: Mode, grid: seq<Alien>, killer: Killer, overCounter: nat, points: nat, spawner: Spawner)

  /** The values `rand()` yields in one call of the spawner: an x and a y for every attempt. */
  type Draws = r: seq<nat> | |r| == 2 * SPAWN_ATTEMPTS witness [0, 0, 0, 0]

  /** What the game loop can deliver: a timer frame (with the outcome of comparing
      the score with the leaderboard), a click that lands on a grid position, or a
      key or button that only changes the mode. */
  datatype Event =
    | Frame(draws: Draws, better: bool)
    | Click(y: int, x: int)
    | PauseKey
    | EscKey
    | EnterKey(named: bool)
    | PlayButton
    | ExitButton

  /** Every cell holds a value of the enum: what the indexing of `alien_times` needs. */
  ghost predicate GridOk(g: seq<Alien>) {
    |g| == CELLS && forall k :: 0 <= k < CELLS ==> g[k].state <= EMPTY
  }

  predicate Expired(a: Alien) {
    a.state == ALIVE && a.time == 0
  }

  predicate Live(a: Alien) {
    a.state == APPEARING || a.state == ALIVE
  }

  /** One countdown step of a cell while the game is on. */
  function Tick(a: Alien): Alien
    requires a.state <= EMPTY
  {
    if a.state == EMPTY then a
    else if a.time > 0 then Alien(a.state, a.time - 1)
    else Alien(a.state + 1, ALIEN_TIMES[a.state + 1])
  }

  /** One countdown step of a cell once the game is over. */
  function OverTick(a: Alien): Alien {
    if a.state == EMPTY then a
    else if a.time > 0 then Alien(a.state, a.time - 1)
    else Alien(a.state + 1, 2)
  }

  function Kill(a: Alien): Alien {
    if a.state == EMPTY then a else Alien(DEAD_1, 2)
  }

  /** The first expired cell in scan order, or `|g|` when there is none. */
  function FirstExpired(g: seq<Alien>, from: nat): (r: nat)
    requires from <= |g|
    ensures from <= r <= |g|
    ensures r < |g| ==> Expired(g[r])
    ensures forall k :: from <= k < r ==> !Expired(g[k])
    decreases |g| - from
  {
    if from == |g| || Expired(g[from]) then from else FirstExpired(g, from + 1)
  }

  predicate IsKiller(killer: Killer, k: nat) {
    killer.x == k % WIDTH && killer.y == k / WIDTH
  }

  function KillOthers(g: seq<Alien>, killer: Killer): seq<Alien> {
    seq(|g|, k requires 0 <= k < |g| => if IsKiller(killer, k) then g[k] else Kill(g[k]))
  }

  /** The first `n` cells ticked, the others as they were: a scan stopped before cell `n`. */
  function TickPrefix(g: seq<Alien>, n: nat): seq<Alien>
    requires GridOk(g) && n <= CELLS
  {
    seq(CELLS, k requires 0 <= k < CELLS => if k < n then Tick(g[k]) else g[k])
  }

  function OverTickAll(g: seq<Alien>, killer: Killer): seq<Alien> {
    seq(|g|, k requires 0 <= k < |g| => if IsKiller(killer, k) then g[k] else OverTick(g[k]))
  }

  function UpdateTimes(s: State): (r: State)
    requires GridOk(s.grid)
    ensures GridOk(r.grid)
  {
    if s.mode == GameOver then
      s.(grid := OverTickAll(s.grid, s.killer))
    else
      var k := FirstExpired(s.grid, 0);
      if k < CELLS then
        var killer := Killer(0, k % WIDTH, k / WIDTH);
        s.(mode := GameOver, overCounter := GAME_OVER_WAIT, killer := killer,
           grid := KillOthers(TickPrefix(s.grid, k), killer))
      else
        s.(grid := TickPrefix(s.grid, CELLS))
  }

  /** Whether the next call of the spawner tries to place an alien. */
  predicate Due(p: Spawner) {
    p.counter >= p.number
  }

  function Advance(p: Spawner): Spawner {
    if !Due(p) then p.(counter := U32(p.counter + 1))
    else if p.increase > p.number then Spawner(0, MAX_SPAWN_RATE, 0)
    else Spawner(0, U32(p.number - p.increase), p.increase)
  }

  /** The cell the first two draws point at. */
  function DrawnCell(draws: seq<nat>): (k: nat)
    requires |draws| >= 2
    ensures k < CELLS
  {
    (draws[1] % HEIGHT) * WIDTH + draws[0] % WIDTH
  }

  const NEWBORN: Alien := Alien(APPEARING, ALIEN_TIMES[APPEARING])

  /** Tries the drawn positions in turn; a taken one is never overwritten. */
  function Place(g: seq<Alien>, draws: seq<nat>): (r: seq<Alien>)
    requires |g| == CELLS
    ensures |r| == CELLS
    ensures forall k :: 0 <= k < CELLS ==> r[k] == g[k] || (g[k].state == EMPTY && r[k] == NEWBORN)
  {
    if |draws| < 2 then g
    else if g[DrawnCell(draws)].state == EMPTY then g[DrawnCell(draws) := NEWBORN]
    else Place(g, draws[2..])
  }

  function Spawn(s: State, draws: Draws): State
    requires |s.grid| == CELLS
  {
    s.(spawner := Advance(s.spawner), grid := if Due(s.spawner) then Place(s.grid, draws) else s.grid)
  }

  function Step(s: State, draws: Draws): State
    requires GridOk(s.grid)
  {
    Spawn(UpdateTimes(s), draws)
  }

  function OverFrame(s: State, better: bool): State
    requires GridOk(s.grid)
  {
    var u := UpdateTimes(s);
    var c := U32(u.overCounter - 1);
    u.(overCounter := c, killer := u.killer.(state := (c / 5) % 4),
       mode := if c != 0 then u.mode else if better then LbInput else Leaderboard)
  }

  function OnFrame(s: State, draws: Draws, better: bool): (r: State)
    requires GridOk(s.grid)
    ensures GridOk(r.grid)
  {
    match s.mode
    case Playing => Step(s, draws)
    case GameOver => OverFrame(s, better)
    case _ => s
  }

  predicate InGrid(y: int, x: int) {
    0 <= y < HEIGHT && 0 <= x < WIDTH
  }

  function OnClick(s: State, y: int, x: int): State
    requires |s.grid| == CELLS
  {
    if s.mode == Playing && InGrid(y, x) && Live(s.grid[y * WIDTH + x]) then
      s.(points := U32(s.points + 1), grid := s.grid[y * WIDTH + x := Alien(DEAD_1, ALIEN_TIMES[DEAD_1])])
    else s
  }

  function EmptyGrid(): (g: seq<Alien>)
    ensures |g| == CELLS && forall k :: 0 <= k < CELLS ==> g[k] == Alien(EMPTY, 0)
  {
    seq(CELLS, _ => Alien(EMPTY, 0))
  }

  function Initialize(s: State): State {
    State(Menu, EmptyGrid(), s.killer, 0, 0,
          Spawner(0, INIT_SPAWN_TIME, SPAWN_RATE_INCREASE))
  }

  function Next(s: State, e: Event): (r: State)
    requires GridOk(s.grid)
    ensures GridOk(r.grid)
  {
    match e
    case Frame(draws, better) => OnFrame(s, draws, better)
    case Click(y, x) => OnClick(s, y, x)
    case PauseKey =>
      if s.mode == Playing then s.(mode := Pause)
      else if s.mode == Pause then s.(mode := Playing)
      else s
    case EscKey => s.(mode := Exit)
    case EnterKey(named) =>
      if s.mode == Leaderboard then Initialize(s)
      else if s.mode == LbInput && named then s.(mode := Leaderboard)
      else s
    case PlayButton => if s.mode == Menu then s.(mode := Playing) else s
    case ExitButton => if s.mode == Menu then s.(mode := Exit) else s
  }
}

/** What holds in every state the game can reach, whatever `rand()` yields and
    whatever the player does. */
module GameInvariant {
  import opened GameModel

  /** How many more updates a live alien survives before the one that ends the game. */
  function Remaining(a: Alien): nat {
    if a.state == APPEARING then a.time + 1 + ALIEN_TIMES[ALIVE] else a.time
  }

  /** How many frames of the game-over phase until a cell is empty. */
  function Fading(a: Alien): nat {
    if a.state >= EMPTY then 0 else a.time + 1 + 3 * (DEAD_5 - a.state)
  }

  const NEWBORN_REMAINING: nat := 306
  const NEWBORN_FADING: nat := 24

  ghost predicate AlienOk(a: Alien) {
    a.state <= EMPTY && (a.state != EMPTY ==> a.time <= ALIEN_TIMES[a.state])
  }

  ghost predicate AliensOk(g: seq<Alien>) {
    |g| == CELLS && forall k :: 0 <= k < CELLS ==> AlienOk(g[k])
  }

  /** No two live aliens have the same time left. */
  ghost predicate Distinct(g: seq<Alien>) {
    forall j, k :: 0 <= j < k < |g| && Live(g[j]) && Live(g[k]) ==> Remaining(g[j]) != Remaining(g[k])
  }

  ghost predicate AllBelow(g: seq<Alien>, bound: nat) {
    forall k :: 0 <= k < |g| && Live(g[k]) ==> Remaining(g[k]) < bound
  }

  ghost predicate AllEmpty(g: seq<Alien>) {
    forall k :: 0 <= k < |g| ==> g[k].state == EMPTY
  }

  ghost predicate SpawnerOk(p: Spawner) {
    && p.counter <= p.number
    && (if p.increase == 0 then p.number == MAX_SPAWN_RATE
        else p.increase == SPAWN_RATE_INCREASE && p.number <= INIT_SPAWN_TIME && p.number % SPAWN_RATE_INCREASE == 0)
  }

  predicate InGame(m: Mode) {
    m == Playing || m == Pause
  }

  /** The killer is on the grid, still as it was when it struck, and every other cell
      has faded by the time the counter reaches 96. */
  ghost predicate OverOk(s: State, counter: nat) {
    && s.killer.x < WIDTH && s.killer.y < HEIGHT && s.killer.state < 4
    && forall k :: 0 <= k < |s.grid| ==>
         if IsKiller(s.killer, k) then Expired(s.grid[k])
         else Fading(s.grid[k]) == 0 || Fading(s.grid[k]) + (GAME_OVER_WAIT - NEWBORN_FADING) <= counter
  }

  ghost predicate Inv(s: State) {
    && AliensOk(s.grid)
    && SpawnerOk(s.spawner)
    && (InGame(s.mode) ==> Distinct(s.grid) && AllBelow(s.grid, NEWBORN_REMAINING + 1))
    && (s.mode == Menu ==> AllEmpty(s.grid))
    && (s.mode == GameOver ==> 1 <= s.overCounter <= GAME_OVER_WAIT && OverOk(s, s.overCounter))
    && (s.mode == Leaderboard || s.mode == LbInput ==> s.overCounter == 0 && OverOk(s, 0))
  }

  // ----- single cells

  lemma TickLive(a: Alien)
    requires AlienOk(a) && !Expired(a)
    ensures AlienOk(Tick(a))
    ensures Live(Tick(a)) <==> Live(a)
    ensures Live(a) ==> Remaining(Tick(a)) == Remaining(a) - 1
  {
  }

  lemma OverTickFades(a: Alien)
    requires AlienOk(a)
    ensures AlienOk(OverTick(a))
    ensures Fading(OverTick(a)) == if Fading(a) == 0 then 0 else Fading(a) - 1
  {
  }

  lemma KillFades(a: Alien)
    requires AlienOk(a)
    ensures AlienOk(Kill(a)) && !Live(Kill(a))
    ensures Fading(Kill(a)) == 0 || Fading(Kill(a)) == 15
  {
  }

  // ----- the update while the game is on

  /** With distinct remaining times, whichever expired cell one looks at is the one
      the row-major scan finds: the killer does not depend on the scan order. */
  lemma OneExpired(g: seq<Alien>, k: nat)
    requires Distinct(g) && k < |g| && Expired(g[k])
    ensures FirstExpired(g, 0) == k
  {
  }

  lemma TickedAll(g: seq<Alien>, bound: nat)
    requires AliensOk(g) && Distinct(g) && AllBelow(g, bound + 1)
    requires FirstExpired(g, 0) == CELLS
    ensures AliensOk(TickPrefix(g, CELLS)) && Distinct(TickPrefix(g, CELLS)) && AllBelow(TickPrefix(g, CELLS), bound)
  {
    var t := TickPrefix(g, CELLS);
    forall k | 0 <= k < CELLS
      ensures AlienOk(t[k]) && (Live(t[k]) <==> Live(g[k])) && (Live(g[k]) ==> Remaining(t[k]) == Remaining(g[k]) - 1)
    {
      TickLive(g[k]);
    }
  }

  lemma KilledAll(s: State, k: nat)
    requires AliensOk(s.grid) && s.mode != GameOver && k < CELLS && FirstExpired(s.grid, 0) == k
    ensures AliensOk(UpdateTimes(s).grid)
    ensures OverOk(UpdateTimes(s), GAME_OVER_WAIT) && UpdateTimes(s).grid[k] == s.grid[k]
    ensures forall m :: 0 <= m < CELLS && m != k ==> !Live(UpdateTimes(s).grid[m])
  {
    var u := UpdateTimes(s);
    forall m | 0 <= m < CELLS
      ensures AlienOk(u.grid[m])
      ensures if IsKiller(u.killer, m) then m == k && u.grid[m] == s.grid[m]
              else !Live(u.grid[m]) && Fading(u.grid[m]) <= 15
    {
      if m < k { TickLive(s.grid[m]); }
      KillFades(if m < k then Tick(s.grid[m]) else s.grid[m]);
    }
  }

  // ----- the spawner

  /** A spawn changes at most one cell, an empty one. */
  lemma {:induction false} PlaceCases(g: seq<Alien>, draws: seq<nat>) returns (k: nat)
    requires |g| == CELLS
    ensures k < CELLS
    ensures Place(g, draws) == g || (g[k].state == EMPTY && Place(g, draws) == g[k := NEWBORN])
    decreases |draws|
  {
    k := 0;
    if |draws| >= 2 {
      if g[DrawnCell(draws)].state == EMPTY {
        k := DrawnCell(draws);
      } else {
        k := PlaceCases(g, draws[2..]);
      }
    }
  }

  /** Which cell a spawn fills: the first pair of draws gives column and row, the second pair
      is tried only where that cell is taken. */
  lemma PlaceExactly(g: seq<Alien>, draws: Draws)
    requires |g| == CELLS
    ensures var a, b := (draws[1] % 7) * 11 + draws[0] % 11, (draws[3] % 7) * 11 + draws[2] % 11;
            && 0 <= a < |g| && 0 <= b < |g|
            && Place(g, draws) ==
               if g[a].state == EMPTY then g[a := Alien(APPEARING, 5)]
               else if g[b].state == EMPTY then g[b := Alien(APPEARING, 5)]
               else g
  {
    var rest: seq<nat> := draws[2..];
    assert rest[0] == draws[2] && rest[1] == draws[3] && rest[2..] == [];
    assert Place(g, rest[2..]) == g;
  }

  lemma AdvanceOk(p: Spawner)
    requires SpawnerOk(p)
    ensures SpawnerOk(Advance(p))
  {
  }

  lemma SpawnPlaying(g: seq<Alien>, draws: seq<nat>)
    requires AliensOk(g) && Distinct(g) && AllBelow(g, NEWBORN_REMAINING)
    ensures AliensOk(Place(g, draws)) && Distinct(Place(g, draws)) && AllBelow(Place(g, draws), NEWBORN_REMAINING + 1)
  {
    var k := PlaceCases(g, draws);
  }

  lemma SpawnOver(s: State, draws: Draws)
    requires AliensOk(s.grid) && OverOk(s, GAME_OVER_WAIT)
    ensures AliensOk(Spawn(s, draws).grid) && OverOk(Spawn(s, draws), GAME_OVER_WAIT)
  {
    var k := PlaceCases(s.grid, draws);
  }

  // ----- every event

  lemma StepInv(s: State, draws: Draws)
    requires Inv(s) && s.mode == Playing
    ensures Inv(Step(s, draws))
  {
    var k := FirstExpired(s.grid, 0);
    AdvanceOk(s.spawner);
    if k < CELLS {
      KilledAll(s, k);
      SpawnOver(UpdateTimes(s), draws);
    } else {
      TickedAll(s.grid, NEWBORN_REMAINING);
      SpawnPlaying(UpdateTimes(s).grid, draws);
    }
  }

  lemma OverFrameInv(s: State, better: bool)
    requires Inv(s) && s.mode == GameOver
    ensures Inv(OverFrame(s, better))
    ensures OverFrame(s, better).overCounter == s.overCounter - 1
  {
    var g := OverTickAll(s.grid, s.killer);
    forall k | 0 <= k < CELLS
      ensures AlienOk(g[k])
      ensures !IsKiller(s.killer, k) ==> Fading(g[k]) == if Fading(s.grid[k]) == 0 then 0 else Fading(s.grid[k]) - 1
    {
      OverTickFades(s.grid[k]);
    }
  }

  lemma ClickInv(s: State, y: int, x: int)
    requires Inv(s)
    ensures Inv(OnClick(s, y, x))
  {
  }

  lemma InitInv(s: State)
    ensures Inv(Initialize(s))
  {
  }

  lemma NextInv(s: State, e: Event)
    requires Inv(s)
    ensures Inv(Next(s, e))
  {
    match e
    case Frame(draws, better) =>
      if s.mode == Playing { StepInv(s, draws); }
      else if s.mode == GameOver { OverFrameInv(s, better); }
    case Click(y, x) => ClickInv(s, y, x);
    case EnterKey(named) => InitInv(s);
    case _ =>
  }
}

/** No alien is lost or counted twice: what was placed in a game is on the grid,
    was scored, or has faded away. */
module GameBalance {
  import opened Bits
  import opened GameModel
  import opened GameInvariant
  import opened GameRuns

  ghost function LiveCells(g: seq<Alien>): set<nat> {
    set k: nat | k < |g| && Live(g[k])
  }

  ghost function TakenCells(g: seq<Alien>): set<nat> {
    set k: nat | k < |g| && g[k].state != EMPTY
  }

  /** The state after the timer update of an event, before the spawner. */
  ghost function Updated(s: State, e: Event): (u: State)
    requires GridOk(s.grid)
    ensures GridOk(u.grid)
  {
    if e.Frame? && (s.mode == Playing || s.mode == GameOver) then UpdateTimes(s) else s
  }

  /** The cells an event empties. */
  ghost function Emptied(s: State, e: Event): set<nat>
    requires GridOk(s.grid)
  {
    TakenCells(s.grid) - TakenCells(Updated(s, e).grid)
  }

  /** The cells on which an event places an alien. */
  ghost function Added(s: State, e: Event): set<nat>
    requires GridOk(s.grid)
  {
    TakenCells(Next(s, e).grid) - TakenCells(Updated(s, e).grid)
  }

  /** Aliens placed in the current game before event `i`. */
  ghost function Placed(s0: State, es: seq<Event>, i: nat): nat
    requires i <= |es|
  {
    if i == 0 || Restarts(At(s0, es, i - 1), es[i - 1]) then 0
    else Placed(s0, es, i - 1) + |Added(At(s0, es, i - 1), es[i - 1])|
  }

  /** Aliens whose cell was emptied in the current game before event `i`. */
  ghost function Retired(s0: State, es: seq<Event>, i: nat): nat
    requires i <= |es|
  {
    if i == 0 || Restarts(At(s0, es, i - 1), es[i - 1]) then 0
    else Retired(s0, es, i - 1) + |Emptied(At(s0, es, i - 1), es[i - 1])|
  }

  /** Aliens shot in the current game before event `i`. */
  ghost function Shot(s0: State, es: seq<Event>, i: nat): nat
    requires i <= |es|
  {
    if i == 0 || Restarts(At(s0, es, i - 1), es[i - 1]) then 0
    else Shot(s0, es, i - 1) + if Hits(At(s0, es, i - 1), es[i - 1]) then 1 else 0
  }

  /** The books of a game balance. */
  ghost predicate Balanced(s: State, placed: nat, shot: nat, retired: nat) {
    s.points == U32(shot) && placed == |TakenCells(s.grid)| + retired
  }

  // ----- taken cells, in every mode

  /** The update only empties cells. */
  lemma UpdateOnlyEmpties(s: State, e: Event)
    requires GridOk(s.grid)
    ensures TakenCells(Updated(s, e).grid) <= TakenCells(s.grid)
    ensures |TakenCells(Updated(s, e).grid)| == |TakenCells(s.grid)| - |Emptied(s, e)|
  {
    var a, b := TakenCells(s.grid), TakenCells(Updated(s, e).grid);
    assert a == b + (a - b);
  }

  lemma FillCell(g: seq<Alien>, p: nat)
    requires p < |g| && g[p].state == EMPTY
    ensures TakenCells(g[p := NEWBORN]) == TakenCells(g) + {p}
    ensures LiveCells(g[p := NEWBORN]) == LiveCells(g) + {p}
    ensures p !in TakenCells(g) && p !in LiveCells(g)
  {
  }

  /** What follows the update fills at most one cell, and an empty one. */
  ghost predicate Fills(g: seq<Alien>, h: seq<Alien>, added: set<nat>) {
    && |added| <= 1 && added == TakenCells(h) - TakenCells(g) && TakenCells(g) <= TakenCells(h)
  }

  lemma SpawnFills(u: State, draws: Draws)
    requires |u.grid| == CELLS
    ensures Fills(u.grid, Spawn(u, draws).grid, TakenCells(Spawn(u, draws).grid) - TakenCells(u.grid))
  {
    var p := PlaceCases(u.grid, draws);
    var added := TakenCells(Spawn(u, draws).grid) - TakenCells(u.grid);
    if Spawn(u, draws).grid == u.grid {
      assert added == {};
    } else {
      FillCell(u.grid, p);
      assert added == {p};
    }
  }

  lemma ShootCell(g: seq<Alien>, k: nat)
    requires k < |g| && Live(g[k])
    ensures LiveCells(g[k := Alien(DEAD_1, ALIEN_TIMES[DEAD_1])]) == LiveCells(g) - {k}
    ensures TakenCells(g[k := Alien(DEAD_1, ALIEN_TIMES[DEAD_1])]) == TakenCells(g)
    ensures |LiveCells(g) - {k}| == |LiveCells(g)| - 1
  {
  }

  lemma OtherEvents(s: State, e: Event)
    requires GridOk(s.grid) && !Restarts(s, e) && !Plays(s, e)
    ensures TakenCells(Next(s, e).grid) == TakenCells(Updated(s, e).grid)
  {
    if Hits(s, e) {
      ShootCell(s.grid, e.y * WIDTH + e.x);
    } else {
      assert Next(s, e).grid == Updated(s, e).grid;
    }
  }

  lemma EventFills(s: State, e: Event)
    requires GridOk(s.grid) && !Restarts(s, e)
    ensures Fills(Updated(s, e).grid, Next(s, e).grid, Added(s, e))
  {
    if Plays(s, e) {
      SpawnFills(UpdateTimes(s), e.draws);
    } else {
      OtherEvents(s, e);
      assert Added(s, e) == {};
    }
  }

  /** One event, in any mode, moves the books by the cells it fills and empties. */
  lemma TakenNext(s: State, e: Event)
    requires GridOk(s.grid) && !Restarts(s, e)
    ensures |TakenCells(Next(s, e).grid)| == |TakenCells(s.grid)| - |Emptied(s, e)| + |Added(s, e)|
    ensures |Added(s, e)| <= 1
  {
    UpdateOnlyEmpties(s, e);
    EventFills(s, e);
    var a, b := TakenCells(Updated(s, e).grid), TakenCells(Next(s, e).grid);
    assert b == a + (b - a);
  }

  lemma NextPoint(n: nat)
    ensures U32(U32(n) + 1) == U32(n + 1)
  {
  }

  /** Points are only made by hits. */
  lemma PointsNext(s: State, e: Event, shot: nat)
    requires GridOk(s.grid) && !Restarts(s, e) && s.points == U32(shot)
    ensures Next(s, e).points == U32(if Hits(s, e) then shot + 1 else shot)
  {
    if Hits(s, e) {
      NextPoint(shot);
    } else {
      assert Next(s, e).points == s.points;
    }
  }

  lemma EmptyBalance(s: State)
    requires AllEmpty(s.grid)
    ensures LiveCells(s.grid) == {} && TakenCells(s.grid) == {}
  {
  }

  /** A restart, like power-up, opens new books. */
  lemma FreshBooks(s: State)
    ensures Balanced(Initialize(s), 0, 0, 0) && |LiveCells(Initialize(s).grid)| == 0
  {
    EmptyBalance(Initialize(s));
  }

  lemma RestartInitializes(s: State, e: Event)
    requires GridOk(s.grid) && Restarts(s, e)
    ensures Next(s, e) == Initialize(s)
  {
  }

  ghost predicate BalancedAt(s0: State, es: seq<Event>, i: nat)
    requires i <= |es|
  {
    Balanced(At(s0, es, i), Placed(s0, es, i), Shot(s0, es, i), Retired(s0, es, i))
  }

  lemma BalanceRestart(s0: State, es: seq<Event>, i: nat)
    requires i < |es| && Restarts(At(s0, es, i), es[i])
    ensures BalancedAt(s0, es, i + 1)
  {
    AtNext(s0, es, i);
    RestartInitializes(At(s0, es, i), es[i]);
    FreshBooks(At(s0, es, i));
  }

  lemma BalanceNext(s0: State, es: seq<Event>, i: nat)
    requires i < |es| && !Restarts(At(s0, es, i), es[i]) && BalancedAt(s0, es, i)
    ensures BalancedAt(s0, es, i + 1)
  {
    AtNext(s0, es, i);
    TakenNext(At(s0, es, i), es[i]);
    PointsNext(At(s0, es, i), es[i], Shot(s0, es, i));
  }

  /** At every point of every run, in every mode: aliens placed in the current game = cells
      taken now + cells emptied, and the points are the aliens shot. */
  lemma {:induction false} BalanceTheorem(s0: State, es: seq<Event>, i: nat)
    requires i <= |es|
    ensures Balanced(At(s0, es, i), Placed(s0, es, i), Shot(s0, es, i), Retired(s0, es, i))
    ensures At(s0, es, i).points == Shot(s0, es, i) % 0x1_0000_0000
  {
    if i == 0 {
      FreshBooks(s0);
    } else {
      BalanceTheorem(s0, es, i - 1);
      if Restarts(At(s0, es, i - 1), es[i - 1]) {
        BalanceRestart(s0, es, i - 1);
      } else {
        BalanceNext(s0, es, i - 1);
      }
    }
  }

  // ----- live cells, while the game is on

  /** A step that does not end the game keeps every live alien and adds the one it places. */
  lemma StepLive(s: State, e: Event)
    requires Inv(s) && Plays(s, e) && Next(s, e).mode == Playing
    ensures |LiveCells(Next(s, e).grid)| == |LiveCells(s.grid)| + |Added(s, e)|
  {
    var u := UpdateTimes(s);
    UpdateKeepsLive(s);
    var p := PlaceCases(u.grid, e.draws);
    if Next(s, e).grid == u.grid {
      assert Added(s, e) == {};
    } else {
      FillCell(u.grid, p);
      assert Added(s, e) == {p};
    }
  }

  lemma UpdateKeepsLive(s: State)
    requires Inv(s) && s.mode == Playing && UpdateTimes(s).mode == Playing
    ensures LiveCells(UpdateTimes(s).grid) == LiveCells(s.grid)
  {
    forall k | 0 <= k < CELLS
      ensures Live(UpdateTimes(s).grid[k]) <==> Live(s.grid[k])
    {
      TickLive(s.grid[k]);
    }
  }

  lemma ClickLive(s: State, e: Event)
    requires GridOk(s.grid) && Hits(s, e)
    ensures |LiveCells(Next(s, e).grid)| == |LiveCells(s.grid)| - 1
  {
    ShootCell(s.grid, e.y * WIDTH + e.x);
  }

  lemma NoneAdded(s: State, e: Event)
    requires GridOk(s.grid) && !Plays(s, e) && !Restarts(s, e)
    ensures |Added(s, e)| == 0
  {
    OtherEvents(s, e);
    assert Added(s, e) == {};
  }

  /** Outside the game-over phase only game steps and hits touch the grid. */
  lemma GridKept(s: State, e: Event)
    requires GridOk(s.grid) && !Plays(s, e) && !Restarts(s, e) && !Hits(s, e) && s.mode != GameOver
    ensures Next(s, e).grid == s.grid
  {
  }

  /** One event inside a game, or the one that starts it. */
  lemma LiveBooks(s: State, e: Event, placed: nat, shot: nat)
    requires Inv(s) && (InGame(s.mode) || s.mode == Menu) && placed == |LiveCells(s.grid)| + shot
    requires InGame(Next(s, e).mode) || Next(s, e).mode == Menu
    ensures placed + |Added(s, e)| == |LiveCells(Next(s, e).grid)| + if Hits(s, e) then shot + 1 else shot
  {
    if Plays(s, e) {
      StepLive(s, e);
    } else {
      NoneAdded(s, e);
      if Hits(s, e) { ClickLive(s, e); } else { GridKept(s, e); }
    }
  }

  /** The only way back to the menu. */
  lemma BackToMenu(s: State, e: Event)
    requires GridOk(s.grid) && (InGame(Next(s, e).mode) || Next(s, e).mode == Menu)
    ensures InGame(s.mode) || s.mode == Menu || Restarts(s, e)
  {
  }

  /** Until a game ends, every alien placed in it is still alive or has been shot. */
  lemma {:induction false} LiveTheorem(s0: State, es: seq<Event>, i: nat)
    requires i <= |es| && (InGame(At(s0, es, i).mode) || At(s0, es, i).mode == Menu)
    ensures Placed(s0, es, i) == |LiveCells(At(s0, es, i).grid)| + Shot(s0, es, i)
  {
    if i == 0 {
      FreshBooks(s0);
    } else {
      AtNext(s0, es, i - 1);
      BackToMenu(At(s0, es, i - 1), es[i - 1]);
      if Restarts(At(s0, es, i - 1), es[i - 1]) {
        RestartInitializes(At(s0, es, i - 1), es[i - 1]);
        FreshBooks(At(s0, es, i - 1));
      } else {
        LiveTheorem(s0, es, i - 1);
        RunInv(s0, es, i - 1);
        LiveBooks(At(s0, es, i - 1), es[i - 1], Placed(s0, es, i - 1), Shot(s0, es, i - 1));
      }
    }
  }
}

/** The handlers of game.c, and the click and keys that drive the game, updating
    the game's global variables in place.  Each one is proved to take the state
    to the one `GameModel` gives. */
module Game {
  import opened Bits
  import opened GameModel
  import GameInvariant
  import GameRuns

  /** How far a row-major scan that turns `g` into `target` has come. */
  ghost predicate Scanned(now: seq<Alien>, g: seq<Alien>, target: seq<Alien>, n: nat) {
    |g| == |target| && n <= |g| && now == target[..n] + g[n..]
  }

  lemma ScanOne(now: seq<Alien>, g: seq<Alien>, target: seq<Alien>, n: nat)
    requires Scanned(now, g, target, n) && n < |g|
    ensures now[n] == g[n]
    ensures Scanned(now[n := target[n]], g, target, n + 1)
    ensures target[n] == g[n] ==> Scanned(now, g, target, n + 1)
  {
    assert target[..n + 1] + g[n + 1..] == (target[..n] + g[n..])[n := target[n]];
  }

  lemma ResetNext(now: seq<Alien>, g: seq<Alien>, i: nat, j: nat)
    requires i < HEIGHT && j < WIDTH && Scanned(now, g, EmptyGrid(), i * WIDTH + j)
    ensures |now| == CELLS
    ensures Scanned(now[i * WIDTH + j := Alien(EMPTY, 0)], g, EmptyGrid(), i * WIDTH + j + 1)
  {
    ScanOne(now, g, EmptyGrid(), i * WIDTH + j);
  }

  lemma CellCoordinates(i: nat, j: nat)
    requires i < HEIGHT && j < WIDTH
    ensures i * WIDTH + j < CELLS
    ensures (i * WIDTH + j) / WIDTH == i && (i * WIDTH + j) % WIDTH == j
  {
  }

  lemma KillOthersAt(g: seq<Alien>, killer: Killer, i: nat, j: nat)
    requires |g| == CELLS && i < HEIGHT && j < WIDTH
    ensures KillOthers(g, killer)[i * WIDTH + j] ==
            if killer.x == j && killer.y == i then g[i * WIDTH + j] else Kill(g[i * WIDTH + j])
  {
  }

  ghost function KillAt(a: Alien, killer: Killer, i: nat, j: nat): Alien {
    if killer.x == j && killer.y == i then a else Kill(a)
  }

  lemma KillNext(now: seq<Alien>, g: seq<Alien>, killer: Killer, i: nat, j: nat)
    requires |g| == CELLS && i < HEIGHT && j < WIDTH && Scanned(now, g, KillOthers(g, killer), i * WIDTH + j)
    ensures |now| == CELLS
    ensures Scanned(now[i * WIDTH + j := KillAt(now[i * WIDTH + j], killer, i, j)], g, KillOthers(g, killer),
                    i * WIDTH + j + 1)
  {
    ScanOne(now, g, KillOthers(g, killer), i * WIDTH + j);
    KillOthersAt(g, killer, i, j);
  }

  /** What a scan that is not cut short makes of the grid. */
  ghost function ScanTarget(over: bool, g: seq<Alien>, killer: Killer): (r: seq<Alien>)
    requires GridOk(g)
    ensures GridOk(r)
  {
    if over then OverTickAll(g, killer) else TickPrefix(g, CELLS)
  }

  /** What a scan makes of the one cell (`i`, `j`). */
  ghost function ScanCell(over: bool, a: Alien, killer: Killer, i: nat, j: nat): Alien
    requires a.state <= EMPTY
  {
    if over then (if killer.x == j && killer.y == i then a else OverTick(a)) else Tick(a)
  }

  lemma ScanTargetAt(over: bool, g: seq<Alien>, killer: Killer, i: nat, j: nat)
    requires GridOk(g) && i < HEIGHT && j < WIDTH
    ensures ScanTarget(over, g, killer)[i * WIDTH + j] == ScanCell(over, g[i * WIDTH + j], killer, i, j)
  {
  }

  /** An update of state `s` whose scan has dealt with the first `n` cells. */
  ghost predicate Updating(s: State, now: seq<Alien>, n: nat) {
    && GridOk(s.grid)
    && Scanned(now, s.grid, ScanTarget(s.mode == GameOver, s.grid, s.killer), n)
    && (s.mode != GameOver ==> forall k :: 0 <= k < n ==> !Expired(s.grid[k]))
  }

  lemma UpdateNext(s: State, now: seq<Alien>, i: nat, j: nat)
    requires i < HEIGHT && j < WIDTH && Updating(s, now, i * WIDTH + j)
    ensures GridOk(now)
    ensures s.mode == GameOver || !Expired(now[i * WIDTH + j]) ==>
              Updating(s, now[i * WIDTH + j := ScanCell(s.mode == GameOver, now[i * WIDTH + j], s.killer, i, j)],
                       i * WIDTH + j + 1)
  {
    ScanOne(now, s.grid, ScanTarget(s.mode == GameOver, s.grid, s.killer), i * WIDTH + j);
    ScanTargetAt(s.mode == GameOver, s.grid, s.killer, i, j);
  }

  /** A scan stopped by an expired alien at (`i`, `j`) leaves the state the model gives. */
  lemma UpdateKilled(s: State, now: seq<Alien>, i: nat, j: nat)
    requires i < HEIGHT && j < WIDTH && Updating(s, now, i * WIDTH + j)
    requires s.mode != GameOver && Expired(now[i * WIDTH + j])
    ensures UpdateTimes(s) == s.(mode := GameOver, overCounter := GAME_OVER_WAIT, killer := Killer(0, j, i),
                                 grid := KillOthers(now, Killer(0, j, i)))
  {
    var n := i * WIDTH + j;
    CellCoordinates(i, j);
    ScanOne(now, s.grid, ScanTarget(false, s.grid, s.killer), n);
    assert FirstExpired(s.grid, 0) == n;
    assert now == TickPrefix(s.grid, n);
  }

  /** A scan that runs to the end leaves the state the model gives. */
  lemma UpdateEnded(s: State, now: seq<Alien>)
    requires Updating(s, now, CELLS)
    ensures UpdateTimes(s) == s.(grid := now)
  {
  }

  const FRAME_NUMBER: nat := 2

  function Interrupts(es: seq<Event>): nat {
    if es == [] then 0 else Interrupts(es[..|es| - 1]) + if es[|es| - 1].Frame? then 1 else 0
  }

  /** The events that reach the game when the interrupt counter starts at `c`: of the timer
      interrupts only those that make it even. */
  function Kept(es: seq<Event>, c: Word): seq<Event> {
    if es == [] then []
    else Kept(es[..|es| - 1], c) +
         if es[|es| - 1].Frame? && (c + Interrupts(es)) % 2 != 0 then [] else [es[|es| - 1]]
  }

  function CounterAfter(counter: Word, e: Event): Word {
    if e.Frame? then U32(counter + 1) else counter
  }

  function StateAfter(t: State, counter: Word, e: Event): State
    requires GridOk(t.grid)
  {
    if e.Frame? && CounterAfter(counter, e) % FRAME_NUMBER != 0 then t else Next(t, e)
  }

  /** The state before event `i` of the loop: that of the run of the events that have reached
      the game. */
  ghost function Before(s: State, es: seq<Event>, i: nat, c: Word): State
    requires i <= |es|
  {
    var kept := Kept(es[..i], c);
    GameRuns.At(s, kept, |kept|)
  }

  /** The state and the interrupt counter after the first `n` events, none of which came in
      mode EXIT. */
  ghost predicate Looped(s: State, es: seq<Event>, n: nat, c: Word, t: State, counter: Word)
    requires n <= |es|
  {
    && counter == U32(c + Interrupts(es[..n]))
    && t == Before(s, es, n, c)
    && GameInvariant.Inv(t)
    && forall i :: 0 <= i < n ==> Before(s, es, i, c).mode != Exit
  }

  lemma LoopStart(s: State, es: seq<Event>, c: Word)
    ensures Looped(s, es, 0, c, GameModel.Initialize(s), c)
  {
    GameInvariant.InitInv(s);
  }

  lemma KeptNext(es: seq<Event>, n: nat, c: Word)
    requires n < |es|
    ensures Interrupts(es[..n + 1]) == Interrupts(es[..n]) + if es[n].Frame? then 1 else 0
    ensures Kept(es[..n + 1], c) ==
            if es[n].Frame? && U32(c + Interrupts(es[..n + 1])) % FRAME_NUMBER != 0 then Kept(es[..n], c)
            else Kept(es[..n], c) + [es[n]]
  {
    assert es[..n + 1][..n] == es[..n];
    WrapParity(c + Interrupts(es[..n + 1]));
  }

  /** Everything but the timer interrupts. */
  function Others(es: seq<Event>): seq<Event> {
    if es == [] then []
    else Others(es[..|es| - 1]) + if es[|es| - 1].Frame? then [] else [es[|es| - 1]]
  }

  /** Which events reach the game: every second interrupt, at the moments the counter is even,
      and everything else in its order. */
  lemma {:induction false} KeptExactly(es: seq<Event>, c: Word)
    ensures Interrupts(Kept(es, c)) == (c + Interrupts(es)) / 2 - c / 2
    ensures Others(Kept(es, c)) == Others(es)
  {
    if es != [] {
      KeptExactly(es[..|es| - 1], c);
      KeptLast(es, es[..|es| - 1], es[|es| - 1], c);
    }
  }

  lemma KeptLast(es: seq<Event>, front: seq<Event>, e: Event, c: Word)
    requires es != [] && front == es[..|es| - 1] && e == es[|es| - 1]
    requires Interrupts(Kept(front, c)) == (c + Interrupts(front)) / 2 - c / 2
    requires Others(Kept(front, c)) == Others(front)
    ensures Interrupts(Kept(es, c)) == (c + Interrupts(es)) / 2 - c / 2
    ensures Others(Kept(es, c)) == Others(es)
  {
    KeptOne(es, c);
    OthersOne(es);
    KeptMore(Kept(front, c), e);
    if e.Frame? { EvenMoments(c, Interrupts(front)); }
  }

  lemma KeptOne(es: seq<Event>, c: Word)
    requires es != []
    ensures var kept, e := Kept(es[..|es| - 1], c), es[|es| - 1];
            Kept(es, c) == if e.Frame? && (c + Interrupts(es)) % 2 != 0 then kept else kept + [e]
  {
    Nothing(Kept(es[..|es| - 1], c));
  }

  lemma OthersOne(es: seq<Event>)
    requires es != []
    ensures var others, e := Others(es[..|es| - 1]), es[|es| - 1];
            Others(es) == if e.Frame? then others else others + [e]
  {
    Nothing(Others(es[..|es| - 1]));
  }

  lemma Nothing<T>(s: seq<T>)
    ensures s + [] == s
  {
  }

  lemma EvenMoments(c: nat, k: nat)
    ensures (c + (k + 1)) / 2 - (c + k) / 2 == if (c + (k + 1)) % 2 == 0 then 1 else 0
  {
  }

  lemma KeptMore(kept: seq<Event>, e: Event)
    ensures Interrupts(kept + [e]) == Interrupts(kept) + if e.Frame? then 1 else 0
    ensures Others(kept + [e]) == if e.Frame? then Others(kept) else Others(kept) + [e]
  {
    Nothing(Others(kept));
    assert (kept + [e])[..|kept|] == kept;
  }

  lemma WrapParity(k: nat)
    ensures U32(k) % FRAME_NUMBER == k % FRAME_NUMBER
  {
  }

  lemma CounterNext(c: Word, k: nat)
    ensures U32(U32(c + k) + 1) == U32(c + (k + 1))
  {
  }

  lemma AtMore(s: State, kept: seq<Event>, more: seq<Event>, e: Event)
    requires more == kept + [e]
    ensures GameRuns.At(s, more, |more|) == Next(GameRuns.At(s, kept, |kept|), e)
  {
    GameRuns.AtNext(s, more, |kept|);
    assert more[..|kept|] == kept[..|kept|];
  }

  lemma CounterOn(es: seq<Event>, n: nat, c: Word)
    requires n < |es|
    ensures U32(c + Interrupts(es[..n + 1])) == CounterAfter(U32(c + Interrupts(es[..n])), es[n])
  {
    KeptNext(es, n, c);
    CounterNext(c, Interrupts(es[..n]));
  }

  lemma StateAfterInv(t: State, counter: Word, e: Event)
    requires GameInvariant.Inv(t)
    ensures GameInvariant.Inv(StateAfter(t, counter, e))
  {
    GameInvariant.NextInv(t, e);
  }

  /** One event of the loop. */
  lemma LoopNext(s: State, es: seq<Event>, n: nat, c: Word, t: State, counter: Word)
    requires n < |es| && Looped(s, es, n, c, t, counter) && t.mode != Exit
    ensures Looped(s, es, n + 1, c, StateAfter(t, counter, es[n]), CounterAfter(counter, es[n]))
  {
    BeforeNext(s, es, n, c);
    CounterOn(es, n, c);
    StateAfterInv(t, counter, es[n]);
  }

  lemma BeforeNext(s: State, es: seq<Event>, n: nat, c: Word)
    requires n < |es|
    ensures GridOk(Before(s, es, n, c).grid)
    ensures Before(s, es, n + 1, c) == StateAfter(Before(s, es, n, c), U32(c + Interrupts(es[..n])), es[n])
  {
    KeptNext(es, n, c);
    CounterOn(es, n, c);
    if Kept(es[..n + 1], c) == Kept(es[..n], c) + [es[n]] {
      AtMore(s, Kept(es[..n], c), Kept(es[..n + 1], c), es[n]);
    }
  }

  /** How the loop ends, in terms of its events: not before the last one, and then by ESC or by
      the exit button of the menu. */
  ghost predicate LeftExactly(s: State, es: seq<Event>, n: nat, c: Word, mode: Mode)
    requires n <= |es|
  {
    && (forall i :: 0 <= i < n - 1 ==> es[i] != EscKey)
    && (EscKey in es[..n] ==> mode == Exit)
    && (mode == Exit <==>
          n > 0 && (es[n - 1] == EscKey || (es[n - 1] == ExitButton && Before(s, es, n - 1, c).mode == Menu)))
  }

  lemma EscLeaves(s: State, es: seq<Event>, i: nat, c: Word)
    requires i < |es| && Before(s, es, i, c).mode != Exit
    ensures Before(s, es, i + 1, c).mode == Exit <==>
            es[i] == EscKey || (es[i] == ExitButton && Before(s, es, i, c).mode == Menu)
  {
    BeforeNext(s, es, i, c);
    LeavesNext(Before(s, es, i, c), U32(c + Interrupts(es[..i])), es[i]);
  }

  lemma LeavesNext(t: State, counter: Word, e: Event)
    requires GridOk(t.grid) && t.mode != Exit
    ensures StateAfter(t, counter, e).mode == Exit <==> e == EscKey || (e == ExitButton && t.mode == Menu)
  {
  }

  lemma LoopLeft(s: State, es: seq<Event>, n: nat, c: Word, t: State, counter: Word)
    requires n <= |es| && Looped(s, es, n, c, t, counter)
    ensures LeftExactly(s, es, n, c, t.mode)
  {
    forall i | 0 <= i < n
      ensures Before(s, es, i + 1, c).mode == Exit <==>
              es[i] == EscKey || (es[i] == ExitButton && Before(s, es, i, c).mode == Menu)
    {
      EscLeaves(s, es, i, c);
    }
    forall i | 0 <= i < n - 1 ensures es[i] != EscKey {
      assert Before(s, es, i + 1, c).mode != Exit;
    }
  }

  class AlienGame {
    const matrix: array2<Alien>
    var mode: Mode
    var killer: Killer
    var overCounter: nat
    var points: nat
    var spawnCounter: nat
    var spawnNumber: nat
    var spawnIncrease: nat
    var frameCounter: Word

    constructor ()
      ensures Shaped() && fresh(matrix) && frameCounter == 0
    {
      matrix := new Alien[HEIGHT, WIDTH]((_, _) => Alien(APPEARING, 0));
      mode := Playing;
      killer := Killer(0, 0, 0);
      overCounter, points := 0, 0;
      spawnCounter, spawnNumber, spawnIncrease := 0, 0, 0;
      frameCounter := 0;
    }

    predicate Shaped() {
      matrix.Length0 == HEIGHT && matrix.Length1 == WIDTH
    }

    ghost function Grid(): (g: seq<Alien>)
      requires Shaped()
      reads matrix
      ensures |g| == CELLS
    {
      seq(CELLS, k requires 0 <= k < CELLS reads matrix => matrix[k / WIDTH, k % WIDTH])
    }

    ghost function Value(): State
      requires Shaped()
      reads this, matrix
    {
      State(mode, Grid(), killer, overCounter, points, Spawner(spawnCounter, spawnNumber, spawnIncrease))
    }

    /** Nothing but row `y`, column `x` of the matrix has changed. */
    twostate predicate OthersKept(y: int, x: int)
      requires Shaped()
      reads matrix
    {
      forall i, j :: 0 <= i < 7 && 0 <= j < 11 && !(i == y && j == x) ==> matrix[i, j] == old(matrix[i, j])
    }

    /** What two attempts with these values of `rand()` make of the matrix: column and row are
        drawn in this order, and the second position is tried only where the first is taken. */
    twostate predicate Tried(draws: Draws)
      requires Shaped()
      reads matrix
    {
      var x1, y1, x2, y2 := draws[0] % 11, draws[1] % 7, draws[2] % 11, draws[3] % 7;
      if old(matrix[y1, x1]).state == EMPTY then matrix[y1, x1] == Alien(APPEARING, 5) && OthersKept(y1, x1)
      else if old(matrix[y2, x2]).state == EMPTY then matrix[y2, x2] == Alien(APPEARING, 5) && OthersKept(y2, x2)
      else unchanged(matrix)
    }

    method Get(i: nat, j: nat) returns (a: Alien)
      requires Shaped() && i < HEIGHT && j < WIDTH
      ensures a == Grid()[i * WIDTH + j] == matrix[i, j]
    {
      a := matrix[i, j];
    }

    method Set(i: nat, j: nat, a: Alien)
      requires Shaped() && i < HEIGHT && j < WIDTH
      modifies matrix
      ensures Grid() == old(Grid())[i * WIDTH + j := a]
      ensures matrix[i, j] == a && OthersKept(i, j)
    {
      matrix[i, j] := a;
    }

    method Reset()
      requires Shaped()
      modifies matrix
      ensures Grid() == EmptyGrid()
    {
      ghost var g := Grid();
      for i := 0 to HEIGHT
        invariant Scanned(Grid(), g, EmptyGrid(), i * WIDTH)
      {
        ResetRow(i, g);
      }
    }

    /** The inner loop. */
    method ResetRow(i: nat, ghost g: seq<Alien>)
      requires Shaped() && i < HEIGHT && Scanned(Grid(), g, EmptyGrid(), i * WIDTH)
      modifies matrix
      ensures Scanned(Grid(), g, EmptyGrid(), i * WIDTH + WIDTH)
    {
      for j := 0 to WIDTH
        invariant Scanned(Grid(), g, EmptyGrid(), i * WIDTH + j)
      {
        ResetNext(Grid(), g, i, j);
        Set(i, j, Alien(EMPTY, 0));
      }
    }

    method Initialize()
      requires Shaped()
      modifies this, matrix
      ensures Value() == GameModel.Initialize(old(Value()))
      ensures mode == Menu && points == 0 && overCounter == 0
      ensures spawnCounter == 0 && spawnNumber == 70 && spawnIncrease == 5
      ensures unchanged(`frameCounter) && unchanged(`killer)
    {
      mode := Menu;
      points := 0;
      overCounter := 0;
      spawnCounter := 0;
      spawnNumber := INIT_SPAWN_TIME;
      spawnIncrease := SPAWN_RATE_INCREASE;
      Reset();
    }

    method KillCell(i: nat, j: nat)
      requires Shaped() && i < HEIGHT && j < WIDTH
      modifies matrix
      ensures Grid() == old(Grid())[i * WIDTH + j := KillAt(old(Grid())[i * WIDTH + j], killer, i, j)]
    {
      var alien := Get(i, j);
      if alien.state == EMPTY || (killer.x == j && killer.y == i) { return; }
      Set(i, j, Alien(DEAD_1, 2));
    }

    method KillOtherAliens()
      requires Shaped()
      modifies matrix
      ensures Grid() == KillOthers(old(Grid()), killer)
    {
      ghost var g := Grid();
      for i := 0 to HEIGHT
        invariant Scanned(Grid(), g, KillOthers(g, killer), i * WIDTH)
      {
        KillRow(i, g);
      }
    }

    /** The inner loop. */
    method KillRow(i: nat, ghost g: seq<Alien>)
      requires Shaped() && i < HEIGHT && |g| == CELLS && Scanned(Grid(), g, KillOthers(g, killer), i * WIDTH)
      modifies matrix
      ensures Scanned(Grid(), g, KillOthers(g, killer), i * WIDTH + WIDTH)
    {
      for j := 0 to WIDTH
        invariant Scanned(Grid(), g, KillOthers(g, killer), i * WIDTH + j)
      {
        KillNext(Grid(), g, killer, i, j);
        KillCell(i, j);
      }
    }

    /** The alien at (`i`, `j`) ends the game. */
    method EndGame(i: nat, j: nat)
      requires Shaped()
      modifies this, matrix
      ensures Value() == old(Value()).(mode := GameOver, overCounter := GAME_OVER_WAIT,
                                       killer := Killer(0, j, i), grid := KillOthers(old(Grid()), Killer(0, j, i)))
      ensures unchanged(`frameCounter)
    {
      overCounter := GAME_OVER_WAIT;
      mode := GameOver;
      killer := Killer(0, j, i);
      KillOtherAliens();
    }

    /** The body of the scan for one cell; `kills` when this alien ends the game. */
    method UpdateCell(i: nat, j: nat) returns (kills: bool)
      requires Shaped() && GridOk(Grid()) && i < HEIGHT && j < WIDTH
      modifies matrix
      ensures kills <==> mode != GameOver && Expired(old(Grid())[i * WIDTH + j])
      ensures kills ==> Grid() == old(Grid())
      ensures !kills ==> Grid() == old(Grid())[i * WIDTH + j :=
                           ScanCell(mode == GameOver, old(Grid())[i * WIDTH + j], killer, i, j)]
    {
      kills := false;
      var alien := Get(i, j);
      if alien.state == EMPTY { return; }
      if mode == GameOver {
        if killer.x == j && killer.y == i { return; }
        if alien.time > 0 {
          Set(i, j, Alien(alien.state, alien.time - 1));
        } else {
          Set(i, j, Alien(alien.state + 1, 2));
        }
        return;
      }
      if alien.state == ALIVE && alien.time == 0 {
        kills := true;
        return;
      }
      if alien.time > 0 {
        Set(i, j, Alien(alien.state, alien.time - 1));
      } else {
        Set(i, j, Alien(alien.state + 1, ALIEN_TIMES[alien.state + 1]));
      }
    }

    /** The inner loop of the update, over row `i`; `ended` when an alien of the row ends the game. */
    method UpdateRow(i: nat, ghost s: State) returns (ended: bool)
      requires Shaped() && i < HEIGHT && Updating(s, Grid(), i * WIDTH)
      requires Value() == s.(grid := Grid())
      modifies this, matrix
      ensures ended ==> Value() == UpdateTimes(s)
      ensures unchanged(`frameCounter)
      ensures !ended ==> unchanged(this) && Updating(s, Grid(), (i + 1) * WIDTH)
    {
      for j := 0 to WIDTH
        invariant unchanged(this)
        invariant Updating(s, Grid(), i * WIDTH + j)
      {
        UpdateNext(s, Grid(), i, j);
        var kills := UpdateCell(i, j);
        if kills {
          UpdateKilled(s, Grid(), i, j);
          EndGame(i, j);
          return true;
        }
      }
      return false;
    }

    method UpdateAlienTimes()
      requires Shaped() && GridOk(Grid())
      modifies this, matrix
      ensures Value() == UpdateTimes(old(Value()))
      ensures unchanged(`frameCounter)
    {
      ghost var s := Value();
      for i := 0 to HEIGHT
        invariant unchanged(this)
        invariant Updating(s, Grid(), i * WIDTH)
      {
        var ended := UpdateRow(i, s);
        if ended { return; }
      }
      UpdateEnded(s, Grid());
    }

    /** The attempts at the end of `game_generate_new_alien`. */
    method TryToPlace(draws: Draws)
      requires Shaped()
      modifies matrix
      ensures Grid() == Place(old(Grid()), draws) && Tried(draws)
    {
      var stream: seq<nat> := draws;
      var attempts: nat := SPAWN_ATTEMPTS;
      while attempts > 0
        invariant |stream| == 2 * attempts && stream == draws[|draws| - |stream|..]
        invariant unchanged(matrix)
        invariant attempts < 2 ==> matrix[draws[1] % 7, draws[0] % 11].state != EMPTY
        invariant attempts < 1 ==> matrix[draws[3] % 7, draws[2] % 11].state != EMPTY
        invariant Place(Grid(), stream) == Place(old(Grid()), draws)
      {
        attempts := attempts - 1;
        var x := stream[0] % WIDTH;
        var y := stream[1] % HEIGHT;
        var alien := Get(y, x);
        if alien.state == EMPTY {
          Set(y, x, Alien(APPEARING, ALIEN_TIMES[APPEARING]));
          return;
        }
        stream := stream[2..];
      }
    }

    method GenerateNewAlien(draws: Draws)
      requires Shaped()
      modifies this, matrix
      ensures Value() == Spawn(old(Value()), draws)
      ensures if old(spawnCounter < spawnNumber) then unchanged(matrix) else Tried(draws)
      ensures unchanged(`frameCounter)
    {
      if spawnCounter < spawnNumber {
        spawnCounter := U32(spawnCounter + 1);
        return;
      }
      spawnCounter := 0;
      if spawnIncrease > spawnNumber {
        spawnNumber := MAX_SPAWN_RATE;
        spawnIncrease := 0;
      }
      spawnNumber := U32(spawnNumber - spawnIncrease);
      TryToPlace(draws);
    }

    method GameStep(draws: Draws)
      requires Shaped() && GridOk(Grid())
      modifies this, matrix
      ensures Value() == Step(old(Value()), draws)
      ensures unchanged(`frameCounter)
    {
      UpdateAlienTimes();
      GenerateNewAlien(draws);
    }

    method GameIh(draws: Draws, better: bool)
      requires Shaped() && GridOk(Grid())
      modifies this, matrix
      ensures Value() == OnFrame(old(Value()), draws, better)
      ensures unchanged(`frameCounter)
    {
      match mode
      case Playing => GameStep(draws);
      case GameOver =>
        UpdateAlienTimes();
        overCounter := U32(overCounter - 1);
        killer := killer.(state := (overCounter / 5) % 4);
        if overCounter == 0 { GameLeaderboard(better); }
      case _ =>
    }

    method GameLeaderboard(better: bool)
      modifies `mode
      ensures mode == if better then LbInput else Leaderboard
    {
      if better {
        mode := LbInput;
        return;
      }
      mode := Leaderboard;
    }

    /** A click on grid position (`y`, `x`), delivered while the button was up. */
    method CheckKill(y: int, x: int)
      requires Shaped()
      modifies this, matrix
      ensures Value() == OnClick(old(Value()), y, x)
      ensures unchanged(`frameCounter)
    {
      if mode != Playing { return; }
      if x >= WIDTH || x < 0 { return; }
      if y >= HEIGHT || y < 0 { return; }
      var alien := Get(y, x);
      if alien.state == EMPTY {
        return;
      } else if alien.state == ALIVE || alien.state == APPEARING {
        points := U32(points + 1);
        Set(y, x, Alien(DEAD_1, ALIEN_TIMES[DEAD_1]));
      }
    }

    /** One turn of the game loop. */
    method Handle(e: Event)
      requires Shaped() && GridOk(Grid())
      modifies this, matrix
      ensures Value() == Next(old(Value()), e)
      ensures unchanged(`frameCounter)
    {
      match e
      case Frame(draws, better) => GameIh(draws, better);
      case Click(y, x) => CheckKill(y, x);
      case PauseKey =>
        if mode == Playing { mode := Pause; } else if mode == Pause { mode := Playing; }
      case EscKey => mode := Exit;
      case EnterKey(named) =>
        if mode == Leaderboard { Initialize(); } else if mode == LbInput && named { mode := Leaderboard; }
      case PlayButton => if mode == Menu { mode := Playing; }
      case ExitButton => if mode == Menu { mode := Exit; }
    }

    /** One turn of the loop: a timer interrupt reaches the game only every second time. */
    method Dispatch(e: Event)
      requires Shaped() && GridOk(Grid())
      modifies this, matrix
      ensures frameCounter == CounterAfter(old(frameCounter), e)
      ensures Value() == StateAfter(old(Value()), old(frameCounter), e)
    {
      if e.Frame? {
        frameCounter := U32(frameCounter + 1);
        if frameCounter % FRAME_NUMBER == 0 { Handle(e); }
      } else {
        Handle(e);
      }
    }

    /** The game loop: takes the events until the game is left or the events run out. A frame
        event is a timer interrupt here, and only every second one is a frame of the game.
        Whatever is proved of runs holds of the variables between any two events. */
    method GameLoop(es: seq<Event>) returns (n: nat)
      requires Shaped()
      modifies this, matrix
      ensures n <= |es| && (n < |es| ==> mode == Exit)
      ensures forall i :: 0 <= i < n ==> Before(old(Value()), es, i, old(frameCounter)).mode != Exit
      ensures LeftExactly(old(Value()), es, n, old(frameCounter), mode)
      ensures frameCounter == U32(old(frameCounter) + Interrupts(es[..n]))
      ensures Value() == Before(old(Value()), es, n, old(frameCounter))
      ensures GameInvariant.Inv(Value())
    {
      ghost var s := Value();
      ghost var c := frameCounter;
      Initialize();
      n := 0;
      LoopStart(s, es, c);
      while n < |es| && mode != Exit
        invariant n <= |es|
        invariant Looped(s, es, n, c, Value(), frameCounter)
      {
        LoopNext(s, es, n, c, Value(), frameCounter);
        Dispatch(es[n]);
        n := n + 1;
      }
      LoopLeft(s, es, n, c, Value(), frameCounter);
    }
  }
}

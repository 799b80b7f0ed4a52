/** Whole runs of the game: any sequence of events from the state `game_initialize`
    leaves, over any number of games. */
module GameRuns {
  import opened GameModel
  import opened GameInvariant

  /** The state after the events `es`. */
  ghost function Run(s: State, es: seq<Event>): (r: State)
    requires GridOk(s.grid)
    ensures GridOk(r.grid)
  {
    if es == [] then s else
      Next(Run(s, es[..|es| - 1]), es[|es| - 1])
  }

  lemma {:induction false} RunAppend(s: State, a: seq<Event>, b: seq<Event>)
    requires GridOk(s.grid)
    ensures Run(s, a + b) == Run(Run(s, a), b)
  {
    if b == [] {
      assert a + b == a;
    } else {
      RunAppend(s, a, b[..|b| - 1]);
      AppendLast(a, b);
      RunLast(s, a + b, a + b[..|b| - 1], b[|b| - 1]);
    }
  }

  lemma AppendLast<T>(a: seq<T>, b: seq<T>)
    requires b != []
    ensures a + b == a + b[..|b| - 1] + [b[|b| - 1]]
  {
  }

  lemma RunLast(s: State, es: seq<Event>, front: seq<Event>, e: Event)
    requires GridOk(s.grid) && es == front + [e]
    ensures Run(s, es) == Next(Run(s, front), e)
  {
    assert es[..|es| - 1] == front;
  }

  /** The state before event `i` of a run from power-up. */
  ghost function At(s0: State, es: seq<Event>, i: nat): (r: State)
    requires i <= |es|
    ensures GridOk(r.grid)
  {
    Run(Initialize(s0), es[..i])
  }

  lemma AtNext(s0: State, es: seq<Event>, i: nat)
    requires i < |es|
    ensures At(s0, es, i + 1) == Next(At(s0, es, i), es[i])
  {
    assert es[..i + 1][..i] == es[..i];
  }

  /** The invariant holds throughout every run. */
  lemma {:induction false} RunInv(s0: State, es: seq<Event>, i: nat)
    requires i <= |es|
    ensures Inv(At(s0, es, i))
  {
    if i == 0 {
      InitInv(s0);
    } else {
      RunInv(s0, es, i - 1);
      AtNext(s0, es, i - 1);
      NextInv(At(s0, es, i - 1), es[i - 1]);
    }
  }

  predicate Plays(s: State, e: Event) {
    s.mode == Playing && e.Frame?
  }

  predicate Restarts(s: State, e: Event) {
    s.mode == Leaderboard && e.EnterKey?
  }

  /** A click that hits a live alien. */
  predicate Hits(s: State, e: Event)
    requires |s.grid| == CELLS
  {
    e.Click? && s.mode == Playing && InGrid(e.y, e.x) && Live(s.grid[e.y * WIDTH + e.x])
  }

  /** How many game steps the current game has taken before event `i`. */
  ghost function Age(s0: State, es: seq<Event>, i: nat): nat
    requires i <= |es|
  {
    if i == 0 then 0 else AgeAfter(At(s0, es, i - 1), es[i - 1], Age(s0, es, i - 1))
  }

  function AgeAfter(s: State, e: Event, age: nat): nat {
    if Restarts(s, e) then 0 else if Plays(s, e) then age + 1 else age
  }

  // ----- births and deadlines

  /** Event `j` puts a new alien on cell `k`. */
  ghost predicate Born(s0: State, es: seq<Event>, j: nat, k: nat)
    requires j < |es| && k < CELLS
  {
    InGame(At(s0, es, j + 1).mode) && !Live(At(s0, es, j).grid[k]) && Live(At(s0, es, j + 1).grid[k])
  }

  /** From event `j` on and up to event `i` the game goes on and nobody shoots the alien on cell `k`. */
  ghost predicate Survives(s0: State, es: seq<Event>, j: nat, i: nat, k: nat)
    requires j <= i <= |es| && k < CELLS
  {
    forall m :: j < m <= i ==> InGame(At(s0, es, m).mode) && Live(At(s0, es, m).grid[k])
  }

  /** What one event does to a live cell: nothing, or one unit less time left, or its end. */
  lemma LiveNext(s: State, e: Event, k: nat)
    requires Inv(s) && k < CELLS && InGame(s.mode) && InGame(Next(s, e).mode)
    requires Live(s.grid[k]) && Live(Next(s, e).grid[k])
    ensures Remaining(Next(s, e).grid[k]) == Remaining(s.grid[k]) - if Plays(s, e) then 1 else 0
  {
    if Plays(s, e) {
      var u := UpdateTimes(s);
      assert u.mode != GameOver;
      TickLive(s.grid[k]);
      var p := PlaceCases(u.grid, e.draws);
    }
  }

  /** A cell comes alive only as a newborn, in a game step. */
  lemma BirthNext(s: State, e: Event, k: nat)
    requires Inv(s) && k < CELLS && InGame(Next(s, e).mode)
    requires !Live(s.grid[k]) && Live(Next(s, e).grid[k])
    ensures Plays(s, e) && Due(s.spawner) && Next(s, e).grid[k] == NEWBORN && Next(s, e).mode == Playing
  {
    if Plays(s, e) {
      TickLive(s.grid[k]);
      var p := PlaceCases(UpdateTimes(s).grid, e.draws);
    }
  }

  lemma LiveAt(s0: State, es: seq<Event>, i: nat, k: nat)
    requires i < |es| && k < CELLS
    requires InGame(At(s0, es, i).mode) && InGame(At(s0, es, i + 1).mode)
    requires Live(At(s0, es, i).grid[k]) && Live(At(s0, es, i + 1).grid[k])
    ensures Age(s0, es, i + 1) >= Age(s0, es, i)
    ensures Remaining(At(s0, es, i + 1).grid[k]) ==
            Remaining(At(s0, es, i).grid[k]) - (Age(s0, es, i + 1) - Age(s0, es, i))
  {
    RunInv(s0, es, i);
    AtNext(s0, es, i);
    LiveNext(At(s0, es, i), es[i], k);
  }

  lemma BornAt(s0: State, es: seq<Event>, j: nat, k: nat)
    requires j < |es| && k < CELLS && Born(s0, es, j, k)
    ensures At(s0, es, j + 1).grid[k] == NEWBORN
    ensures Plays(At(s0, es, j), es[j]) && Due(At(s0, es, j).spawner)
  {
    RunInv(s0, es, j);
    AtNext(s0, es, j);
    BirthNext(At(s0, es, j), es[j], k);
  }

  /** A game starts with an empty grid, and no other state leads into one. */
  lemma LiveBefore(s0: State, es: seq<Event>, i: nat, k: nat)
    requires i < |es| && k < CELLS
    requires InGame(At(s0, es, i + 1).mode) && Live(At(s0, es, i).grid[k])
    ensures InGame(At(s0, es, i).mode)
  {
    RunInv(s0, es, i);
    AtNext(s0, es, i);
  }

  /** A surviving alien's remaining time is fixed by the number of steps since its birth. */
  lemma {:induction false} RemainingAfter(s0: State, es: seq<Event>, j: nat, i: nat, k: nat)
    requires j < i <= |es| && k < CELLS && Born(s0, es, j, k) && Survives(s0, es, j, i, k)
    ensures Age(s0, es, i) >= Age(s0, es, j + 1)
    ensures Remaining(At(s0, es, i).grid[k]) == NEWBORN_REMAINING - (Age(s0, es, i) - Age(s0, es, j + 1))
    decreases i
  {
    if i == j + 1 {
      BornAt(s0, es, j, k);
    } else {
      RemainingAfter(s0, es, j, i - 1, k);
      LiveAt(s0, es, i - 1, k);
    }
  }

  /** Every live alien was born in this game and has survived since. */
  lemma {:induction false} BirthOf(s0: State, es: seq<Event>, i: nat, k: nat) returns (j: nat)
    requires i <= |es| && k < CELLS && InGame(At(s0, es, i).mode) && Live(At(s0, es, i).grid[k])
    ensures j < i && Born(s0, es, j, k) && Survives(s0, es, j, i, k)
  {
    StartsInMenu(s0, es);
    if Live(At(s0, es, i - 1).grid[k]) {
      LiveBefore(s0, es, i - 1, k);
      j := BirthOf(s0, es, i - 1, k);
      SurvivesMore(s0, es, j, i, k);
    } else {
      j := i - 1;
      BornNow(s0, es, j, k);
    }
  }

  lemma BornNow(s0: State, es: seq<Event>, j: nat, k: nat)
    requires j < |es| && k < CELLS && InGame(At(s0, es, j + 1).mode) && Live(At(s0, es, j + 1).grid[k])
    requires !Live(At(s0, es, j).grid[k])
    ensures Born(s0, es, j, k) && Survives(s0, es, j, j + 1, k)
  {
  }

  lemma StartsInMenu(s0: State, es: seq<Event>)
    ensures At(s0, es, 0).mode == Menu
  {
  }

  lemma SurvivesMore(s0: State, es: seq<Event>, j: nat, i: nat, k: nat)
    requires j < i <= |es| && k < CELLS && Survives(s0, es, j, i - 1, k)
    requires InGame(At(s0, es, i).mode) && Live(At(s0, es, i).grid[k])
    ensures Survives(s0, es, j, i, k)
  {
  }

  const LIFETIME: nat := 307

  /** Event `i` ends the game, and the alien on cell `k` is to blame. */
  ghost predicate EndsBy(s0: State, es: seq<Event>, i: nat, k: nat)
    requires i < |es| && k < CELLS
  {
    && At(s0, es, i).mode != GameOver && At(s0, es, i + 1).mode == GameOver
    && IsKiller(At(s0, es, i + 1).killer, k)
  }

  lemma EndNext(s: State, e: Event, k: nat)
    requires Inv(s) && k < CELLS && s.mode != GameOver
    ensures Next(s, e).mode == GameOver && IsKiller(Next(s, e).killer, k) <==> Plays(s, e) && Expired(s.grid[k])
  {
    if Plays(s, e) && Expired(s.grid[k]) {
      OneExpired(s.grid, k);
    }
  }

  /** An alien is to blame for the end of the game exactly when it was born 307 game
      steps before it and was never shot; this holds of every alien, whichever
      cell the scan reaches first. */
  lemma DeadlineTheorem(s0: State, es: seq<Event>, i: nat, k: nat)
    requires i < |es| && k < CELLS
    ensures EndsBy(s0, es, i, k) <==>
            && Plays(At(s0, es, i), es[i])
            && exists j :: 0 <= j < i && Born(s0, es, j, k) && Survives(s0, es, j, i, k)
                           && Age(s0, es, i + 1) - Age(s0, es, j + 1) == LIFETIME
  {
    var s := At(s0, es, i);
    RunInv(s0, es, i);
    AtNext(s0, es, i);
    if s.mode != GameOver {
      EndNext(s, es[i], k);
    }
    if Plays(s, es[i]) {
      if Expired(s.grid[k]) {
        var j := BirthOf(s0, es, i, k);
        RemainingAfter(s0, es, j, i, k);
      }
      forall j | 0 <= j < i && Born(s0, es, j, k) && Survives(s0, es, j, i, k)
                 && Age(s0, es, i + 1) - Age(s0, es, j + 1) == LIFETIME
        ensures Expired(s.grid[k])
      {
        RemainingAfter(s0, es, j, i, k);
        RemainingZero(s.grid[k]);
      }
    }
  }

  lemma RemainingZero(a: Alien)
    requires Live(a) && Remaining(a) == 0
    ensures Expired(a)
  {
  }
}

/** The spawn schedule, and the length of a game in which the player hits nothing. */
module GameTheorems {
  import opened GameModel
  import opened GameInvariant
  import opened GameRuns

  // ----- the spawn schedule

  /** The spawner's variables after `n` calls since `game_initialize`. */
  ghost function SpawnerAfter(n: nat): Spawner {
    if n == 0 then Spawner(0, INIT_SPAWN_TIME, SPAWN_RATE_INCREASE) else Advance(SpawnerAfter(n - 1))
  }

  function Triangle(k: nat): nat {
    if k == 0 then 0 else Triangle(k - 1) + k
  }

  /** The call on which the `k`-th attempt to place an alien is made. */
  function AttemptCall(k: nat): int {
    if k <= 15 then 76 * k - 5 * Triangle(k) else 540 + 21 * (k - 15)
  }

  /** The variables `d` calls after the `k`-th attempt. */
  function SpawnerSince(k: nat, d: nat): Spawner {
    if k <= 14 then Spawner(d, INIT_SPAWN_TIME - SPAWN_RATE_INCREASE * k, SPAWN_RATE_INCREASE)
    else Spawner(d, MAX_SPAWN_RATE, 0)
  }

  lemma {:induction false} TriangleIs(k: nat)
    ensures 2 * Triangle(k) == k * (k + 1)
  {
    if k > 0 {
      TriangleIs(k - 1);
      assert k * (k + 1) == (k - 1) * k + 2 * k;
    }
  }

  lemma AttemptCallIs(k: nat)
    ensures AttemptCall(k) == if k <= 15 then 76 * k - 5 * (k * (k + 1) / 2) else 540 + 21 * (k - 15)
  {
    TriangleIs(k);
  }

  /** The calls between attempt `k` and the next one. */
  lemma Interval(k: nat)
    ensures AttemptCall(k + 1) - AttemptCall(k) == SpawnerSince(k, 0).number + 1
    ensures AttemptCall(0) == 0
  {
    if k == 15 { AttemptCallIs(15); }
  }

  /** Every call number lies in exactly one interval of the schedule. */
  lemma {:induction false} LastAttempt(n: nat) returns (k: nat)
    ensures AttemptCall(k) <= n < AttemptCall(k + 1)
  {
    Interval(0);
    if n == 0 {
      k := 0;
    } else {
      k := LastAttempt(n - 1);
      if n == AttemptCall(k + 1) {
        k := k + 1;
      }
      Interval(k);
    }
  }

  lemma SinceNext(k: nat, d: nat)
    requires d <= SpawnerSince(k, 0).number
    ensures Advance(SpawnerSince(k, d)) ==
            if d < SpawnerSince(k, 0).number then SpawnerSince(k, d + 1) else SpawnerSince(k + 1, 0)
  {
  }

  /** The counters in closed form, `d` calls after attempt `k`; in particular the counter never
      passes the number and the unsigned subtraction never wraps. */
  lemma SpawnerClosedForm(k: nat, d: nat)
    requires d <= SpawnerSince(k, 0).number
    ensures AttemptCall(k) >= 0 && SpawnerAfter(AttemptCall(k) + d) == SpawnerSince(k, d)
  {
    SpawnerAtAttempt(k);
    SinceAttempt(AttemptCall(k), k, d);
  }

  lemma {:induction false} SpawnerAtAttempt(k: nat)
    ensures AttemptCall(k) >= 0 && SpawnerAfter(AttemptCall(k)) == SpawnerSince(k, 0)
  {
    if k > 0 {
      SpawnerAtAttempt(k - 1);
      Interval(k - 1);
      UntilAttempt(AttemptCall(k - 1), k - 1);
    }
  }

  /** The calls after attempt `k`, which was call `n`. */
  lemma {:induction false} SinceAttempt(n: nat, k: nat, d: nat)
    requires d <= SpawnerSince(k, 0).number && SpawnerAfter(n) == SpawnerSince(k, 0)
    ensures SpawnerAfter(n + d) == SpawnerSince(k, d)
  {
    if d > 0 {
      SinceAttempt(n, k, d - 1);
      AfterSince(n + d - 1, k, d - 1);
    }
  }

  lemma UntilAttempt(n: nat, k: nat)
    requires SpawnerAfter(n) == SpawnerSince(k, 0)
    ensures SpawnerAfter(n + SpawnerSince(k, 0).number + 1) == SpawnerSince(k + 1, 0)
  {
    var d := SpawnerSince(k, 0).number;
    SinceAttempt(n, k, d);
    AfterSince(n + d, k, d);
  }

  lemma AfterSince(n: nat, k: nat, d: nat)
    requires d <= SpawnerSince(k, 0).number && SpawnerAfter(n) == SpawnerSince(k, d)
    ensures SpawnerAfter(n + 1) ==
            if d < SpawnerSince(k, 0).number then SpawnerSince(k, d + 1) else SpawnerSince(k + 1, 0)
  {
    SinceNext(k, d);
  }

  lemma {:induction false} AttemptsGrow(j: nat, k: nat)
    ensures j < k ==> AttemptCall(j) < AttemptCall(k)
    decreases k
  {
    Interval(0);
    if j < k {
      Interval(k - 1);
      AttemptsGrow(j, k - 1);
    }
  }

  /** Call `n + 1` attempts a spawn exactly when the schedule says so. */
  lemma AttemptSchedule(n: nat)
    ensures Due(SpawnerAfter(n)) <==> exists k: nat :: k > 0 && AttemptCall(k) == n + 1
  {
    var k := LastAttempt(n);
    DueAfter(n, k);
    forall m: nat | m > 0 && AttemptCall(m) == n + 1
      ensures m == k + 1
    {
      AttemptsGrow(m, k);
      AttemptsGrow(k + 1, m);
    }
  }

  lemma DueAfter(n: nat, k: nat)
    requires AttemptCall(k) <= n < AttemptCall(k + 1)
    ensures Due(SpawnerAfter(n)) <==> AttemptCall(k + 1) == n + 1
  {
    Interval(k);
    SpawnerClosedForm(k, n - AttemptCall(k));
  }

  /** The declared maximum spawn rate is exceeded, exactly between attempts 11 and 15. */
  lemma MaxRateExceeded(k: nat)
    ensures AttemptCall(k + 1) - AttemptCall(k) < MAX_SPAWN_RATE + 1 <==> 11 <= k <= 14
  {
    Interval(k);
  }

  /** One event, seen by the spawner: `age` is the age of the game before it. */
  lemma SpawnerNext(s: State, e: Event, age: nat)
    requires GridOk(s.grid) && s.spawner == SpawnerAfter(age)
    ensures Next(s, e).spawner == SpawnerAfter(AgeAfter(s, e, age))
  {
    NextSpawner(s, e);
  }

  lemma NextSpawner(s: State, e: Event)
    requires GridOk(s.grid)
    ensures Next(s, e).spawner ==
            if Plays(s, e) then Advance(s.spawner)
            else if Restarts(s, e) then Spawner(0, INIT_SPAWN_TIME, SPAWN_RATE_INCREASE)
            else s.spawner
  {
  }

  /** In every run the spawner has been called once per step of the current game. */
  lemma {:induction false} SpawnerAt(s0: State, es: seq<Event>, i: nat)
    requires i <= |es|
    ensures At(s0, es, i).spawner == SpawnerAfter(Age(s0, es, i))
  {
    if i > 0 {
      SpawnerAt(s0, es, i - 1);
      SpawnerOn(s0, es, i - 1);
    }
  }

  lemma SpawnerOn(s0: State, es: seq<Event>, i: nat)
    requires i < |es| && At(s0, es, i).spawner == SpawnerAfter(Age(s0, es, i))
    ensures At(s0, es, i + 1).spawner == SpawnerAfter(Age(s0, es, i + 1))
  {
    AtNext(s0, es, i);
    SpawnerNext(At(s0, es, i), es[i], Age(s0, es, i));
  }

  lemma MenuNext(s: State, e: Event)
    requires GridOk(s.grid) && Next(s, e).mode == Menu && !Restarts(s, e)
    ensures s.mode == Menu && !Plays(s, e)
  {
  }

  lemma {:induction false} MenuAt(s0: State, es: seq<Event>, i: nat)
    requires i <= |es|
    ensures At(s0, es, i).mode == Menu ==> Age(s0, es, i) == 0
  {
    if i > 0 {
      MenuAt(s0, es, i - 1);
      AtNext(s0, es, i - 1);
      var s, e := At(s0, es, i - 1), es[i - 1];
      if Next(s, e).mode == Menu && !Restarts(s, e) { MenuNext(s, e); }
    }
  }

  // ----- a game in which the player never shoots

  const FIRST_SPAWN: nat := 71
  const UNSHOT_LENGTH: nat := 378

  /** The state of an unshot game after `age` steps: empty until the first spawn, and
      from then on led by the first alien. */
  ghost predicate Unshot(g: seq<Alien>, age: nat) {
    if age < FIRST_SPAWN then AllEmpty(g)
    else
      && age < UNSHOT_LENGTH
      && (forall k :: 0 <= k < |g| && Live(g[k]) ==> Remaining(g[k]) >= UNSHOT_LENGTH - 1 - age)
      && exists k :: 0 <= k < |g| && Live(g[k]) && Remaining(g[k]) == UNSHOT_LENGTH - 1 - age
  }

  lemma FirstSpawnDue(age: nat)
    requires age < FIRST_SPAWN
    ensures Due(SpawnerAfter(age)) <==> age + 1 == FIRST_SPAWN
  {
    Interval(0);
    SpawnerClosedForm(0, age);
  }

  lemma UnshotTick(s: State, age: nat)
    requires Inv(s) && s.mode == Playing && Unshot(s.grid, age)
    ensures UpdateTimes(s).mode == GameOver <==> age + 1 == UNSHOT_LENGTH
    ensures age + 1 < UNSHOT_LENGTH ==>
              if age < FIRST_SPAWN then AllEmpty(UpdateTimes(s).grid) else Unshot(UpdateTimes(s).grid, age + 1)
  {
    var t := TickPrefix(s.grid, CELLS);
    if age >= FIRST_SPAWN {
      var k :| 0 <= k < CELLS && Live(s.grid[k]) && Remaining(s.grid[k]) == UNSHOT_LENGTH - 1 - age;
      if age + 1 < UNSHOT_LENGTH {
        forall m | 0 <= m < CELLS && !Expired(s.grid[m])
          ensures Live(t[m]) <==> Live(s.grid[m])
          ensures Live(s.grid[m]) ==> Remaining(t[m]) == Remaining(s.grid[m]) - 1
        {
          TickLive(s.grid[m]);
        }
        assert Live(t[k]);
      } else {
        RemainingZero(s.grid[k]);
      }
    }
  }

  lemma UnshotStep(s: State, draws: Draws, age: nat)
    requires Inv(s) && s.mode == Playing && Unshot(s.grid, age) && s.spawner == SpawnerAfter(age)
    ensures Step(s, draws).mode == GameOver <==> age + 1 == UNSHOT_LENGTH
    ensures age + 1 < UNSHOT_LENGTH ==> Unshot(Step(s, draws).grid, age + 1)
  {
    UnshotTick(s, age);
    if age < FIRST_SPAWN {
      FirstSpawnDue(age);
      UnshotFirst(UpdateTimes(s), draws, age);
    } else if age + 1 < UNSHOT_LENGTH {
      UnshotLater(UpdateTimes(s).grid, draws, age + 1);
    }
  }

  lemma UnshotFirst(u: State, draws: Draws, age: nat)
    requires |u.grid| == CELLS && AllEmpty(u.grid) && age < FIRST_SPAWN
    requires Due(u.spawner) <==> age + 1 == FIRST_SPAWN
    ensures Unshot(Spawn(u, draws).grid, age + 1)
  {
    var g := Spawn(u, draws).grid;
    if age + 1 == FIRST_SPAWN {
      assert g == u.grid[DrawnCell(draws) := NEWBORN];
      assert g[DrawnCell(draws)] == NEWBORN;
    }
  }

  lemma UnshotLater(g: seq<Alien>, draws: seq<nat>, age: nat)
    requires |g| == CELLS && FIRST_SPAWN <= age && Unshot(g, age)
    ensures Unshot(Place(g, draws), age)
  {
    var k :| 0 <= k < CELLS && Live(g[k]) && Remaining(g[k]) == UNSHOT_LENGTH - 1 - age;
    assert Place(g, draws)[k] == g[k];
  }

  /** No alien has been hit in the current game before event `i`. */
  ghost predicate NoHits(s0: State, es: seq<Event>, i: nat)
    requires i <= |es|
  {
    i == 0 || Restarts(At(s0, es, i - 1), es[i - 1])
    || (NoHits(s0, es, i - 1) && !Hits(At(s0, es, i - 1), es[i - 1]))
  }

  /** Inside one game, what holds up to event `i` held up to every earlier event. */
  lemma {:induction false} NoHitsBefore(s0: State, es: seq<Event>, j: nat, i: nat)
    requires j <= i <= |es| && NoHits(s0, es, i)
    requires forall m :: j <= m <= i ==> InGame(At(s0, es, m).mode)
    ensures NoHits(s0, es, j)
    decreases i
  {
    if j < i {
      assert InGame(At(s0, es, i - 1).mode);
      NoHitsBefore(s0, es, j, i - 1);
    }
  }

  lemma {:induction false} UnshotAt(s0: State, es: seq<Event>, i: nat)
    requires i <= |es| && NoHits(s0, es, i) && InGame(At(s0, es, i).mode)
    ensures Unshot(At(s0, es, i).grid, Age(s0, es, i))
  {
    StartsInMenu(s0, es);
    BeforeGame(s0, es, i - 1);
    if InGame(At(s0, es, i - 1).mode) {
      UnshotAt(s0, es, i - 1);
    }
    UnshotOn(s0, es, i - 1);
  }

  /** Inside a game there has been no restart since the event before. */
  lemma BeforeGame(s0: State, es: seq<Event>, i: nat)
    requires 0 <= i < |es| && NoHits(s0, es, i + 1) && InGame(At(s0, es, i + 1).mode)
    ensures NoHits(s0, es, i) && !Hits(At(s0, es, i), es[i]) && !Restarts(At(s0, es, i), es[i])
  {
    AtNext(s0, es, i);
    InGameBefore(At(s0, es, i), es[i]);
  }

  lemma UnshotOn(s0: State, es: seq<Event>, i: nat)
    requires 0 <= i < |es| && InGame(At(s0, es, i + 1).mode)
    requires !Hits(At(s0, es, i), es[i]) && !Restarts(At(s0, es, i), es[i])
    requires InGame(At(s0, es, i).mode) ==> Unshot(At(s0, es, i).grid, Age(s0, es, i))
    ensures Unshot(At(s0, es, i + 1).grid, Age(s0, es, i + 1))
  {
    SpawnerAt(s0, es, i);
    MenuAt(s0, es, i);
    RunInv(s0, es, i);
    AtNext(s0, es, i);
    UnshotNext(At(s0, es, i), es[i], Age(s0, es, i));
  }

  /** A game goes on from a game or starts from the menu, not by a restart, and a click that
      hits nothing changes nothing. */
  lemma InGameBefore(s: State, e: Event)
    requires GridOk(s.grid) && InGame(Next(s, e).mode)
    ensures (InGame(s.mode) || s.mode == Menu) && !Restarts(s, e)
    ensures e.Click? && !Hits(s, e) ==> Next(s, e) == s
    ensures s.mode == Menu ==> Next(s, e).grid == s.grid && !Hits(s, e)
  {
  }

  lemma UnshotNext(s: State, e: Event, age: nat)
    requires Inv(s) && !Hits(s, e) && InGame(Next(s, e).mode)
    requires s.spawner == SpawnerAfter(age) && (s.mode == Menu ==> age == 0)
    requires InGame(s.mode) ==> Unshot(s.grid, age)
    ensures Unshot(Next(s, e).grid, if Plays(s, e) then age + 1 else age)
  {
    InGameBefore(s, e);
    if Plays(s, e) {
      UnshotStep(s, e.draws, age);
    }
  }

  /** Whatever `rand()` yields, however often the game is paused or clicks go astray, and
      whatever happened in earlier games: a game in which no alien has been hit ends on its
      378th step, by the alien that was the first to be placed, on step 71, on a still
      empty grid. */
  lemma UnshotGame(s0: State, es: seq<Event>, i: nat) returns (j: nat, k: nat)
    requires i < |es| && NoHits(s0, es, i) && Plays(At(s0, es, i), es[i])
    ensures At(s0, es, i + 1).mode == GameOver <==> Age(s0, es, i + 1) == UNSHOT_LENGTH
    ensures At(s0, es, i + 1).mode == GameOver ==>
              j < i && k < CELLS && EndsBy(s0, es, i, k) && Born(s0, es, j, k)
              && Age(s0, es, j + 1) == FIRST_SPAWN && AllEmpty(At(s0, es, j).grid)
  {
    j, k := 0, 0;
    UnshotAt(s0, es, i);
    RunInv(s0, es, i);
    SpawnerAt(s0, es, i);
    AtNext(s0, es, i);
    UnshotStep(At(s0, es, i), es[i].draws, Age(s0, es, i));
    if At(s0, es, i + 1).mode == GameOver {
      j, k := UnshotKiller(s0, es, i);
    }
  }

  lemma UnshotKiller(s0: State, es: seq<Event>, i: nat) returns (j: nat, k: nat)
    requires i < |es| && NoHits(s0, es, i) && Plays(At(s0, es, i), es[i])
    requires At(s0, es, i + 1).mode == GameOver && Age(s0, es, i + 1) == UNSHOT_LENGTH
    ensures j < i && k < CELLS && EndsBy(s0, es, i, k) && Born(s0, es, j, k)
    ensures Age(s0, es, j + 1) == FIRST_SPAWN && AllEmpty(At(s0, es, j).grid)
  {
    k := KillerCell(s0, es, i);
    j := KillerBirth(s0, es, i, k);
    NoHitsBefore(s0, es, j, i);
    UnshotAt(s0, es, j);
  }

  lemma KillerBirth(s0: State, es: seq<Event>, i: nat, k: nat) returns (j: nat)
    requires i < |es| && k < CELLS && EndsBy(s0, es, i, k)
    ensures j < i && Born(s0, es, j, k) && Age(s0, es, i + 1) - Age(s0, es, j + 1) == LIFETIME
    ensures Age(s0, es, j + 1) == Age(s0, es, j) + 1
    ensures forall m :: j <= m <= i ==> InGame(At(s0, es, m).mode)
  {
    DeadlineTheorem(s0, es, i, k);
    j :| 0 <= j < i && Born(s0, es, j, k) && Survives(s0, es, j, i, k)
         && Age(s0, es, i + 1) - Age(s0, es, j + 1) == LIFETIME;
    BirthInGame(s0, es, j, i, k);
  }

  lemma BirthInGame(s0: State, es: seq<Event>, j: nat, i: nat, k: nat)
    requires j < i < |es| && k < CELLS && Born(s0, es, j, k) && Survives(s0, es, j, i, k)
    ensures Age(s0, es, j + 1) == Age(s0, es, j) + 1
    ensures forall m :: j <= m <= i ==> InGame(At(s0, es, m).mode)
  {
    BornAt(s0, es, j, k);
    AgeNext(s0, es, j);
  }

  lemma AgeNext(s0: State, es: seq<Event>, i: nat)
    requires i < |es| && Plays(At(s0, es, i), es[i])
    ensures Age(s0, es, i + 1) == Age(s0, es, i) + 1
  {
  }

  lemma KillerCell(s0: State, es: seq<Event>, i: nat) returns (k: nat)
    requires i < |es| && At(s0, es, i).mode != GameOver && At(s0, es, i + 1).mode == GameOver
    ensures k < CELLS && EndsBy(s0, es, i, k)
  {
    AtNext(s0, es, i);
    k := FirstExpired(At(s0, es, i).grid, 0);
  }
}

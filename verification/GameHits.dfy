/** What becomes of an alien that is hit: for how long it fades, and which step removes it. */
module GameHits {
  import opened GameModel
  import opened GameInvariant
  import opened GameRuns
  import opened GameBalance

  const FADE: nat := 15

  predicate Dying(a: Alien) {
    DEAD_1 <= a.state < EMPTY
  }

  /** The picture and time of an alien `d` steps after it was hit: three steps for each of five pictures. */
  function Corpse(d: nat): Alien
    requires d < FADE
  {
    Alien(2 + d / 3, 2 - d % 3)
  }

  /** Event `j` hits the alien on cell `k`. */
  ghost predicate HitAt(s0: State, es: seq<Event>, j: nat, k: nat)
    requires j < |es| && k < CELLS
  {
    Hits(At(s0, es, j), es[j]) && es[j].y * WIDTH + es[j].x == k
  }

  /** From event `j` on and up to event `i` the game goes on. */
  ghost predicate GoesOn(s0: State, es: seq<Event>, j: nat, i: nat)
    requires j <= i <= |es|
  {
    forall m :: j < m <= i ==> InGame(At(s0, es, m).mode)
  }

  /** Event `j` hit the alien on cell `k` in this game, `d` steps before event `i`. */
  ghost predicate HitBefore(s0: State, es: seq<Event>, j: nat, i: nat, k: nat, d: int)
    requires j < i <= |es| && k < CELLS
  {
    HitAt(s0, es, j, k) && GoesOn(s0, es, j, i) && Age(s0, es, i) - Age(s0, es, j + 1) == d
  }

  // ----- one event

  lemma CorpseTicks(d: nat)
    requires d < FADE
    ensures if d + 1 < FADE then Tick(Corpse(d)) == Corpse(d + 1) else Tick(Corpse(d)).state == EMPTY
    ensures Dying(Corpse(d)) && (Tick(Corpse(d)).state == EMPTY <==> d + 1 == FADE)
  {
  }

  lemma HitNext(s: State, e: Event)
    requires GridOk(s.grid) && Hits(s, e)
    ensures Next(s, e).grid[e.y * WIDTH + e.x] == Corpse(0) && Next(s, e).mode == Playing
  {
  }

  /** What one event does to a dying cell: a step ticks it, and may refill it once it is empty. */
  lemma DyingNext(s: State, e: Event, k: nat)
    requires GridOk(s.grid) && k < CELLS && Dying(s.grid[k]) && InGame(s.mode) && InGame(Next(s, e).mode)
    ensures !Plays(s, e) ==> Next(s, e).grid[k] == s.grid[k]
    ensures Plays(s, e) && Tick(s.grid[k]).state != EMPTY ==> Next(s, e).grid[k] == Tick(s.grid[k])
    ensures Plays(s, e) && Tick(s.grid[k]).state == EMPTY ==> !Dying(Next(s, e).grid[k])
  {
  }

  /** A cell comes to be dying only by a hit. */
  lemma DyingBefore(s: State, e: Event, k: nat)
    requires Inv(s) && k < CELLS && InGame(Next(s, e).mode) && Dying(Next(s, e).grid[k])
    ensures InGame(s.mode)
    ensures Dying(s.grid[k]) || (Hits(s, e) && e.y * WIDTH + e.x == k)
  {
    if Plays(s, e) { TickLive(s.grid[k]); }
  }

  lemma AgeOn(s0: State, es: seq<Event>, i: nat)
    requires i < |es| && InGame(At(s0, es, i).mode)
    ensures Age(s0, es, i + 1) == Age(s0, es, i) + if Plays(At(s0, es, i), es[i]) then 1 else 0
  {
  }

  lemma HitStart(s0: State, es: seq<Event>, j: nat, k: nat)
    requires j < |es| && k < CELLS && HitAt(s0, es, j, k)
    ensures HitBefore(s0, es, j, j + 1, k, 0) && At(s0, es, j + 1).grid[k] == Corpse(0)
  {
    AtNext(s0, es, j);
    HitNext(At(s0, es, j), es[j]);
  }

  lemma CorpseOn(s0: State, es: seq<Event>, i: nat, k: nat, d: nat)
    requires i < |es| && k < CELLS && InGame(At(s0, es, i).mode) && InGame(At(s0, es, i + 1).mode)
    requires d < FADE && At(s0, es, i).grid[k] == Corpse(d)
    ensures !Plays(At(s0, es, i), es[i]) ==> At(s0, es, i + 1).grid[k] == Corpse(d)
    ensures Plays(At(s0, es, i), es[i]) && d + 1 < FADE ==> At(s0, es, i + 1).grid[k] == Corpse(d + 1)
    ensures Plays(At(s0, es, i), es[i]) && d + 1 == FADE ==> !Dying(At(s0, es, i + 1).grid[k])
  {
    AtNext(s0, es, i);
    CorpseTicks(d);
    DyingNext(At(s0, es, i), es[i], k);
  }

  /** One more event after a hit. */
  lemma HitOn(s0: State, es: seq<Event>, j: nat, i: nat, k: nat, d: int)
    requires j < i < |es| && k < CELLS && HitBefore(s0, es, j, i, k, d)
    requires InGame(At(s0, es, i).mode) && InGame(At(s0, es, i + 1).mode)
    ensures HitBefore(s0, es, j, i + 1, k, if Plays(At(s0, es, i), es[i]) then d + 1 else d)
  {
    AgeOn(s0, es, i);
    GoesOnMore(s0, es, j, i);
  }

  lemma GoesOnMore(s0: State, es: seq<Event>, j: nat, i: nat)
    requires j < i < |es| && GoesOn(s0, es, j, i) && InGame(At(s0, es, i + 1).mode)
    ensures GoesOn(s0, es, j, i + 1)
  {
  }

  // ----- whole runs

  /** Cell `k` is `d` steps into its fading. */
  ghost predicate IsCorpse(s0: State, es: seq<Event>, i: nat, k: nat, d: int)
    requires i <= |es| && k < CELLS
  {
    0 <= d < FADE && At(s0, es, i).grid[k] == Corpse(d)
  }

  /** Until it has faded, an alien that was hit is exactly as far as the steps since the hit. */
  lemma {:induction false} FadingAfter(s0: State, es: seq<Event>, j: nat, i: nat, k: nat)
    requires j < i <= |es| && k < CELLS && HitAt(s0, es, j, k) && GoesOn(s0, es, j, i)
    ensures FadesSince(s0, es, i, k, Age(s0, es, j + 1))
    decreases i
  {
    if i == j + 1 {
      FadingStart(s0, es, j, k);
    } else {
      GoesOnEarlier(s0, es, j, i - 1);
      FadingAfter(s0, es, j, i - 1, k);
      FadesOn(s0, es, i - 1, k, Age(s0, es, j + 1));
    }
  }

  lemma FadingStart(s0: State, es: seq<Event>, j: nat, k: nat)
    requires j < |es| && k < CELLS && HitAt(s0, es, j, k)
    ensures FadesSince(s0, es, j + 1, k, Age(s0, es, j + 1))
  {
    HitStart(s0, es, j, k);
  }

  /** Cell `k` fades since the game was `age` steps old. */
  ghost predicate FadesSince(s0: State, es: seq<Event>, i: nat, k: nat, age: nat)
    requires i <= |es| && k < CELLS
  {
    FadesUntil(s0, es, i, k, Age(s0, es, i) - age)
  }

  lemma FadesOn(s0: State, es: seq<Event>, i: nat, k: nat, age: nat)
    requires i < |es| && k < CELLS && InGame(At(s0, es, i).mode) && InGame(At(s0, es, i + 1).mode)
    requires FadesSince(s0, es, i, k, age)
    ensures FadesSince(s0, es, i + 1, k, age)
  {
    AgeOn(s0, es, i);
    CorpseNext(s0, es, i, k, Age(s0, es, i) - age);
  }

  ghost predicate FadesUntil(s0: State, es: seq<Event>, i: nat, k: nat, d: int)
    requires i <= |es| && k < CELLS
  {
    0 <= d && (d < FADE ==> IsCorpse(s0, es, i, k, d))
  }

  lemma GoesOnEarlier(s0: State, es: seq<Event>, j: nat, i: nat)
    requires j < i < |es| && GoesOn(s0, es, j, i + 1)
    ensures InGame(At(s0, es, i).mode) && InGame(At(s0, es, i + 1).mode) && GoesOn(s0, es, j, i)
  {
  }

  lemma CorpseNext(s0: State, es: seq<Event>, i: nat, k: nat, d: int)
    requires i < |es| && k < CELLS && InGame(At(s0, es, i).mode) && InGame(At(s0, es, i + 1).mode)
    requires FadesUntil(s0, es, i, k, d)
    ensures FadesUntil(s0, es, i + 1, k, if Plays(At(s0, es, i), es[i]) then d + 1 else d)
  {
    if d < FADE { CorpseOn(s0, es, i, k, d); }
  }

  /** The step before a dying cell, when it was not hit just now. */
  lemma CorpseStays(s0: State, es: seq<Event>, j: nat, i: nat, k: nat, was: nat) returns (d: nat)
    requires j < i < |es| && k < CELLS && was < FADE && HitBefore(s0, es, j, i, k, was)
    requires InGame(At(s0, es, i).mode) && InGame(At(s0, es, i + 1).mode)
    requires At(s0, es, i).grid[k] == Corpse(was) && Dying(At(s0, es, i + 1).grid[k])
    ensures d < FADE && HitBefore(s0, es, j, i + 1, k, d) && At(s0, es, i + 1).grid[k] == Corpse(d)
  {
    CorpseOn(s0, es, i, k, was);
    HitOn(s0, es, j, i, k, was);
    d := if Plays(At(s0, es, i), es[i]) then was + 1 else was;
  }

  lemma DyingSince(s0: State, es: seq<Event>, i: nat, k: nat)
    requires i < |es| && k < CELLS && InGame(At(s0, es, i + 1).mode) && Dying(At(s0, es, i + 1).grid[k])
    ensures InGame(At(s0, es, i).mode) && (Dying(At(s0, es, i).grid[k]) || HitAt(s0, es, i, k))
  {
    RunInv(s0, es, i);
    AtNext(s0, es, i);
    DyingBefore(At(s0, es, i), es[i], k);
  }

  /** Every dying alien was hit in this game, and not long ago. */
  lemma {:induction false} HitOf(s0: State, es: seq<Event>, i: nat, k: nat) returns (j: nat, d: nat)
    requires i <= |es| && k < CELLS && InGame(At(s0, es, i).mode) && Dying(At(s0, es, i).grid[k])
    ensures j < i && d < FADE && HitBefore(s0, es, j, i, k, d) && At(s0, es, i).grid[k] == Corpse(d)
  {
    StartsInMenu(s0, es);
    DyingSince(s0, es, i - 1, k);
    if HitAt(s0, es, i - 1, k) {
      j, d := i - 1, 0;
      HitStart(s0, es, j, k);
    } else {
      j, d := HitOf(s0, es, i - 1, k);
      d := CorpseStays(s0, es, j, i - 1, k, d);
    }
  }

  /** An alien on cell `k` was hit in this game, and event `i` is the 15th step since. */
  ghost predicate FadedAt(s0: State, es: seq<Event>, i: nat, k: nat)
    requires i < |es| && k < CELLS
  {
    exists j :: 0 <= j < i && HitAt(s0, es, j, k) && GoesOn(s0, es, j, i)
                && Age(s0, es, i + 1) - Age(s0, es, j + 1) == 15
  }

  lemma FadedExactly(s0: State, es: seq<Event>, i: nat, k: nat)
    requires i < |es| && k < CELLS && Plays(At(s0, es, i), es[i])
    ensures FadedAt(s0, es, i, k) <==> At(s0, es, i).grid[k] == Corpse(FADE - 1)
  {
    AgeOn(s0, es, i);
    if At(s0, es, i).grid[k] == Corpse(FADE - 1) {
      var j, d := HitOf(s0, es, i, k);
    }
    if FadedAt(s0, es, i, k) {
      var j :| 0 <= j < i && HitAt(s0, es, j, k) && GoesOn(s0, es, j, i)
               && Age(s0, es, i + 1) - Age(s0, es, j + 1) == 15;
      FadingAfter(s0, es, j, i, k);
    }
  }

  /** A tick empties exactly the cells at the very end of their time. */
  lemma TickEmpties(a: Alien)
    requires a.state < EMPTY
    ensures Tick(a).state == EMPTY <==> a == Corpse(FADE - 1)
  {
  }

  lemma StepEmpties(s: State, k: nat)
    requires GridOk(s.grid) && s.mode == Playing && k < CELLS
    ensures var u := UpdateTimes(s); var last := Corpse(FADE - 1);
            s.grid[k].state != EMPTY && u.grid[k].state == EMPTY <==>
            s.grid[k] == last && (u.mode == GameOver ==> k < u.killer.y * 11 + u.killer.x)
  {
    var e := FirstExpired(s.grid, 0);
    if e < CELLS { KillerIndex(e); }
    if s.grid[k].state < EMPTY { TickEmpties(s.grid[k]); }
  }

  lemma KillerIndex(k: nat)
    requires k < CELLS
    ensures (k / WIDTH) * 11 + k % WIDTH == k && k % WIDTH < 11
  {
  }

  /** A game step empties a cell exactly when it is the 15th step since the alien there was hit;
      a step that ends the game does so only for the cells before the killer. */
  lemma HitTheorem(s0: State, es: seq<Event>, i: nat, k: nat)
    requires i < |es| && k < CELLS && Plays(At(s0, es, i), es[i])
    ensures var t := At(s0, es, i + 1);
            k in Emptied(At(s0, es, i), es[i]) <==>
            && (t.mode == GameOver ==> k < t.killer.y * 11 + t.killer.x)
            && FadedAt(s0, es, i, k)
  {
    AtNext(s0, es, i);
    StepEmpties(At(s0, es, i), k);
    FadedExactly(s0, es, i, k);
  }

  /** The step that ends the game: the killer stays as it is, every other alien that the scan has
      not just removed begins to fade, and empty cells stay empty until the spawner. */
  lemma EndingCells(s0: State, es: seq<Event>, i: nat, k: nat, m: nat)
    requires i < |es| && k < CELLS && m < CELLS && EndsBy(s0, es, i, k)
    ensures var s, u := At(s0, es, i), Updated(At(s0, es, i), es[i]);
            && u.killer == Killer(0, k % 11, k / 11)
            && u.grid[m] ==
               if m == k || s.grid[m].state == EMPTY then s.grid[m]
               else if m in Emptied(s, es[i]) then Alien(7, 0)
               else Alien(2, 2)
  {
    var s := At(s0, es, i);
    RunInv(s0, es, i);
    AtNext(s0, es, i);
    EndNext(s, es[i], k);
    OneExpired(s.grid, k);
    StepEmpties(s, m);
    KillerIndex(k);
    KillerIndex(m);
  }
}

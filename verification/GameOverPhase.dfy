/** The phase between the end of a game and the leaderboard. */
module GameOverPhase {
  import opened GameModel
  import opened GameInvariant
  import opened GameRuns

  /** How many timer frames a sequence of events holds. */
  function FrameCount(es: seq<Event>): nat {
    if es == [] then 0
    else FrameCount(es[..|es| - 1]) + if es[|es| - 1].Frame? then 1 else 0
  }

  ghost predicate NoEsc(es: seq<Event>) {
    forall i :: 0 <= i < |es| ==> es[i] != EscKey
  }

  /** A state `n` frames into the phase that began in `s`: only the countdown, the killer's
      picture and the fading of the other aliens have moved. */
  ghost predicate Fades(s: State, t: State, n: nat) {
    && t.mode == GameOver && t.overCounter == 120 - n
    && t.killer == s.killer.(state := if n == 0 then s.killer.state else (120 - n) / 5 % 4)
    && t.points == s.points && t.spawner == s.spawner
    && |t.grid| == |s.grid| == CELLS
    && forall k :: 0 <= k < CELLS ==>
         if IsKiller(s.killer, k) then t.grid[k] == s.grid[k]
         else Fading(t.grid[k]) == if Fading(s.grid[k]) <= n then 0 else Fading(s.grid[k]) - n
  }

  lemma FadesFrame(s: State, t: State, n: nat, draws: Draws, better: bool)
    requires Inv(s) && Inv(t) && n < 120 && Fades(s, t, n)
    ensures n + 1 < 120 ==> Fades(s, OnFrame(t, draws, better), n + 1)
    ensures n + 1 == 120 ==> OnFrame(t, draws, better).mode == if better then LbInput else Leaderboard
  {
    OverFrameInv(t, better);
    var g := OverTickAll(t.grid, t.killer);
    forall k | 0 <= k < CELLS && !IsKiller(s.killer, k)
      ensures Fading(g[k]) == if Fading(t.grid[k]) == 0 then 0 else Fading(t.grid[k]) - 1
    {
      OverTickFades(t.grid[k]);
    }
  }

  /** What the state a game ends in looks like. */
  ghost predicate JustOver(s: State) {
    Inv(s) && s.mode == GameOver && s.overCounter == 120 && s.killer.state == 0
  }

  /** Every run that ends a game ends it in such a state. */
  lemma GameEnds(s0: State, es: seq<Event>, i: nat)
    requires i < |es| && At(s0, es, i).mode != GameOver && At(s0, es, i + 1).mode == GameOver
    ensures JustOver(At(s0, es, i + 1))
  {
    RunInv(s0, es, i + 1);
    AtNext(s0, es, i);
  }

  /** For fewer than 120 frames, and whatever else happens except ESC, the phase goes on. */
  lemma {:induction false} OverPhase(s: State, es: seq<Event>)
    requires JustOver(s) && NoEsc(es) && FrameCount(es) < 120
    ensures Inv(Run(s, es)) && Fades(s, Run(s, es), FrameCount(es))
  {
    if es == [] {
    } else {
      var front, e := es[..|es| - 1], es[|es| - 1];
      OverPhase(s, front);
      var t := Run(s, front);
      NextInv(t, e);
      if e.Frame? {
        FadesFrame(s, t, FrameCount(front), e.draws, e.better);
      } else {
        assert Next(t, e) == t;
      }
    }
  }

  /** Frame 120 leads to the leaderboard. */
  lemma OverPhaseEnds(s: State, es: seq<Event>)
    requires JustOver(s) && NoEsc(es) && es != [] && es[|es| - 1].Frame? && FrameCount(es) == 120
    ensures Run(s, es).mode == if es[|es| - 1].better then LbInput else Leaderboard
  {
    var front, e := es[..|es| - 1], es[|es| - 1];
    OverPhase(s, front);
    FadesFrame(s, Run(s, front), FrameCount(front), e.draws, e.better);
  }

  /** From the 24th frame on the killer is alone, even if an alien was placed in the very
      step that ended the game. */
  lemma OthersGone(s: State, es: seq<Event>, k: nat)
    requires JustOver(s) && NoEsc(es) && NEWBORN_FADING <= FrameCount(es) < 120 && k < CELLS
    ensures if IsKiller(s.killer, k) then Run(s, es).grid[k] == s.grid[k] && Expired(s.grid[k])
            else Run(s, es).grid[k].state == EMPTY
  {
    OverPhase(s, es);
  }

  /** Every cell but the killer's is EMPTY, and that one is as it was. */
  ghost predicate KillerAlone(s: State, t: State) {
    && |t.grid| == |s.grid| == CELLS
    && forall k :: 0 <= k < CELLS ==>
         if IsKiller(s.killer, k) then t.grid[k] == s.grid[k] && Expired(s.grid[k]) else t.grid[k].state == EMPTY
  }

  lemma KillerLeft(s: State, es: seq<Event>)
    requires JustOver(s) && NoEsc(es) && NEWBORN_FADING <= FrameCount(es) < 120
    ensures KillerAlone(s, Run(s, es))
  {
    OverPhase(s, es);
    forall k | 0 <= k < CELLS
      ensures if IsKiller(s.killer, k) then Run(s, es).grid[k] == s.grid[k] && Expired(s.grid[k])
              else Run(s, es).grid[k].state == EMPTY
    {
      OthersGone(s, es, k);
    }
  }

  /** The state before event `m`, seen from the state before event `i`. */
  lemma AtFrom(s0: State, es: seq<Event>, i: nat, m: nat)
    requires i <= m <= |es|
    ensures At(s0, es, m) == Run(At(s0, es, i), es[i..m])
  {
    assert es[..m] == es[..i] + es[i..m];
    RunSplit(Initialize(s0), es[..i], es[i..m], es[..m]);
  }

  lemma RunSplit(s: State, a: seq<Event>, b: seq<Event>, c: seq<Event>)
    requires GridOk(s.grid) && c == a + b
    ensures Run(s, c) == Run(Run(s, a), b)
  {
    RunAppend(s, a, b);
  }

  /** What the events since the end of the game in `s` have led to in `t`. */
  ghost predicate OverAfter(s: State, t: State, es: seq<Event>) {
    var n := FrameCount(es);
    && (n < 120 ==> Fades(s, t, n))
    && (NEWBORN_FADING <= n < 120 ==> KillerAlone(s, t))
    && (n == 120 && es[|es| - 1].Frame? ==>
          t.mode == if es[|es| - 1].better then LbInput else Leaderboard)
  }

  /** The whole phase, in any run: event `i` ends a game, and there has been no ESC before event
      `m`. The phase lasts for exactly 120 frames; meanwhile the killer stays where and as it
      was, and from the 24th frame on it is alone. */
  lemma OverTheorem(s0: State, es: seq<Event>, i: nat, m: nat)
    requires i < m <= |es| && At(s0, es, i).mode != GameOver && At(s0, es, i + 1).mode == GameOver
    requires NoEsc(es[i + 1..m])
    ensures OverAfter(At(s0, es, i + 1), At(s0, es, m), es[i + 1..m])
  {
    GameEnds(s0, es, i);
    AtFrom(s0, es, i + 1, m);
    OverFrames(At(s0, es, i + 1), es[i + 1..m]);
  }

  /** The same from the state the game ended in. */
  lemma OverFrames(s: State, es: seq<Event>)
    requires JustOver(s) && NoEsc(es)
    ensures OverAfter(s, Run(s, es), es)
  {
    if FrameCount(es) < 120 {
      OverPhase(s, es);
      if FrameCount(es) >= NEWBORN_FADING { KillerLeft(s, es); }
    } else if FrameCount(es) == 120 && es[|es| - 1].Frame? {
      OverPhaseEnds(s, es);
    }
  }
}

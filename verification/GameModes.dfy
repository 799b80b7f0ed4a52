/** Which event leads to which mode, and what a pause is. */
module GameModes {
  import opened GameModel
  import opened GameInvariant
  import opened GameRuns

  /** The last frame of the game-over phase. */
  predicate LastFrame(s: State, e: Event) {
    s.mode == GameOver && s.overCounter == 1 && e.Frame?
  }

  /** For every mode, when an event leads to it. */
  lemma ModeExactly(s: State, e: Event)
    requires Inv(s)
    ensures Next(s, e).mode == Exit <==> s.mode == Exit || e == EscKey || (s.mode == Menu && e == ExitButton)
    ensures Next(s, e).mode == Menu <==>
            || (s.mode == Menu && e != EscKey && e != PlayButton && e != ExitButton)
            || (s.mode == Leaderboard && e.EnterKey?)
    ensures Next(s, e).mode == Playing <==>
            || (s.mode == Menu && e == PlayButton)
            || (s.mode == Pause && e == PauseKey)
            || (s.mode == Playing && e != EscKey && e != PauseKey
                && !(e.Frame? && exists k :: 0 <= k < CELLS && Expired(s.grid[k])))
    ensures Next(s, e).mode == Pause <==>
            || (s.mode == Playing && e == PauseKey)
            || (s.mode == Pause && e != PauseKey && e != EscKey)
    ensures Next(s, e).mode == LbInput <==>
            || (LastFrame(s, e) && e.better)
            || (s.mode == LbInput && e != EscKey && e != EnterKey(true))
    ensures Next(s, e).mode == Leaderboard <==>
            || (LastFrame(s, e) && !e.better)
            || (s.mode == LbInput && e == EnterKey(true))
            || (s.mode == Leaderboard && e != EscKey && !e.EnterKey?)
  {
    if e.Frame? {
      if s.mode == Playing { StepMode(s, e.draws); }
      if s.mode == GameOver { OverFrameInv(s, e.better); }
    }
  }

  lemma StepMode(s: State, draws: Draws)
    requires GridOk(s.grid) && s.mode == Playing
    ensures Step(s, draws).mode ==
            if exists k :: 0 <= k < CELLS && Expired(s.grid[k]) then GameOver else Playing
  {
  }

  /** Apart from frames, hits and a restart, an event changes at most the mode; frames change
      nothing at all unless the game is on or just over; a restart is `game_initialize`. */
  lemma OnlyMode(s: State, e: Event)
    requires GridOk(s.grid)
    ensures !e.Frame? && !Hits(s, e) && !Restarts(s, e) ==> Next(s, e) == s.(mode := Next(s, e).mode)
    ensures e.Frame? && s.mode != Playing && s.mode != GameOver ==> Next(s, e) == s
    ensures Restarts(s, e) ==> Next(s, e) == Initialize(s)
  {
  }

  /** Nothing happens while the game is paused. */
  lemma {:induction false} StaysPaused(s: State, es: seq<Event>)
    requires GridOk(s.grid) && s.mode == Pause
    requires forall i :: 0 <= i < |es| ==> es[i] != EscKey && es[i] != PauseKey
    ensures Run(s, es) == s
  {
    if es != [] { StaysPaused(s, es[..|es| - 1]); }
  }

  /** A pause is without a trace: whatever is clicked, typed or timed while it lasts, pressing the
      key again gives back the state in which it was pressed first. */
  lemma PauseTransparent(s: State, es: seq<Event>)
    requires GridOk(s.grid) && s.mode == Playing
    requires forall i :: 0 <= i < |es| ==> es[i] != EscKey && es[i] != PauseKey
    ensures Run(s, [PauseKey] + es + [PauseKey]) == s
  {
    var paused := s.(mode := Pause);
    RunLast(s, [PauseKey], [], PauseKey);
    RunAppend(s, [PauseKey], es);
    StaysPaused(paused, es);
    RunLast(s, [PauseKey] + es + [PauseKey], [PauseKey] + es, PauseKey);
  }
}

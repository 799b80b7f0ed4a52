# LCOM labs and alien game: a Dafny model

This project models the drivers of labs 2 to 5 and the alien game of the LCOM project, and
proves what they do over whole runs, for every input.

- **The alien game** (`GameModel`, `Game`, `GameInvariant`, `GameRuns`, `GameTheorems`,
  `GameOverPhase`, `GameBalance`, `GameHits`, `GameModes`, `Crosshair`). `GameModel` gives, for
  every handler, the state it leaves;
  `Game.AlienGame` is the same code on mutable variables and a 7 x 11 matrix, proved equal to it.
  Runs are arbitrary sequences of timer frames (with arbitrary `rand()` values), clicks and
  keys, over any number of games. `Crosshair` is the mouse that makes the clicks.
- **The frame buffer** (`Bits`, `Pixels`, `Pictures`, `Colors`, `Screen`). The drawing loops write
  bytes of an array in place and are proved against pictures stated pixel by pixel.
- **The moving sprite** (`Motion`, `Animation`). The position logic on `uint16_t` coordinates, with
  exact conditions for arriving and for staying on the screen, and the double-buffered event loop.
- **Keyboard and mouse** (`Kbc`, `Watchdog`, `Keyboard`, `Mouse`). The handlers as incremental
  decoders of arbitrary port reads, the event loops that drive them, and their idle timers.
- **The i8254** (`Timer`). The driver's port writes against a model of the chip that follows the
  Intel 8254 data sheet (control word, read-back command, two-byte counts).

Every imperative method is proved against a function of the old state; the theorems are about
those functions, so they hold of the methods. Fixed-width arithmetic is written out where it can
matter (`uint32_t` counters and colours, `uint16_t` coordinates, `int16_t` displacements, the casts
to `int` and `int16_t`).

## What the proofs found

- A game in which no alien is hit always ends on its 378th step, by the first alien placed,
  however many clicks miss (`UnshotGame`).
- A click above the grid is not ignored: the division towards zero takes it for the first row
  (`AimExactly`).
- The spawner is faster than `ALIEN_MAX_SPAWN_RATE` between its attempts 11 and 15, and only there
  (`MaxRateExceeded`): the waiting time falls to 0 before it is set to 20.
- `vg_draw_hline` lets `y == v_res` through its check and then writes behind the frame buffer,
  exactly when the line is not empty (`HLineFitsExactly`). `vg_draw_rectangle` never does this.
- `calculateColorPatternDirect` does not shift blue back to its field: the blue of the pattern is
  right for all inputs exactly when the mode keeps blue at position 0 (`BlueKeptExactly`).
- `vg_draw_sprite` shears an image cut off at the right edge, because its source pointer does not
  advance over hidden columns (`FaithfulExactly`).
- With negative speed a pixel takes |speed| + 1 frames; the documentation of `video_test_move`
  (.minix-src/include/lcom/lab5.h:114) promises |speed|. The model follows the code. At the edge
  such a sprite is thrown back by |speed| pixels and then creeps downwards; it stays on the screen
  exactly in the cases `NegativeSafe` lists. With speed 0 it moves down one pixel a frame.
- The frame rate asked for (.minix-src/include/lcom/lab5.h:122) is never reached: a frame takes
  60 / rate + 1 ticks, so that in any number of seconds there are too few (`RateMissed`).
- The step that ends a game removes an alien at the end of its fading only if the scan reaches it
  before the killer; the others start to fade again (`HitTheorem`, `EndingCells`).
- A two-byte scancode is handed on with its prefix behind the code.
- `timer_set_frequency` returns the AND of the codes of its two count writes. A failure is hidden
  exactly when one of them fails and the codes share no bit (`HiddenExactly`); after a single failed
  write the counter holds half a count (`HiddenShown`).
- It writes a binary count whatever the counter's base. The period is right exactly from 19 Hz to
  1193182 Hz on a binary counter, and from 119319 Hz on a BCD one (`DivisorExactly`, `BcdMisread`).
- It keeps mode and base exactly when no other status is left over in the chip (`ModeKeptExactly`);
  what its own failed read leaves there does no harm (`RetryProgramsAlike`).

## Model

| member | source | states |
|---|---|---|
| Game.AlienGame.Reset | proj/src/game.c:141-149 | afterwards every cell is empty with time 0 |
| Game.AlienGame.Initialize | proj/src/game.c:13-30 | the whole new state: menu, no points, empty grid, spawner variables 0, 70 and 5; the killer record and the interrupt counter are kept |
| Game.AlienGame.KillOtherAliens | proj/src/game.c:199-211 | every non-empty cell except the killer's becomes DEAD_1 with time 2, nothing else changes |
| Game.AlienGame.UpdateAlienTimes | proj/src/game.c:153-195 | the new state in all three cases: nobody expired, the first expired alien in scan order ends the game (cells before it already ticked), game already over |
| Game.AlienGame.GenerateNewAlien | proj/src/game.c:215-247 | spawner variables after the call; when due, row draws[1] % 7 and column draws[0] % 11 become a new alien if empty, otherwise row draws[3] % 7 and column draws[2] % 11 if empty, and nothing else in the matrix changes |
| GameInvariant.PlaceExactly | proj/src/game.c:229-244 | the same on the grid of the model: which of the two drawn cells is filled, if any |
| Game.AlienGame.GameStep | proj/src/game.c:135-138 | update and spawn in this order, also when the update ends the game |
| Game.AlienGame.GameIh | proj/src/game.c:95-110 | the state after a timer frame in every mode, with the countdown and the killer's picture |
| Game.AlienGame.GameLeaderboard | proj/src/game.c:113-126 | the mode after the game-over phase, by the outcome of the score comparison |
| Game.AlienGame.CheckKill | proj/src/mouse/mouse.c:84-98 | a click at a grid position with a live alien scores and kills it; any other click changes nothing |
| Crosshair.Mouse.Move | proj/src/mouse/mouse.c:48-57 | the crosshair moves by the 16-bit sums, clamped to the screen on all four sides, and a released button is remembered |
| Crosshair.Mouse.CheckPlayButton | proj/src/mouse/mouse.c:102-105 | the mode becomes PLAYING exactly inside the button, corners included, and nothing else changes |
| Crosshair.Mouse.CheckExitButton | proj/src/mouse/mouse.c:108-111 | the mode becomes EXIT exactly inside the button, corners included, and nothing else changes |
| Crosshair.Mouse.Press | proj/src/mouse/mouse.c:59-72 | a press has the effect of the one game event it stands for, EXIT winning over PLAY where the buttons overlap, and lowers the button |
| Crosshair.Mouse.HandleEvent | proj/src/mouse/mouse.c:45-77 | a mouse event sends the game exactly one event or none: a click at the aimed cell while playing, a menu button in the menu, only on the edge of the button and never with overflow |
| Crosshair.PointerStays | proj/src/mouse/mouse.c:52-55 | after any sequence of mouse events in any modes the crosshair is on the screen |
| Crosshair.AimExactly | proj/src/mouse/mouse.c:80-85 | every click is aimed at a cell of the grid, and at the cell drawn under the crosshair if and only if that is not above the top margin; there it is row 0 |
| Crosshair.HeldButton | proj/src/mouse/mouse.c:57-65 | a held button sends nothing more until it is released, through any number of events and modes |
| Crosshair.MovesNearest | proj/src/mouse/mouse.c:46-55 | the crosshair goes to the point of the screen nearest to moveX to the right and moveY up |
| Crosshair.ShotExactly | proj/src/mouse/mouse.c:59-98 | a press while playing turns the alien under the crosshair into DEAD_1 and scores if it is live, and changes nothing else |
| Crosshair.MenuExactly | proj/src/mouse/mouse.c:67-72 | a press in the menu leads to EXIT on the exit button, else to PLAYING on the play button, corners included, else nowhere |
| Crosshair.OnlyPresses | proj/src/mouse/mouse.c:45-77 | only a press without overflow, of a button that was up, in PLAYING or MENU, changes the game |
| Crosshair.RaisedExactly | proj/src/mouse/mouse.c:57-72 | when the button counts as up after an event |
| Game.AlienGame.Handle | proj/src/keyboard/keyboard.c:136-212 | every event takes the variables to the state of the model |
| Game.AlienGame.Dispatch | proj/src/game.c:62-75 | one event of the loop: timer interrupts are counted in 32 bits and only the even ones are frames, everything else is handled |
| Game.KeptExactly | proj/src/game.c:68-75 | the interrupts that reach the game are (c + interrupts) / 2 - c / 2 for a counter starting at c, and all other events do, in their order |
| Game.AlienGame.GameLoop | proj/src/game.c:51-83 | after any events the variables are the state of the run of those events that reach the game, so all run theorems and the invariant hold of them; no event is taken in mode EXIT, no ESC comes before the last one, and the mode is EXIT exactly after ESC or the exit button in the menu |
| GameModes.ModeExactly | proj/src/keyboard/keyboard.c:136-212 | for every mode, exactly which events in which modes lead to it, the expired alien and the last game-over frame included |
| GameModes.OnlyMode | proj/src/game.c:95-110 | apart from frames, hits and a restart an event changes at most the mode, and frames change nothing outside play and game over |
| GameModes.PauseTransparent | proj/src/keyboard/keyboard.c:143-149 | pressing P, any frames, clicks and other keys, and P again give back the very state |
| GameModel.Place | proj/src/game.c:234-244 | a spawn never touches a cell that is not empty, and fills cells only with new aliens |
| GameModel.FirstExpired | proj/src/game.c:157-183 | the result is the least expired cell in scan order, or the length when there is none |
| GameInvariant.OneExpired | proj/src/game.c:174-183 | when remaining times are distinct, any expired cell is the one the scan finds: the killer does not depend on the scan order |
| GameInvariant.TickLive | proj/src/game.c:185-192 | a tick that does not expire an alien keeps it live and takes exactly one from its remaining time; times stay within the table |
| GameInvariant.OverTickFades | proj/src/game.c:164-172 | after the end every other cell comes one frame closer to empty |
| GameInvariant.PlaceCases | proj/src/game.c:234-244 | a spawn changes at most one cell, an empty one, to a new alien |
| GameInvariant.StepInv | proj/src/game.c:135-138 | a game step keeps the invariant, in particular distinct remaining times, including a step that ends the game and still spawns |
| GameInvariant.OverFrameInv | proj/src/game.c:101-106 | a frame after the end keeps the invariant and the countdown does not wrap |
| GameInvariant.NextInv | proj/src/game.c:54-83 | every event in every mode keeps the invariant |
| GameRuns.RunInv | proj/src/game.c:34-92 | in every state of every run: states within the enum, times within the table, distinct remaining times while playing, countdown between 1 and 120 and killer intact after the end |
| GameRuns.RemainingAfter | proj/src/game.c:185-192 | the remaining time of an unshot alien is 306 less the steps since its birth, whatever else happened |
| GameRuns.BirthOf | proj/src/game.c:234-244 | every live alien was placed in this game and has been live ever since |
| GameRuns.DeadlineTheorem | proj/src/game.c:153-195 | for every run, event and cell: this event ends the game with this cell as killer if and only if the alien there was placed exactly 307 steps ago and never shot |
| GameHits.FadingAfter | proj/src/game.c:185-192 | d steps after a hit, for d below 15, the cell is in state 2 + d / 3 with time 2 - d % 3, whatever else happened |
| GameHits.HitOf | proj/src/mouse/mouse.c:94-98 | every dying alien was hit in this game, fewer than 15 steps ago |
| GameHits.HitTheorem | proj/src/game.c:153-195 | for every run, step and cell: the step empties the cell if and only if it is the 15th since the alien there was hit in this game and, when the step ends the game, the cell comes before the killer |
| GameHits.EndingCells | proj/src/game.c:174-211 | the ending step cell by cell: the killer and empty cells are kept, what the scan has just removed is empty, everything else is DEAD_1 with time 2 |
| GameTheorems.SpawnerClosedForm | proj/src/game.c:215-226 | the spawner variables d calls after attempt k in closed form, for every k and every d up to the next attempt; the counter never passes the number and the subtraction never wraps |
| GameTheorems.AttemptSchedule | proj/src/game.c:215-226 | a call attempts a spawn if and only if its number is in the schedule |
| GameTheorems.AttemptCallIs | proj/src/game.h:47-50 | attempt k is made on call 76k - 5k(k+1)/2 up to the 15th (call 540), and every 21 calls after that |
| GameTheorems.MaxRateExceeded | proj/src/game.h:50 | the interval between attempts is shorter than the declared maximum rate allows exactly after attempts 11 to 14 |
| GameTheorems.SpawnerAt | proj/src/game.c:135-138 | in every run the spawner has been called once per step of the current game |
| GameTheorems.UnshotGame | proj/src/game.c:135-247 | as long as no alien has been hit in this game, a step ends it if and only if it is the 378th of that game, and the killer is the alien placed on step 71 on a still empty grid |
| GameOverPhase.GameEnds | proj/src/game.c:174-183 | every run that ends a game does so with the countdown at 120 and the invariant intact, even if an alien spawned in that step |
| GameOverPhase.OverPhase | proj/src/game.c:101-106 | for fewer than 120 frames and any other events except ESC: the mode, the killer's place and cell, points and spawner do not change, the countdown is 120 - n, the killer's picture (120 - n) / 5 % 4 and every other cell has faded by n |
| GameOverPhase.OverPhaseEnds | proj/src/game.c:105-126 | the 120th frame leads to the name input or the leaderboard |
| GameOverPhase.OthersGone | proj/src/game.c:164-172 | from the 24th frame on every cell but the killer's is empty, and the killer's cell is as it was |
| GameOverPhase.OverTheorem | proj/src/game.c:95-126 | the whole phase in any run: from the event that ended a game to any later one without ESC, what the state is before frame 120, that the killer is alone from frame 24, and where frame 120 leads |
| GameRuns.RunAppend | proj/src/game.c:54-83 | running two sequences of events one after the other is running their concatenation |
| GameBalance.TakenNext | proj/src/game.c:135-195 | one event in any mode, the ending step and game-over frames included, adds at most one alien and changes the number of taken cells by what it adds and empties |
| GameBalance.BalanceTheorem | proj/src/game.c:153-247 | at every point of every run, in every mode: aliens placed in the current game = taken cells + cells emptied, and the points are the aliens shot |
| GameBalance.LiveTheorem | proj/src/game.c:153-247 | until a game ends, aliens placed = live aliens + aliens shot |
| Pixels.OffsetPixel | lab5/video_card.c:90 | different pixels and bytes have different offsets: the coordinates can be read back from the offset |
| Pixels.OffsetInside | lab5/video_card.c:90 | an offset is inside the frame buffer if and only if its row is on the screen |
| Pixels.RowStretch | lab5/video_card.c:92-99 | the pixels of a row segment are exactly one stretch of bytes |
| Pixels.ColorBytes | lab5/video_card.c:94-96 | the bytes of a colour, read low byte first, are the colour modulo 256 to the number of bytes |
| Pixels.FilledPaints | lab5/video_card.c:92-99 | every pixel of a filled box, read back from the buffer, is the colour cut to the pixel size, every other pixel is what it was |
| Screen.HLineFitsExactly | lab5/video_card.c:88-99 | a line that passes the check writes only inside the frame buffer if and only if it is not a non-empty line in row v_res |
| Screen.VideoCard.DrawHLine | lab5/video_card.c:85-102 | exactly the pixels of the line that are on the screen show the colour when read back, every other byte is unchanged, and the result code |
| Screen.VideoCard.DrawRectangle | lab5/video_card.c:104-112 | exactly the pixels of the rectangle clipped to the screen show the colour when read back, nothing else changes, and the result is nonzero exactly when x > h_res and a row is visible |
| Pictures.TiledNext | lab5/video_card.c:148-150 | the rectangle of a tile adds exactly the pixels of that tile and overwrites no other |
| Pictures.TileFits | lab5/video_card.c:148 | the guard that skips tiles never fires |
| Screen.VideoCard.DrawPattern | lab5/video_card.c:139-166 | every pixel of the grid, read back, is the colour of its tile cut to the pixel size: first + (y n + x) step in mode 0x105, the direct colour otherwise; every other pixel is as before, also when tiles are empty |
| Screen.TileColorIs | lab5/video_card.c:145-159 | the colour drawn for a tile is the one meant for the mode, as far as a pixel can hold it |
| Colors.DirectChannels | lab5/video_card.c:120-137 | with blue at position 0 each channel of a direct colour is the stepped channel modulo its size, for all 32-bit wrap-arounds |
| Colors.DirectComposes | lab5/video_card.c:132-137 | stepping by (x1, y1) and then by (x2, y2) is stepping by the sum |
| Colors.BlueKeptExactly | lab5/video_card.c:133 | the blue channel is right for all inputs if and only if the mode keeps blue at position 0 |
| Colors.BlueLost | lab5/video_card.c:133 | the input that shows it: the lone low blue bit, at the origin |
| Colors.IndexedIs | lab5/video_card.c:116-118 | the palette colour of tile k = y n + x is first + k step modulo the pixel size, despite the wrap-arounds on the way |
| Screen.DrawSprite | lab5/video_card.c:180-187 | the pixel r rows and c columns into the drawn area gets source pixel r * (visible columns) + c, every other byte is unchanged |
| Pictures.SpriteShows | lab5/video_card.c:180-187 | every pixel of the sprite's box shows the image pixel (row) * (visible columns) + (column), every other pixel what it did |
| Pictures.FaithfulExactly | lab5/video_card.c:180-187 | every image of a size is drawn as itself, clipped, if and only if no column is cut off or at most one row is visible |
| Pictures.ShearShows | lab5/video_card.c:180-187 | the image that shows the shear |
| Motion.PositiveTrip | lab5/video_card.c:195-267 | for every trip with positive speed the position after n updates in closed form, always fully on the screen |
| Motion.ArrivesExactly | lab5/video_card.c:248-267 | it comes to the target, and then stays, if and only if the target is straight ahead, fits and is a whole number of moves away |
| Motion.ClimbToTarget | lab5/video_card.c:253-259 | without positive speed a target ahead is met after abs(speed) + 1 updates for each pixel, not before, is kept, and the sprite never leaves the screen |
| Motion.NegativeArrives | lab5/video_card.c:253-259 | a target straight ahead that fits is reached after exactly distance * (abs(speed) + 1) updates |
| Motion.Creeps | lab5/video_card.c:253-267 | a sprite stopped at the edge keeps moving down: it stays on the screen if and only if the target lies below it in its own column |
| Motion.NegativeSafeExactly | lab5/video_card.c:253-267 | with negative speed or none the sprite stays on the screen for ever if and only if the stated condition on the arguments of the call holds |
| Animation.DrawFrame | lab5/video_card.c:245-247 | the video memory becomes a blank screen with the sprite drawn once |
| Animation.MovingSprite.Move | lab5/video_card.c:248-267 | one update of position, speeds and frame counter |
| Animation.MovingSprite.Tick | lab5/video_card.c:239-267 | a frame is drawn every noInterrupts + 1 ticks, at the position before the move |
| Animation.DrawMovingSprite | lab5/video_card.c:225-274 | for every interleaving of keyboard and timer messages: the loop stops at the first released ESC, and the video memory is untouched or shows the sprite once, on a blank screen, where the last frame put it |
| Animation.FramesFaithful | lab5/video_card.c:169-190 | a frame of a sprite on the screen shows the whole image unsheared |
| Animation.BlackAround | lab5/video_card.c:245-247 | every pixel outside the sprite is 0 in every frame |
| Animation.PeriodExactly | lab5/video_card.c:208-243 | the ticks from one frame to the next are the fewest p with p * rate > 60 |
| Animation.RateMissed | lab5/video_card.c:208-243 | in any whole number of seconds fewer frames are drawn than the frame rate asks for, for every frame rate |
| Animation.PositiveFrames | lab5/video_card.c:225-274 | for positive speed every frame is the whole image at the position in closed form |
| Kbc.FullIs | lab3/keyboard.c:37-47 | the output buffer counts as full if and only if the status read is odd or the read failed |
| Kbc.ErrorIs | lab3/keyboard.c:25-35 | a communication error is seen if and only if the status read is at least 64 or the read failed |
| Kbc.MouseDataIs | lab4/mouse.c:93-103 | a byte counts as the mouse's if and only if bit 5 of the status is set or the read failed |
| Keyboard.Controller.KbcIh | lab3/keyboard.c:112-139 | flags, read counter and printed scancodes after the call, for every outcome of the port reads |
| Keyboard.AcceptedExactly | lab3/keyboard.c:112-117 | a byte is taken if and only if the first status is odd or unreadable, and the second one readable and below 64 |
| Keyboard.PrintedStream | lab3/keyboard.c:112-139 | for every sequence of reads the printed scancodes, in order of arrival, are the accepted bytes without prefixes that no code follows; the flag says whether the last byte was a prefix |
| Keyboard.EscExactly | lab3/keyboard.c:137 | the run flag is down if and only if a byte 0x81 has arrived |
| Keyboard.SysInCount | lab3/keyboard.c:25-62 | the read counter is the calls plus twice the calls whose first status was odd or unreadable |
| Keyboard.KeysComeThrough | lab3/keyboard.c:119-138 | every list of one- and two-byte keys (0xE0 first) comes through, given status bytes that are odd before and below 64 after each byte, whatever else is read in between |
| Keyboard.MakeIs | lab3/keyboard.c:138 | the make flag is the absence of the top bit |
| Keyboard.Controller.TestScan | lab3/lab3.c:51-76 | the loop stops exactly at the first message after which ESC has been released |
| Keyboard.Controller.TestTimedScan | lab3/lab3.c:119-149 | the loop stops exactly at the earlier of ESC and n quiet seconds |
| Watchdog.IdleMeansQuiet | lab4/lab4.c:106-129 | the idle counter has reached a limit if and only if that many ticks passed since some message after which the device was silent |
| Mouse.Driver.MouseIh | lab4/mouse.c:122-157 | a rejected or stray byte changes nothing, an accepted one is stored, and the third completes the packet in p |
| Mouse.AcceptedExactly | lab4/mouse.c:125-131 | a byte is taken if and only if bit 5 of the first status is set, the second is odd, either may be unreadable, and the third is readable and below 64 |
| Mouse.Driver.HandleNotification | lab4/lab4.c:66-71 | the handler with the caller's reset is one step of the decoder and leaves fewer than three bytes |
| Mouse.BytesBalance | lab4/mouse.c:133-137 | stored bytes = 3 * packets + bytes of the packet under way |
| Mouse.ParseEncode | lab4/mouse.c:138-155 | decoding an encoded packet gives back every button, overflow flag and nine-bit displacement |
| Mouse.MovesComeThrough | lab4/mouse.c:122-157 | every list of movements comes through, with any stray bytes before each packet and any reads in between whose status bytes do not announce a mouse byte, and nothing is left over |
| Mouse.Driver.TestPacket | lab4/lab4.c:52-78 | the loop stops exactly when the wanted number of packets, cast to int, is complete |
| Mouse.ToInt32 | lab4/lab4.c:53 | the cast is the number in the range of an int that is equal to the argument modulo 2^32 |
| Mouse.Driver.TestAsync | lab4/lab4.c:104-135 | the loop stops exactly when the mouse has been quiet for the given seconds |
| Timer.Driver.GetConf | lab2/timer.c:70-86 | for every chip, timer number and outcome of the calls: the exact chip afterwards, the result and the status byte; a status left over from before is read first, a failed read leaves one |
| Timer.StatusLatched | lab2/timer.c:71-72 | the command latches the status of exactly the timer it is for, unless one is latched already |
| Timer.NothingLatched | lab2/timer.c:71-72 | for any other timer number the command leaves the whole chip alone |
| Timer.Driver.SetFrequency | lab2/timer.c:12-52 | for every chip and every combination of the five result codes: the exact chip afterwards, with control word, count and half-written count, and the result |
| Timer.SettingSucceeds | lab2/timer.c:12-52 | with successful calls the chosen counter takes low then high byte and has the new count, nothing is left latched or half written, and the others are unchanged |
| Timer.ModeKeptExactly | lab2/timer.c:19-21 | mode and base are kept if and only if no status was left over or its low bits are the counter's |
| Timer.RetryProgramsAlike | lab2/timer.c:14-17 | after a failed status read a second try programs the chip as the first one would have |
| Timer.HiddenExactly | lab2/timer.c:34-52 | the call returns 0 with the chip not programmed if and only if the first three calls succeeded, a count write failed, the two codes share no bit, and either one write got through or the old count was another |
| Timer.OtherCounters | lab2/timer.c:12-52 | whatever fails, the other two counters are as they were |
| Timer.HiddenShown | lab2/timer.c:34-52 | inputs that show it: one failed write, with the high byte taken for the low one, and two failed writes with different codes |
| Timer.ReportedExactly | lab2/timer.c:12-52 | 0 is returned if and only if the timer is 0, 1 or 2, the first three calls succeed and the codes of the count writes share no bit |
| Timer.ControlWordIs | lab2/timer.c:19-21 | the control word has the timer, low-then-high access and the old mode and base |
| Timer.DivisorExactly | lab2/timer.c:24-27 | the counter a successful call leaves has period p with p freq <= 1193182 < (p + 1) freq if and only if freq is at most 1193182 and at least 19 in binary, 119319 in BCD |
| Timer.BcdMisread | lab2/timer.c:24-27 | an input that shows the second bound: 2000 Hz on a BCD counter runs with period 254 instead of 596 |

## Left out

- Interrupt subscription, `driver_receive`, `sys_inb`, `sys_outb`, `sys_int86`, memory mapping and mode setting: the events and bytes they deliver are parameters, with their result codes where the code looks at them.
- Messages that are not hardware notifications and failed receives: the loops ignore them, so they are not in the message sequences.
- Leaderboard contents, save file, clock, name entry and the drawing of the game: the outcome of the score comparison and whether a name was typed are parameters of the events.
- Game.AlienGame.Handle: does not model typing and deleting the name; whether there is one is a parameter of the ENTER event, because the text decides nothing else in the game.
- The crosshair goes back to the middle of the screen in `game_initialize`; a restart leaves `Crosshair.Mouse` alone.
- Crosshair.Mouse.HandleEvent: the corners of the two menu buttons are parameters, because the drawing code sets them.
- Screen.VideoCard.DrawPattern: the two loops of the source, one per kind of mode, are written once with the choice of the colour inside.
- Screen.DrawSprite: the choice of the target by number, and the error for any other number, are left to the caller, which passes the buffer.
- Screen.VideoCard.DrawHLine: requires the exact condition under which the source stays inside the frame buffer, since what a write behind it does is not defined.
- Frame buffers of 4 GB and more: the offsets of the source would wrap around.
- Modes with more than four bytes a pixel, and 0x105 with four: the shifts of the source are not defined there.
- Animation.DrawMovingSprite: takes the lab 3 handler, which also prints; the lab 5 copy changes the same flags and counter. A speed of -32768 and a frame rate of 0 are not defined in the source.
- Motion.PositiveTrip: assumes a sprite that starts fully on a screen of at most 32768 pixels a side, where adding the speed cannot wrap.
- Timer.Driver.SetFrequency: the chip model has no latching of counts and no counting, because the driver reads only the status; a frequency of 0 is a division by zero in the source.
- Acknowledgement and command-byte polling loops of mouse and keyboard: their progress depends on the hardware alone.
- `mouse_check_pattern` and `mouse_test_gesture`: commented out in the source.
- `timer_display_conf` and the one-second counting loops: branch tables and plain counters.

# No Net Dino — a verified model of the game simulation

This project models the game core of the ATmega128 "No Net Dino" program. A dino stands in
a fixed column of a 2×16 character display. Cacti (bottom row) and birds (top row) walk
toward it from the right edge. The player jumps with Up and drops with Down, and the game
ends when an obstacle reaches the dino's cell. The model covers these parts of the program:

- the obstacle slot table (`obstacles_init`, `spawn_obstacle`, the per-tick advance loop,
  `is_obstacle_here`, `dino_collision`);
- the speed levels (`LEVELS`, `level_current`, `row_removed`);
- the dino's jump state machine (`dino_jump`, `dino_row_position`, `air_time`);
- the tick scheduler (`delay_cycle`, `spawn_cooldown`, the per-tier spawn chance);
- the glyph codes `screen_update` writes;
- the button latch (`button_pressed`, `button_unlock`, `button_accept`);
- the menu and game loops of `main`.

Layout, one module per file:

| file | module | what it holds |
|---|---|---|
| `obstacles.dfy` | `Obstacles` | the slot table as a `seq<Slot>`: spawn, advance, occupancy, collision |
| `levels.dfy` | `Levels` | the `LEVELS` table, `row_removed`, the spawn policy per tier |
| `buttons.dfy` | `Buttons` | decoding `PINA`, the `button_accept` latch, the one-report-per-press property |
| `player.dfy` | `Player` | the dino's jump state machine |
| `screen.dfy` | `Screen` | the 2×16 glyph codes of `screen_update` |
| `flow.dfy` | `Flow` | the whole program state as a value (`World`) and one step of `main` as a function |
| `game.dfy` | `Game` | class `DinoGame`, whose arrays and fields mirror the program's globals |

`DinoGame` holds the obstacle table as four arrays. The `rows` column of `LEVELS` is a fifth
array, and the other globals are fields. Each method is proved to change that state exactly
as the matching function of `Flow` (or of a component module) says. `Step` runs one turn of
whichever loop `main` is in. It mirrors the two waits of `main` and its game loop:

- `AwaitStart` is the wait for Center at line 479.
- `ChooseLevel` is the difficulty choice at lines 484-499.
- `Playing` is the game loop at lines 510-582.

Hardware reads are parameters, bundled in `Flow.Inputs`:

- `PINA` as `button_pressed` reads it (one value per call);
- `PINA` as `button_unlock` reads it (one value per call);
- three samples of the 8-bit timer `TCNT0`, since `rnd_gen(max)` is `TCNT0 % max`.

The level-up and game-over tunes become events: `Frame.levelUps` and `GameOver`.

Quirks of the code that the model keeps:

- After a game over, `main` goes back to the wait for Center at line 479. A new game
  therefore needs Center, then a level button.
- `row_removed` decrements `LEVELS[level_current].rows` in place, and nothing restores it.
  A level-up does not reload a counter: the next tier continues from its own entry.
  Counters carry over into later games. A tier whose counter already reached 0 never
  advances again (`Levels.StuckTier`).
- The spawn cooldown is re-rolled on every spawn attempt, even when every slot is full.
- The dino's row, jump state and `air_time` are not reset between games. At power-on
  `air_time` is 0, so a jump hovers on the top row only once some falling tick has written
  the hover budget. Pressing Down on the ground is such a tick.
- `air_time` is rewritten on every falling tick: line 574 is outside the brace-less `else`.
  `Player.AirTimeRewriteUnobservable` proves this cannot be observed. Every fall ends in a
  landing tick that writes the same value.
- Pressing Up moves the dino up in the same tick. The collision test runs first in a tick,
  before anything moves.

## Model

| member | source | states |
|---|---|---|
| `Obstacles.Cleared` | examples/board_dino/atmega128_dino.c:323-330 | after `obstacles_init` all four slots are free and zeroed, and the table is well formed |
| `Obstacles.RndGen` | examples/board_dino/atmega128_dino.c:35-37 | `rnd_gen(max)` lies in `[0, max)` |
| `Obstacles.NewObstacle` | examples/board_dino/atmega128_dino.c:336-340 | a spawned obstacle is active at column 15; it is a bird exactly when the roll exceeds 50, and a bird exactly when it is on row 0 |
| `Obstacles.FirstFree` | examples/board_dino/atmega128_dino.c:334-335 | the index found is the lowest free slot, or the capacity when all slots are active |
| `Obstacles.Spawned` | examples/board_dino/atmega128_dino.c:333-344 | only the lowest-index free slot changes and receives the new obstacle; a full table is unchanged; well-formedness is kept |
| `Obstacles.SpawnAddsOne` | examples/board_dino/atmega128_dino.c:333-344 | a spawn raises the active count by one, or by zero when the table is full |
| `Obstacles.Advanced` | examples/board_dino/atmega128_dino.c:519-529 | free slots untouched; an active slot is freed iff its column is 0, keeping column, row and pattern, else moves one column toward 0 keeping row and pattern; active columns stay in 0..15 |
| `Obstacles.Retired` | examples/board_dino/atmega128_dino.c:522-525 | the number of `row_removed` calls of one advance is at most the capacity |
| `Obstacles.AdvanceCountsRetired` | examples/board_dino/atmega128_dino.c:519-529 | the active count drops by exactly the number of slots retired (and credited) |
| `Obstacles.AdvanceIdle` | examples/board_dino/atmega128_dino.c:519-529 | with no active obstacle the advance is a no-op that retires nothing |
| `Obstacles.ObstacleLifetime` | examples/board_dino/atmega128_dino.c:519-529 | an active obstacle at column c sits at c - n after n advances (n <= c) and is free from advance c + 1 on |
| `Obstacles.FreeSlotStaysFree` | examples/board_dino/atmega128_dino.c:520 | advances never touch a free slot |
| `Obstacles.ObstacleAt` | examples/board_dino/atmega128_dino.c:418-425 | `is_obstacle_here` gives the pattern of the lowest-index active slot on the cell, or 0 when none is there |
| `Obstacles.CollidesIffObstacleAt` | examples/board_dino/atmega128_dino.c:346-353 | some active slot is on a cell iff `is_obstacle_here` reports a non-zero pattern there |
| `Levels.RowRemoved` | examples/board_dino/atmega128_dino.c:243-253 | no change at the top tier; otherwise only the current counter drops by one, and the tier rises by exactly one iff that counter reaches 0 |
| `Levels.RowsRemoved` | examples/board_dino/atmega128_dino.c:243-253 | after n credits the tier is still in range and has risen by at most n, never fallen |
| `Levels.StuckTier` | examples/board_dino/atmega128_dino.c:249 | a tier whose counter is already at or below 0 never advances, however many obstacles are cleared |
| `Levels.RowsOnlyDecrease` | examples/board_dino/atmega128_dino.c:243-253 | no counter ever goes up, and only the counters of tiers passed through change |
| `Levels.SpawnChance` | examples/board_dino/atmega128_dino.c:534-543 | the spawn chance is a percentage strictly between 0 and 100 |
| `Levels.SpawnSpread` | examples/board_dino/atmega128_dino.c:534-543 | the cooldown's random range is non-empty, so `rnd_gen(delay)` is defined |
| `Buttons.Decode` | examples/board_dino/atmega128_dino.c:77-109 | no button is reported iff bits 0-4 of `PINA` all read 1; a reported button is held and no button earlier in the order right, up, down, center, left is held |
| `Buttons.Pressed` | examples/board_dino/atmega128_dino.c:77-109 | with the latch closed nothing is reported; with it open the result is `Decode` of `PINA` |
| `Buttons.AcceptAfterPress` | examples/board_dino/atmega128_dino.c:77-109 | the latch stays open iff it was open and no button was reported |
| `Buttons.AcceptAfterUnlock` | examples/board_dino/atmega128_dino.c:111-120 | the latch is open afterwards iff it was open or every button is released |
| `Buttons.PollRun` | examples/board_dino/atmega128_dino.c:552-581 | a run of ticks reports one button (or none) per tick |
| `Buttons.LockedUntilRelease` | examples/board_dino/atmega128_dino.c:111-120 | with the latch closed no poll reports a button until an unlock sees every button released |
| `Buttons.OnePressPerRelease` | examples/board_dino/atmega128_dino.c:77-120 | between any two polls that report a button, some unlock saw every button released |
| `Player.HoverBudget` | examples/board_dino/atmega128_dino.c:574 | the hover budget `10 + 5 * (2 - level)` lies in 10..20 |
| `Player.JumpAfterInput` | examples/board_dino/atmega128_dino.c:553-558 | Down always gives falling; Up starts a jump only from the ground; otherwise the jump state is kept |
| `Player.DinoStep` | examples/board_dino/atmega128_dino.c:552-575 | row stays in {0,1} and jump in {-1,0,1}; Up from the ground rises in the same tick; hovering uses air time, then falling starts; every falling tick writes the hover budget; a falling dino on row 0 drops to row 1 and keeps falling with the hover budget, on row 1 it lands; Up from the ground rises to row 0 keeping air time; after Down the dino is on row 1; a grounded dino is on row 1 |
| `Player.DinoStaysOnField` | examples/board_dino/atmega128_dino.c:552-575 | over any run of buttons and tiers the dino stays on the two rows and in the three jump states |
| `Player.HoverRun` | examples/board_dino/atmega128_dino.c:563-565 | a dino hovering with air time `a` still hovers, with air time 0, after `a` idle ticks |
| `Player.JumpArc` | examples/board_dino/atmega128_dino.c:552-575 | at one tier, Up then `air + 3` idle ticks bring a grounded dino back to the ground with that tier's hover budget |
| `Player.AgreeingRuns` | examples/board_dino/atmega128_dino.c:569-575 | dinos that differ only in air time while falling keep agreeing, step by step, with the landing-only variant |
| `Player.AirTimeRewriteUnobservable` | examples/board_dino/atmega128_dino.c:569-575 | writing `air_time` on every falling tick is indistinguishable from writing it only on landing |
| `Screen.Line` | examples/board_dino/atmega128_dino.c:430-443 | a display line has exactly 16 codes |
| `Screen.Render` | examples/board_dino/atmega128_dino.c:427-461 | `screen_update` writes two lines of 16 codes each |
| `Screen.RenderCell` | examples/board_dino/atmega128_dino.c:427-461 | a cell shows the dino iff it is the dino's cell; elsewhere it is blank iff no active obstacle is there, else the pattern of the lowest-index active slot there |
| `Screen.FirstOccupant` | examples/board_dino/atmega128_dino.c:418-425 | on an occupied cell `is_obstacle_here` returns a cactus or bird code |
| `Flow.PowerOnOk` | examples/board_dino/atmega128_dino.c:318-321 | the power-on state satisfies the game invariant |
| `Flow.AdvanceWorld` | examples/board_dino/atmega128_dino.c:519-529 | the advance loop changes only the table and the level: the table becomes `Advanced`, the level gets `row_removed` once per retired slot; the invariant is kept, the active count drops by the number credited, the tier never drops and no counter rises |
| `Flow.SpawnRule` | examples/board_dino/atmega128_dino.c:531-549 | a running cooldown just counts down; else a roll below the tier's chance spawns and sets the cooldown to 5 + [0, 10/7/5); else nothing changes |
| `Flow.Schedule` | examples/board_dino/atmega128_dino.c:516-550 | only when the pre-incremented delay exceeds the tier's delay do obstacles move: the counter resets, retired slots are credited, the spawn rule runs with the tier after crediting; otherwise only the counter grows |
| `Flow.PlayerTurn` | examples/board_dino/atmega128_dino.c:552-581 | the button poll and unlock change only the dino and the latch; the dino moves by the jump state machine on the polled button, and the latch ends as the poll then the unlock leave it |
| `Flow.TickWorld` | examples/board_dino/atmega128_dino.c:510-582 | a tick ends the game iff an active obstacle is on the dino's cell, and then changes nothing; otherwise the new state is the schedule followed by the player's turn, the invariant is kept, the tier never drops, and every collision-free tick emits a frame that reports the level-ups and draws the new state |
| `Flow.StartGame` | examples/board_dino/atmega128_dino.c:500-507 | a new game holds the freshly spawned obstacle in slot 0 and three free zeroed slots, zeroed delay and cooldown, the chosen tier, and keeps the dino, latch and row counters |
| `Flow.LevelChoice` | examples/board_dino/atmega128_dino.c:484-499 | Left, Center and Right (and only they) choose a tier |
| `Flow.StepWorld` | examples/board_dino/atmega128_dino.c:476-589 | one step of `main` keeps the invariant; game over happens iff playing with an obstacle on the dino's cell, and returns to the wait for Center with nothing else changed; a game step without collision is the tick; waiting moves to the level screen on Center and otherwise keeps waiting, unlocking the latch; on the level screen a game starts iff the button picks a tier, at that tier, otherwise the latch is unlocked |
| `Flow.RunKeepsInvariant` | examples/board_dino/atmega128_dino.c:476-589 | over any run, across games, the invariant holds and no `LEVELS` counter goes up |
| `Flow.GamePollsAreLatched` | examples/board_dino/atmega128_dino.c:552-581 | within one game, the buttons the ticks see are `PollRun` of the ticks' poll and unlock reads |
| `Flow.GamePressNeedsRelease` | examples/board_dino/atmega128_dino.c:77-120 | within one game, between two ticks that see a button some tick's unlock found every button released |
| `Flow.LevelNeverDrops` | examples/board_dino/atmega128_dino.c:509-582 | within one game the tier never goes down |
| `Game.DinoGame.constructor` | examples/board_dino/atmega128_dino.c:318-321 | the object starts in the power-on state |
| `Game.DinoGame.ObstaclesInit` | examples/board_dino/atmega128_dino.c:323-330 | the four arrays hold the cleared table |
| `Game.DinoGame.SpawnObstacle` | examples/board_dino/atmega128_dino.c:333-344 | the arrays hold `Spawned` of their old contents |
| `Game.DinoGame.DinoCollision` | examples/board_dino/atmega128_dino.c:346-353 | the result is true iff some active slot is on column 2 and the dino's row |
| `Game.DinoGame.IsObstacleHere` | examples/board_dino/atmega128_dino.c:418-425 | the result is the first-match pattern of `ObstacleAt` |
| `Game.DinoGame.ScreenLine` | examples/board_dino/atmega128_dino.c:430-443 | the line built is the rendered line of that row |
| `Game.DinoGame.ScreenUpdate` | examples/board_dino/atmega128_dino.c:427-461 | the two lines are `Render` of the current table and dino row |
| `Game.DinoGame.RowRemoved` | examples/board_dino/atmega128_dino.c:243-253 | the level state becomes `Levels.RowRemoved` of the old one; a level-up is reported iff the tier rose |
| `Game.DinoGame.AdvanceSlotAt` | examples/board_dino/atmega128_dino.c:520-528 | one turn of the advance loop changes only slot i, to `AdvanceSlot` of its value, and extends the level credit by that slot's retirement |
| `Game.DinoGame.AdvanceObstacles` | examples/board_dino/atmega128_dino.c:519-529 | the arrays hold `Advanced` of the old table, the level state is credited once per retired slot, and the level-ups are counted |
| `Game.DinoGame.ButtonPressed` | examples/board_dino/atmega128_dino.c:77-109 | returns `Pressed` of the latch and `PINA`, and updates the latch |
| `Game.DinoGame.ButtonUnlock` | examples/board_dino/atmega128_dino.c:111-120 | reopens the latch iff every button is released |
| `Game.DinoGame.MoveDino` | examples/board_dino/atmega128_dino.c:552-575 | the dino fields become `DinoStep` of the old ones |
| `Game.DinoGame.SpawnRule` | examples/board_dino/atmega128_dino.c:531-549 | the state becomes `Flow.SpawnRule` of the old one |
| `Game.DinoGame.Schedule` | examples/board_dino/atmega128_dino.c:516-550 | the state becomes `Flow.Schedule` of the old one |
| `Game.DinoGame.PlayerTurn` | examples/board_dino/atmega128_dino.c:552-581 | poll, move, redraw and unlock leave the state `Flow.PlayerTurn` gives, and the lines drawn are `Render` of the new table and dino row |
| `Game.DinoGame.Tick` | examples/board_dino/atmega128_dino.c:510-582 | the state and the event are those of `TickWorld` |
| `Game.DinoGame.StartGame` | examples/board_dino/atmega128_dino.c:500-507 | the state becomes `Flow.StartGame` of the old one at the chosen tier |
| `Game.DinoGame.PickLevel` | examples/board_dino/atmega128_dino.c:484-507 | one turn of the difficulty loop, ending in a new game when a level button is reported, gives the state and event of `StepWorld` |
| `Game.DinoGame.Step` | examples/board_dino/atmega128_dino.c:476-589 | the state and the event are those of `StepWorld` |

## Left out

- Port and LCD register I/O (`port_init`, `lcd_delay`, `lcd_pulse`, `lcd_send*`, `lcd_init`,
  `chars_init`) and the texts of the splash, menu and game-over screens. This is hardware
  output; `screen_update` is modelled as the glyph codes it sends.
- `play_note` and `play_tune` are busy-wait square waves on the buzzer. The level-up and
  game-over tunes appear only as events. `TUNE_START` is never played.
- `rnd_init` and the timer hardware. Each `TCNT0` read is an 8-bit parameter.
- `CHARMAP`, `XLAT_PATTERN`, `XLAT_PLAYGROUND`, `XLAT_CHAR`, `playfield` and
  `playfield_clear`. The game loop never reads them.
- `button_pressed` and `button_unlock` read the volatile `PINA` up to five times each. The
  model takes one sample per call, so a button that changes between two of those reads
  within one call is not modelled.
- The glyph bitmaps `DINO`, `CACTUS` and `BIRD`, which are display data only.
- The non-terminating loops of `main`, and any timing. One turn of a loop is `Step`; the
  model makes no real-time claim.
- AVR 16-bit `int` overflow. Integers are unbounded. The `LEVELS` row counters can go
  negative across repeated games, and their wrap-around after 32768 decrements is not
  modelled.
- `Obstacles.Retired`: its own contract only bounds the count. What it counts is stated by
  `Obstacles.AdvanceCountsRetired` and used through `Levels.RowsRemoved`.

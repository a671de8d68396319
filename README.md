# MeteorMayhem game loop in Dafny

MeteorMayhem is a terminal arcade game. Meteors fall down the screen, one
at most per column. The player steers a rocket with the arrow keys and
fires a short ray upward with `e`. The game tracks health, rays and score,
and it ends when the player presses `q` or runs out of health.

This project models the per-frame game state that `main` in
`src/meteormayhem.c` keeps in local variables, and proves what each block
of the game loop does to that state:

- `meteor_array` is the meteor buffer. It holds one `int` per screen column.
  An entry of `-1`, or any value at or below it, means "no meteor". Any other
  entry is the meteor's row.
- The other state is the player position, `health`, `rays`, `player_score`,
  the shot-active flag and `old_screen_columns`.

The project has four files:

- `field.dfy` (module `Field`) treats the meteor buffer as a value. It
  defines the advance pass and the reallocation as recursive functions, each
  of which walks the columns in order. Lemmas say what each column becomes.
- `rules.dfy` (module `Rules`) holds one pure function per block of the loop
  body, in source order. `Frame` composes them, and `Run` is the game loop.
- `properties.dfy` (module `Properties`) proves what each step does and what
  it leaves unchanged. It also proves the invariant that every frame keeps:
  - the recorded width equals the buffer width;
  - every column holds the sentinel or a row;
  - `rays` is never negative;
  - the score is a non-negative multiple of 5.
- `game.dfy` (module `Loop`) is the loop as the source runs it. Class
  `Game` holds the loop's locals as fields and the buffer as an
  `array<int>`. It has one method per block, and the advance and ray-pass
  `for` loops appear with their invariants. `Frame` runs the blocks in order
  and `Play` is the `while` loop. Each method's postcondition equates the
  new state with the matching `Rules` function applied to the old state, so
  the lemmas of `Properties` hold of the imperative code.

The environment of a frame is an input value (`Rules.FrameInput`):

- the terminal size, as `rows` and `columns`;
- one "period elapsed" flag for each of the four timers (advance, spawn,
  shot duration, regeneration);
- the column drawn for the spawn;
- the key read, as one of `Fire` (`'e'`), the four arrows, `Resize`
  (`KEY_RESIZE`), `Quit` (`'q'`) and `Other`.

The player position is clamped once per frame, just before it is used
(src/meteormayhem.c:235-236). An arrow key can leave it one cell outside
the screen until the next frame's clamp, as `ArrowMoves` states.

The bound "every column is `-1` or a row of the playable area" needs a
playable area of at least one row. Under that condition, it holds after a
frame whose advance is due, whatever came before (`FrameOnScreen`). It is
also kept by every frame that does not lose playable height
(`FrameKeepsOnScreen`), which covers most frames: the loop does not wait for
a key, and the advance is due only once per 0.1 s. It does not survive two
cases. A frame that loses height without a due advance keeps a meteor below
the new bottom row until the next advance removes it
(`ShrinkKeepsMeteorBelowScreen`). With a playable
area of 0 rows, the spawn still writes row 0. The invariant that every
frame keeps therefore asks only that every column is `-1` or non-negative.

## Model

| member | source | states |
|---|---|---|
| `Field.Advanced` | src/meteormayhem.c:199-210 | The advance pass yields one entry per column, so the buffer keeps its width. |
| `Field.AdvancedAt` | src/meteormayhem.c:200-210 | For each column, an absent entry is left as it is. A meteor moves down exactly one row. A meteor whose new row is not below the playable row count becomes `-1`. |
| `Field.AdvancedOnScreen` | src/meteormayhem.c:183-210 | After an advance, every column is `-1` or a row in `[0, screen_rows)` of the playable area, with the status row already taken out. |
| `Field.AdvanceNeverAddsMeteors` | src/meteormayhem.c:199-210 | An advance never increases the number of meteors on the field. |
| `Field.Resized` | src/meteormayhem.c:174-181 | The reallocated buffer has exactly the new width. |
| `Field.ResizedAt` | src/meteormayhem.c:176-178 | Every column below both widths keeps its entry. Every column from the old width up to the new width is `-1`. |
| `Field.ResizedSameWidth` | src/meteormayhem.c:174 | Reallocating to the width the buffer already has changes nothing, which is why the source skips it. |
| `Field.ResizedRoundTrip` | src/meteormayhem.c:176-178 | Growing the buffer and shrinking it back restores the original buffer. |
| `Field.ResizedOnScreen` | src/meteormayhem.c:176-178 | After reallocation, every entry is still `-1` or a row below the same row count. |
| `Field.OnScreenTaller` | src/meteormayhem.c:171 | A field on screen stays on screen when the terminal grows taller. |
| `Field.ResizedSentinelForm` | src/meteormayhem.c:176-178 | After reallocation, every entry is still `-1` or a row. |
| `Rules.Initial` | src/meteormayhem.c:113-149 | The first state has health 100, 5 rays, score 0, no active shot, no key read and an empty field as wide as the terminal. The player starts at column `columns / 2` and row `rows / 2 - 1`. The state satisfies the invariant and the loop's guard. |
| `Rules.Clamp` | src/meteormayhem.c:235-236 | The clamped coordinate is never negative. It is below the bound whenever the bound is at least 1. A value already in range is kept. A negative value goes to 0, and a value at or past the bound goes to `bound - 1`. |
| `Field.AdvanceCell` | src/meteormayhem.c:201-209 | An absent entry is kept. A meteor becomes `-1` exactly when its next row is not below `rows`, and otherwise moves to the next row, which is in `[1, rows)`. Applied to every column by `Field.AdvancedAt`. |
| `Rules.ResizeStep` | src/meteormayhem.c:171-181 | The buffer ends as wide as the terminal and the terminal size is stored. A buffer that already has that width is kept as it is. `Properties.ResizeStepEffect` gives the full new state. |
| `Rules.ReserveStep` | src/meteormayhem.c:183-185 | The playable row count drops by exactly one when statistics are shown, and nothing else changes. `Properties.StatusRowStaysClear` shows that no meteor then ends a frame on the statistics row, when the advance is due or the field was on screen and the frame lost no playable height. |
| `Rules.AdvanceStep` | src/meteormayhem.c:199-213 | The advance block changes only the field, keeps its width and never adds a meteor. `Properties.AdvanceStepInv` shows that it keeps the invariant. |
| `Rules.SpawnStep` | src/meteormayhem.c:215-223 | The spawn block changes only the field and keeps its width. An occupied drawn column means no change at all. `Properties.SpawnStepEffect` gives the exact change. |
| `Rules.ClampStep` | src/meteormayhem.c:235-236 | Only the position changes, and it is inside the playable area whenever each bound is at least 1. |
| `Rules.RayStep` | src/meteormayhem.c:242-257 | The ray pass (the ray covers rows `0 <= row < player_y`, `RayHits`) keeps the field's width, raises the score by 0 or 5, and never starts a shot. `Properties.RayStepEffect` gives the exact change. |
| `Rules.RegenStep` | src/meteormayhem.c:259-263 | Regeneration never lowers health or rays and touches nothing else. `Properties.RegenStepEffect` gives the exact amounts. |
| `Rules.CollisionStep` | src/meteormayhem.c:265-268 | The collision check keeps the field's width and the score, and it costs either 0 or exactly 20 health. `Properties.CollisionStepEffect` gives the exact change. |
| `Rules.DispatchKey` | src/meteormayhem.c:272-303 | The key read is recorded. Dispatch never changes the field, the health or the score, and it uses at most one ray, only when one is left. |
| `Rules.PlayerSteps` | src/meteormayhem.c:235-268 | The clamp, ray, regeneration and collision blocks keep the field's width, the screen size and the recorded width, and raise the score by 0 or 5. |
| `Rules.Frame` | src/meteormayhem.c:169-303 | After a frame the recorded key is the key read, and the buffer is as wide as the screen and the terminal. `Properties.FramePreservesInv` shows that every frame keeps the invariant. |
| `Rules.Run` | src/meteormayhem.c:168-304 | Once `'q'` was read or health is at most 0 (`Running` fails), no further frame runs, whatever input follows. `Properties.RunPreservesInv` shows that the invariant holds throughout. |
| `Rules.FieldSteps` | src/meteormayhem.c:171-223 | After the resize, status-row, advance and spawn blocks, the buffer width equals the screen width. |
| `Properties.ResizeStepEffect` | src/meteormayhem.c:171-181 | The resize block stores the terminal size and keeps the columns both widths share. It makes the new columns `-1` and leaves buffer width, recorded width and screen width equal. Nothing else changes. |
| `Properties.ResizeKeyChangesNothing` | src/meteormayhem.c:299-301 | In any reachable state, a frame that reads `KEY_RESIZE` ends in the same state as a frame that reads no key, except for the recorded key. |
| `Properties.SpawnStepEffect` | src/meteormayhem.c:215-223 | A spawn changes at most the drawn column. It changes that column if and only if the spawn is due and the column is absent, and it then writes row 0 and adds exactly one meteor. Nothing else in the state changes. |
| `Properties.SpawnOnFullField` | src/meteormayhem.c:220-222 | A spawn leaves a field with every column occupied unchanged. |
| `Properties.ClampStepBounds` | src/meteormayhem.c:235-236 | After the field blocks and the clamp, `player_x` indexes an existing column of the buffer. So the reads of `meteor_array[player_x]` at lines 247 and 265 are in bounds. `player_y` is never negative, and it is below `screen_rows` whenever there is a row. |
| `Properties.RayStepEffect` | src/meteormayhem.c:242-257 | While a shot is active, the ray pass clears the player's-column meteor if and only if its row is strictly less than `player_y`, and the score then rises by exactly 5 (otherwise by 0). No other column changes. The shot ends exactly when its time is up. Without a shot nothing changes. |
| `Properties.CollisionStepEffect` | src/meteormayhem.c:265-268 | A meteor on the player's row costs exactly 20 health and its column becomes `-1`. Otherwise the state is unchanged. |
| `Properties.RayKillIsNotACollision` | src/meteormayhem.c:244-268 | A meteor the ray destroyed scores 5 and cannot also damage the player later in the same frame. |
| `Properties.RegenStepEffect` | src/meteormayhem.c:259-263 | Regeneration adds exactly 10 health and exactly 2 rays, with no cap, and changes nothing else. |
| `Properties.KeysLockedDuringShot` | src/meteormayhem.c:274-303 | While a shot is active, no key changes anything except the recorded key. |
| `Properties.DispatchKeyScope` | src/meteormayhem.c:274-303 | A key changes only the position, the rays, the shot flag and the recorded width. It never changes the field, the health or the score. |
| `Properties.FireGating` | src/meteormayhem.c:276-281 | With rays left, `'e'` uses exactly one ray and starts the shot. With none left, it changes nothing. |
| `Properties.ArrowMoves` | src/meteormayhem.c:283-297 | Each arrow changes exactly one coordinate by exactly 1 in its direction, with no clamping. |
| `Properties.ResizeStepInv` | src/meteormayhem.c:174-181 | The resize block keeps the invariant. |
| `Properties.AdvanceStepInv` | src/meteormayhem.c:199-213 | The advance block keeps the invariant and changes only the field. |
| `Properties.FieldStepsInv` | src/meteormayhem.c:171-223 | The field blocks keep the invariant and the three widths equal, and they leave the score alone. |
| `Properties.PlayerStepsInv` | src/meteormayhem.c:235-268 | The clamp, ray, regeneration and collision blocks keep the invariant and the widths. They change the score by 5 or by 0. |
| `Properties.DispatchKeyInv` | src/meteormayhem.c:274-303 | Key dispatch keeps the invariant, so `rays` never goes negative, and it leaves the score alone. |
| `Properties.FramePreservesInv` | src/meteormayhem.c:169-303 | Every frame keeps the invariant (widths agree, columns hold `-1` or a row, `rays >= 0`, score a non-negative multiple of 5). The score rises by 5 or by 0 per frame. |
| `Properties.FieldStepsOnScreen` | src/meteormayhem.c:171-223 | With a due advance and a playable area of at least one row, the field blocks leave every column `-1` or a row in `[0, screen_rows)`. |
| `Properties.PlayerStepsOnScreen` | src/meteormayhem.c:235-268 | The clamp, ray, regeneration and collision blocks keep every column `-1` or a row of the playable area, because they only ever clear columns. |
| `Properties.FrameOnScreen` | src/meteormayhem.c:169-303 | A frame with a due advance and a playable area of at least one row ends with every column `-1` or a row of the playable area. |
| `Properties.SpawnStepOnScreen` | src/meteormayhem.c:220-222 | With at least one playable row, a spawn keeps every column `-1` or a row of the playable area. |
| `Properties.FieldStepsKeepOnScreen` | src/meteormayhem.c:171-223 | With at least one playable row, the field blocks keep every column `-1` or on screen when the advance is due or the playable height did not shrink. |
| `Properties.FrameKeepsOnScreen` | src/meteormayhem.c:169-303 | With at least one playable row, a frame keeps every column `-1` or a row of the playable area when its advance is due or it loses no playable height. |
| `Properties.StatusRowStaysClear` | src/meteormayhem.c:183-213 | With the statistics line shown, the playable area is one row shorter than the terminal. No meteor ends the frame on the bottom row, where the statistics line is, when the advance is due or when the field was on screen and the frame lost no playable height. |
| `Properties.ShrinkKeepsMeteorBelowScreen` | src/meteormayhem.c:171-213 | A concrete frame that shrinks the terminal from 20 to 5 rows without a due advance keeps a meteor on row 10, so the playable-area bound fails after it. |
| `Properties.RunPreservesInv` | src/meteormayhem.c:168-304 | The invariant holds in every state the game loop reaches. |
| `Properties.RunOneFrame` | src/meteormayhem.c:168 | While the game is running and input remains, the loop runs exactly one more frame and then continues with the remaining input. |
| `Properties.LastFrame` | src/meteormayhem.c:168 | A frame that reads `'q'`, or that leaves health at most 0, is the last frame. |
| `Loop.Reallocate` | src/meteormayhem.c:176-178 | Reallocating and then filling from the old width gives a fresh buffer equal to `Field.Resized` of the old one. |
| `Loop.AdvanceColumns` | src/meteormayhem.c:200-210 | The in-place advance loop leaves the array equal to `Field.Advanced` of its old contents. |
| `Loop.Game.constructor` | src/meteormayhem.c:113-149 | The new game equals `Rules.Initial` for the terminal size and satisfies the invariant. |
| `Loop.Game.Resize` | src/meteormayhem.c:171-181 | The new state is `ResizeStep` of the old one, and afterwards buffer width, recorded width and screen width are all equal. |
| `Loop.Game.ReserveStatusRow` | src/meteormayhem.c:183-185 | With statistics shown, the playable row count drops by one. Nothing else changes. |
| `Loop.Game.Advance` | src/meteormayhem.c:199-213 | The new state is `AdvanceStep` of the old one, and the invariant is kept. |
| `Loop.Game.Spawn` | src/meteormayhem.c:215-223 | The new state is `SpawnStep` of the old one. |
| `Loop.Game.ClampPlayer` | src/meteormayhem.c:235-236 | The new state is `ClampStep` of the old one, and the position is inside the playable area. |
| `Loop.Game.RayPass` | src/meteormayhem.c:242-257 | The in-place ray loop leaves the state equal to `RayStep` of the old one. |
| `Loop.Game.Regenerate` | src/meteormayhem.c:259-263 | The new state is `RegenStep` of the old one. |
| `Loop.Game.CheckCollision` | src/meteormayhem.c:265-268 | The new state is `CollisionStep` of the old one. |
| `Loop.Game.HandleKey` | src/meteormayhem.c:272-303 | The new state is `DispatchKey` of the old one for the key read. |
| `Loop.Game.UpdateField` | src/meteormayhem.c:171-223 | After the resize, status-row, advance and spawn blocks, the state is `FieldSteps` of the old one. |
| `Loop.Game.UpdatePlayer` | src/meteormayhem.c:235-268 | After the clamp, ray, regeneration and collision blocks, the state is `PlayerSteps` of the old one. |
| `Loop.Game.Frame` | src/meteormayhem.c:169-303 | One pass of the loop body equals `Rules.Frame`, and the invariant is kept. |
| `Loop.Game.Play` | src/meteormayhem.c:168-304 | The `while` loop ends in `Rules.Run` of the initial state. It stops before the input runs out only at game over. |

## Left out

- Terminal rendering and input setup (`initscr`, `erase`, the `mvaddstr`
  calls, colour attributes, `refresh`, cursor and echo settings, `endwin`)
  are terminal I/O. The model keeps only the key that `getch` returns.
- The statistics line is left out: its formatting with `sprintf`, its centring
  and its `malloc`ed buffer. Only the reservation of the bottom row is
  modelled. On a wide enough terminal the line does not change the game
  state. The narrow case is the next item.
- Wall-clock timing with `clock()` and `CLOCKS_PER_SEC` becomes one "period
  elapsed" input per timer and frame. As a result the four `clock_start`
  timestamps are not state of the model. The reset of the spawn timer whether
  or not a meteor was placed (line 216) cannot be observed, and neither can the
  30-second cadence of regeneration (line 259).
- The shot flag is a boolean. The source encodes it as `clock_start[2] != 0`,
  so a shot fired at the moment `clock()` returns 0 would not start. That
  corner case is not modelled.
- `rand()` becomes the drawn column, an input in `[0, screen_columns)`. The
  distribution of spawns is not modelled.
- Argument parsing with `argp`, `setlocale`, and the glyph and theme choice
  are left out. So is the final score `printf`. The model keeps only the
  statistics flag (bit 2 of `flags`) as `Game.statistics`.
- `malloc` and `realloc` failures are not modelled: the source does not check
  for them.
- `health`, `rays` and `player_score` are unbounded integers. The 32-bit `int`
  overflow that the source would reach after hundreds of millions of
  regenerations or kills is not modelled.
- `memset` with byte `-1` is modelled as writing the `int` value -1, which is
  what that byte pattern is in two's complement.
- With statistics shown, a terminal narrower than the formatted statistics
  line overflows the `screen_columns`-byte buffer that line 189 writes with
  `sprintf`. The first line in the ASCII format of line 51,
  ` health: 100 > rays: 5 > score: 0 `, already
  needs 35 bytes. The model accepts every width of at least one column and
  does not represent that undefined behaviour or its effect on the heap the
  meteor buffer shares.
- Every frame requires a terminal at least one column wide. With zero columns
  the source computes `rand() % 0` and reads `meteor_array[0]` of an empty
  buffer, both undefined behaviour. The initial state requires a non-negative
  row count, as the terminal reports.
- The reallocation is modelled for the reachable states only, in which the
  recorded width equals the buffer width (`Rules.Inv`). If the two differed,
  `realloc` would leave indeterminate entries, and the model does not
  represent those.

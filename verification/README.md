# Falling-block board, pieces and alerts in Dafny

This project models the simulation core of a terminal falling-block game (Tetris rules on a
10 x 20 playfield). It covers three parts of that core:

- **The board** (`collision_manager.dfy`, module `CollisionManager`). This holds the fixed wall
  and floor geometry and the settled cells of locked pieces. It also holds the line-clear pass,
  which works in two steps:
  - it removes every full row between the topmost and bottommost occupied rows;
  - it then closes the gaps from the bottom up, and a row that has just been closed is
    scanned again.
- **The pieces** (`blocks.dfy`, module `Blocks`). This covers the seven shapes, the seven-bag
  shuffle, the spawn rule, cloning (a clone is never a ghost), rotation-index arithmetic
  modulo the number of rotation states, and the cells a piece covers.
- **Score and alerts** (`alerts.dfy`, module `Alerts`). This covers:
  - the reward table for 0 to 4 cleared rows;
  - "the first present candidate wins" reward selection;
  - the per-frame ageing of the on-screen alert list, modelled exactly as the loop is written.

`grid.dfy` holds the shared point type. `game.dfy` connects the parts at the moment a piece
locks. It proves that on a board with no full row, locking a piece of at most four cells
clears at most four rows. So the reward lookup is always defined, and the board again has no
full row afterwards.

Settled cells are the vector of plotted points in plotting order, with colours dropped. The
line-clear pass filters and maps that vector in place, and it may hold repeats, so the model
keeps a sequence rather than a set. A clone always clears the ghost flag
(src/game/block_manager/blocks.rs:98), whatever the original's flag was.

The rotation tables are data the model cannot see. Every operation that needs them takes a
`Catalog`: for each shape, its sequence of rotation states. `WellFormed` requires at least one
state per shape. The random source behind the bag is also a parameter: `draws` holds the
positions drawn at each swap of the Fisher-Yates walk that the shuffle performs.

## Model

| member | source | states |
|---|---|---|
| `CollisionManager.Borders` | src/game/collision_manager.rs:7-29 | The borders are 52 plotted cells. A point is one of them exactly when it is on column 0 or column 11 in rows 0 to 20, or on row 20 in columns 1 to 10. |
| `CollisionManager.WallsAndFloor` | src/game/collision_manager.rs:9-26 | Two walls of height + 1 cells at the two given columns and a floor on row `height` between them make 2 x (height + 1) + (the number of columns between the walls) cells. A point is one of them exactly when it is on a wall column within rows 0 to `height`, or on the floor row strictly between the walls. |
| `CollisionManager.BordersEnclosePlayfield` | src/game/collision_manager.rs:7-29 | No playfield cell (columns 1 to 10, rows 0 to 19) is a border cell. A step left, right or down from a playfield cell stays in the playfield or hits a border. |
| `CollisionManager.Draw` | src/game/collision_manager.rs:51-53 | Drawing keeps the existing cells as a prefix, in order, and appends the plotted cells after them. |
| `CollisionManager.MinY` | src/game/collision_manager.rs:64 | The result is the smallest row of any cell, and some cell lies in it. |
| `CollisionManager.MaxY` | src/game/collision_manager.rs:65 | The result is the largest row of any cell, and some cell lies in it. |
| `CollisionManager.Filter` | src/game/collision_manager.rs:81 | Retaining keeps exactly the cells that satisfy the test and never adds cells. |
| `CollisionManager.RowFullAfterRemove` | src/game/collision_manager.rs:67-81 | Removing one row does not change whether any other row is full. So removing rows during the scan does not affect later rows. |
| `CollisionManager.FullRowStep` | src/game/collision_manager.rs:74-81 | Removing a full row and then scanning the rows below it removes the same cells as judging all rows on the original cells. It also finds one full row fewer. |
| `CollisionManager.RemoveFullRows` | src/game/collision_manager.rs:67-82 | The row scan only removes cells and never adds one, and it counts at most one full row per scanned row. |
| `CollisionManager.RemoveFullRowsSpec` | src/game/collision_manager.rs:67-82 | The row scan keeps exactly the cells outside the full rows of the scanned range, in order. Its count is the number of full rows in that range. |
| `CollisionManager.Compact` | src/game/collision_manager.rs:84-115 | The gravity pass terminates: each step either raises the lower bound (after an empty row) or moves the scan up one row. No cell is lost, and the lower bound never decreases. |
| `CollisionManager.ShiftAbove` | src/game/collision_manager.rs:99-110 | Shifting the cells above an empty row keeps the number of cells; `ShiftAboveSpec` states where each one goes. |
| `CollisionManager.ShiftAboveSpec` | src/game/collision_manager.rs:99-110 | Shifting above an empty row moves only the cells strictly above it, each by exactly one row, and leaves the rows below it as they were. Rows keep their vertical order. |
| `CollisionManager.EmptyRowStep` | src/game/collision_manager.rs:98-114 | An empty-row step keeps the pass's invariant: all cells lie between the raised lower bound and the bottom row, and every row below the scan row stays occupied. |
| `CollisionManager.CompactSpec` | src/game/collision_manager.rs:84-115 | The pass moves cells straight down without changing the order of rows. When it ends, the cells occupy every row from its final lower bound to the bottom row, and no others. |
| `CollisionManager.ClearFilledLines` | src/game/collision_manager.rs:56-120 | An empty board is returned unchanged with count 0. Otherwise the count is the number of full rows between the topmost and bottommost occupied rows. The result is the non-full-row cells, in order, each in its own column, never higher than before, with row order kept. No cell ends below the original bottom row, and no row is empty between any remaining cell and that bottom row. |
| `CollisionManager.DrawAndClearLines` | src/game/collision_manager.rs:125-128 | Drawing then clearing counts the full rows of the combined cells. It keeps their non-full-row cells, moved straight down in row order. |
| `CollisionManager.ClearKeepsPlayfield` | src/game/collision_manager.rs:84-117 | If every settled cell is inside the playfield before line clearing, every cell is inside it afterwards. |
| `CollisionManager.DownwardImageRowFull` | src/game/collision_manager.rs:99-110 | Moving cells straight down in row order cannot create a full row: a full row afterwards came from a full row before. |
| `CollisionManager.KeptRowsNotFull` | src/game/collision_manager.rs:67-82 | No cell kept by the row scan lies in a full row. |
| `CollisionManager.ClearLeavesNoFullRow` | src/game/collision_manager.rs:56-120 | After line clearing, no row is full. |
| `CollisionManager.ClearedAtMostDrawn` | src/game/collision_manager.rs:125-128 | On a board with no full row, drawing and clearing removes at most as many rows as the drawn element has cells. |
| `Blocks.AllVariantsOnce` | src/game/block_manager/blocks.rs:29-37 | Each of the seven shapes appears exactly once in the variant list. |
| `Blocks.Bag` | src/game/block_manager/blocks.rs:38-42 | For any in-range draws, the shuffled bag has seven shapes. It is a permutation of the variant list, with each shape exactly once and no repeats. |
| `Blocks.Polarity` | src/game/block_manager/blocks.rs:9-15 | The step is +1 or -1, and it is positive exactly when the turn is clockwise. |
| `Blocks.DefaultIsSpawnedO` | src/game/block_manager/blocks.rs:65 | The piece used before any other is spawned is a new O piece: spawn position, rotation 0, not a ghost, covering the O shape's first rotation state at the spawn position. |
| `Blocks.New` | src/game/block_manager/blocks.rs:67-74 | A new piece has the given shape, position (5, 0), rotation 0, and is not a ghost. |
| `Blocks.NewIsSpawned` | src/game/block_manager/blocks.rs:67-74 | A new piece's rotation index is valid for any well-formed catalog, and the piece is its own clone. It covers its shape's first rotation state moved to (5, 0). |
| `Blocks.Clone` | src/game/block_manager/blocks.rs:92-101 | A clone has the same position, shape and rotation and is never a ghost. It equals the original exactly when the original is not a ghost. |
| `Blocks.StateCount` | src/game/block_manager/blocks.rs:76-78 | Every shape has at least one rotation state. |
| `Blocks.Rotate` | src/game/block_manager/blocks.rs:86-89 | After a turn, the rotation index is below the state count and nothing else changes. From an in-range index, clockwise goes up by one and wraps from the last state to 0. Counter-clockwise goes down by one and wraps from 0 to the last state. |
| `Blocks.RotationIndexes` | src/game/block_manager/blocks.rs:79-85 | The pair is the current index and the index that `Rotate` in the same direction would set. |
| `Blocks.RotateRoundTrip` | src/game/block_manager/blocks.rs:86-89 | A turn followed by the opposite turn restores a piece whose index is in range. |
| `Blocks.RotateTimesNoWrap` | src/game/block_manager/blocks.rs:86-89 | Before the index wraps, k clockwise turns raise it by exactly k. |
| `Blocks.FullTurn` | src/game/block_manager/blocks.rs:86-89 | As many clockwise turns as there are states bring an in-range piece back to itself. |
| `Blocks.OccupiedCells` | src/game/block_manager/blocks.rs:112-114 | A piece covers one cell per offset of its current rotation state (index taken modulo the state count). Each cell minus the piece's position is the matching offset. |
| `Blocks.OccupiedCellsTranslate` | src/game/block_manager/blocks.rs:112-114 | Moving a piece by d moves each covered cell by d. |
| `Blocks.CloneOccupiesSameCells` | src/game/block_manager/blocks.rs:92-101 | A clone covers the same cells as the original; the ghost flag only affects colour. |
| `Blocks.FullTurnSameCells` | src/game/block_manager/blocks.rs:112-114 | A full turn leaves the covered cells unchanged. |
| `Alerts.AlertForFilledLines` | src/game/alerts.rs:8-17 | Only counts 0 to 4 are accepted. There is no reward exactly for 0 rows, and a reward for n rows is worth at least 100 x n. |
| `Alerts.RewardPerLineGrows` | src/game/alerts.rs:8-14 | Clearing more rows at once pays strictly more per row (100, 150, about 167, 200), and each count has its own message. |
| `Alerts.Push` | src/game/alerts.rs:32-34 | Pushing keeps the existing alerts in order and appends the message with lifetime 20. Lifetimes stay within 1 to 20. |
| `Alerts.HandleWithScore` | src/game/alerts.rs:36-45 | No candidate changes nothing. A candidate adds its points to the score and pushes its message. Lifetimes stay within 1 to 20. |
| `Alerts.PriorisedAlertsWithScore` | src/game/alerts.rs:47-59 | With no present candidate nothing changes. Otherwise at most one alert is appended after the existing ones. Lifetimes stay within 1 to 20. |
| `Alerts.PriorisedPicksFirst` | src/game/alerts.rs:47-59 | When candidate k is the first present one, the result is exactly that candidate applied, and the later ones are ignored. |
| `Alerts.SpecialMoveBeatsTetris` | src/game.rs:144-153 | A lock that is both a special move and a four-row clear scores only the special move. |
| `Alerts.AgeAll` | src/game/alerts.rs:68-72 | Ageing every alert by one frame removes as many alerts as are on their last frame. Lifetimes stay within 1 to 20. |
| `Alerts.AgeAllKeeps` | src/game/alerts.rs:68-72 | An alert with more than one frame left is in the aged list, one frame younger. |
| `Alerts.AgeAllOnlyAged` | src/game/alerts.rs:68-72 | Every alert of the aged list is some input alert with more than one frame left, one frame younger. |
| `Alerts.AgeAllSurvivors` | src/game/alerts.rs:68-72 | Both directions at once: the aged list holds exactly the input alerts with more than one frame left, each one frame younger, and nothing else. |
| `Alerts.AgeAllEmbeds` | src/game/alerts.rs:61-77 | Ageing keeps the surviving alerts in insertion order, with their messages and no larger lifetimes. |
| `Alerts.FrameAsWritten` | src/game/alerts.rs:61-77 | One frame as written: an empty list stays empty, and the list never grows. Lifetimes stay within 1 to 20, and survivors keep their order and messages with no larger lifetime. The number removed equals the number of expiring alerts, minus one when both the first and second alerts expire. |
| `Alerts.FrameAsWrittenSurvivors` | src/game/alerts.rs:61-77 | One frame as written keeps every alert with more than one frame left, one frame younger, except the second alert when the first expires: that one is kept unchanged. Every alert of the result is one of these. |
| `Alerts.FrameLoopStep` | src/game/alerts.rs:65-76 | One pass of the loop body keeps the loop's invariant: the alerts before the index are settled and the rest are untouched. This includes the pass where index 0 expires and the index then skips past the alert that moves into slot 0. |
| `Alerts.Frame` | src/game/alerts.rs:61-77 | The loop, with its `saturating_sub` step-back, computes exactly `FrameAsWritten`. |
| `Alerts.FrameAsWrittenVersusAgeAll` | src/game/alerts.rs:61-77 | The loop as written ages every alert by one frame exactly when it is not the case that the first of two or more alerts expires. |
| `Alerts.FrameSkipsNextAlert` | src/game/alerts.rs:69-74 | With two alerts on their last frame, the loop removes the first and leaves the second for one more frame. |
| `Alerts.FrameIntended` | src/game/alerts.rs:61-77 | With the index left in place after a removal, the loop computes exactly `AgeAll`: every alert ages by one frame. By `AgeAllSurvivors`, exactly the alerts with more than one frame left remain, each one frame younger; by `AgeAllEmbeds`, they keep their order. |
| `Game.LockClearsAtMostFour` | src/game.rs:139-150 | On a board with no full row, locking a piece of at most four cells clears 0 to 4 rows. So the reward lookup is defined and gives no reward exactly for 0, and afterwards no row is full. |

## Left out

- `src/audio.rs` is not part of this model. It is a playback thread, a channel, atomics and floating-point volume math over an audio library.
- `src/main.rs` and `src/game.rs` `frame` / `render_frame` are not modelled beyond the lock step in `Game.LockClearsAtMostFour`. That orchestration calls piece-controller methods whose source is not part of this model: moving, wall-kick rotation, ghost generation, hold, reset and spin detection. It also mixes in terminal I/O and pausing.
- The special-move (spin) candidate is any `Reward`. Its detection code is not part of this model.
- `CollisionManager::get` and overlap queries are not modelled. They belong to the rendering engine's container types, whose source is not part of this model. `BordersEnclosePlayfield` states the geometry those queries rely on.
- Rectangles are modelled only as one-wide columns (plotted top to bottom) and one-high rows (plotted left to right), the only shapes the borders use. The rendering engine's general rectangle code is not part of this model.
- `CanDraw::draw_to` for the board and the alert display is not modelled: it is screen output. For a piece, only the cells it plots are modelled, and the colour and ghost colour are dropped.
- The rotation tables, wall-kick tables and colours of the shape data module are not part of this model. They enter as the `Catalog` parameter, with only "at least one rotation state per shape" assumed. So the property "every rotation state of a shape has the same number of cells" cannot be stated.
- `Blocks.Bag` states that the bag is a permutation for every sequence of in-range draws. It does not state that every order is equally likely, because the random number generator is outside the model.
- Integer widths are not modelled: `i64` scores and counts, `usize`/`isize` rotation indexes and `u16` lifetimes are unbounded integers here. No overflow is reachable at the sizes involved, except a `u16` lifetime of 0, which `Alerts.Frame` excludes by requiring every lifetime to be at least 1.
- Game.LockClearsAtMostFour: requires the piece to cover at most four cells and the board to start with no full row. The shape tables that would guarantee the first are not part of this model. The second holds after every earlier lock by `CollisionManager.ClearLeavesNoFullRow`.
- `AlertDisplay::new` and `Default` only set a screen position, which is rendering data.

## Findings

| source | as written | input that shows it | evidently intended | confidence | as-written member | corrected member |
|---|---|---|---|---|---|---|
| src/game/alerts.rs:69-74 | After removing the alert at index 0, `i.saturating_sub(1)` leaves `i` at 0, and `i += 1` then moves past the alert that has just slid into index 0. That alert is not aged in this frame. | Alerts ("Single!", 1) and ("Double!", 1): after one frame, ("Double!", 1) is still shown. | Every alert loses one frame per frame, so both alerts go in the same frame. | medium; not executed | `Alerts.Frame`, `Alerts.FrameSkipsNextAlert` | `Alerts.FrameIntended`, `Alerts.AgeAllSurvivors` |

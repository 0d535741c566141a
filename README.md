# Minesweeper board logic in Dafny

A model of the game logic of a small Rust minesweeper, with proofs. The
repository's `Board` (`src/objs.rs`) holds a `height` × `width` grid of tiles,
the number of mines and a flag counter. Its operations are:

- building a board and placing mines;
- counting the mines around every tile;
- the recursive flood-fill reveal behind a left click;
- toggling a flag;
- the win test;
- the reveal of every mine after a loss.

Around the board, `src/minesweeper.rs` adds the check on a custom board's size,
the mapping from a count to its texture name, starting a game, and the click
protocol that calls the board.

Files:

- `grid.dfy` (module `Grid`): tiles, positions, the grid as rows of tiles, the
  exact adjacency count, and counts of mines, flags and hidden tiles with their
  update lemmas.
- `flood.dfy` (module `Flood`): what one reveal is meant to uncover. `Reach(g, s, q)`
  holds when a path of hidden tiles leads from `s` to `q`, where every step
  leaves a safe tile with no adjacent mine. `FloodSpan` states that the tiles
  newly revealed are exactly those reachable.
- `objs.dfy` (module `Objs`): the class `Board` with the fields and methods
  of the Rust `Board`, the board invariant `Valid()`, and lemmas about flags, wins and
  exposing the mines.
- `minesweeper.dfy` (module `Game`): `ValidInput`, `NumToWord`, and the class
  `Minesweeper` with `NewBoard` and the primary and secondary clicks.

The board invariant `Valid()` has five parts:

- width and height are at most 127 and there are at most 255 mines, so the
  `u8` fields and the `i8` neighbour arithmetic never truncate;
- the grid has `height` rows of `width` tiles;
- exactly `mines` tiles are mines;
- `flags` equals the number of flagged tiles;
- every tile's `adjacentMines` is the number of mines among its in-bounds neighbours.

The constructor establishes `Valid()`, and every public board method keeps it.
The reveal `SelectTile` is recursive, like `select_tile`, and terminates because
each call reveals a hidden tile first. Its contract has three parts:

- only hidden tiles are revealed, and no other field changes;
- the revealed tiles are exactly what the start uncovers (`FloodSpan`);
- no tile but the start can be a mine.

As a result, the recursive calls never find a mine, and the "mine found"
branch of `select_tile` (`src/objs.rs:114-116`) is dead code.

The random mine placement of `place_mines` becomes a choice of any tile that is
not yet a mine: there, a random draw that hits a mine changes nothing.

The model follows what the code does, including these points:

- `select_tile` never reads `is_flagged` (`src/objs.rs:89-100`), so a left click
  on a flagged hidden tile reveals it;
- `flag_tile` has no flag limit (`src/objs.rs:123-136`), so flags are not
  bounded by the number of mines;
- the `Board` of `src/objs.rs` has no score, timer or `pure_random` placement,
  although `src/minesweeper.rs:89`, `145` and `150` refer to them.

## Model

| member | source | states |
|---|---|---|
| Grid.AdjacentMines | src/objs.rs:62-80 | the number of mines among the in-bounds neighbours of a tile, the tile itself excluded, is at most 8 |
| Grid.ZeroAdjacentIffNoMine | src/objs.rs:62-81 | a zero count and having no mine among the in-bounds neighbours are equivalent, both ways |
| Grid.SameMinesAdjacent | src/objs.rs:59-84 | two grids with the same mines have the same counts everywhere, so revealing or flagging never invalidates them |
| Grid.GridCountUpdate | src/objs.rs:130-135 | replacing one tile changes a count of mines, flags or hidden tiles by exactly that tile's contribution |
| Grid.GridCountMono | src/objs.rs:150-158 | if every tile with a property in the second grid has it in the first, the second grid's count is no larger |
| Grid.GridCountBound | src/objs.rs:46-57 | a count is at most width × height, and below that some tile lacks the property, so placement can always find a free tile |
| Grid.GridCountZero | src/objs.rs:46-57 | a count of zero means no tile has the property, so a board built with no mines has none |
| Flood.ReachStart | src/objs.rs:95 | a hidden start uncovers itself |
| Flood.ReachHidden | src/objs.rs:90-93 | only hidden, in-bounds tiles are uncovered, so a revealed start uncovers nothing |
| Flood.ReachClosedStart | src/objs.rs:96-100 | a start that is a mine or has a mine around it uncovers only itself |
| Flood.ReachPrepend | src/objs.rs:100-117 | what a neighbour of an opening start uncovers on a later grid, the start uncovers on the earlier one |
| Flood.PathNewly | src/objs.rs:100-117 | along a flood path from a revealed start, every tile is newly revealed once revealing is closed |
| Flood.FloodComplete | src/objs.rs:100-119 | once the start is revealed and every newly revealed opening tile has its neighbours revealed, everything the start uncovers is revealed |
| Flood.FloodSafe | src/objs.rs:100-119 | with exact counts, no uncovered tile but the start is a mine |
| Flood.NeighbourSafe | src/objs.rs:107-114 | with exact counts, the neighbours of an opening tile are safe on every later grid, so a recursive call never reports a mine |
| Flood.ReachOpenGrid | src/objs.rs:100-119 | on a grid where every tile is hidden, safe and without adjacent mines, revealing any tile uncovers every tile |
| Objs.RevealingConsistent | src/objs.rs:95 | revealing tiles keeps the mine count, the flag counter and the counts exact, and never adds a hidden tile |
| Objs.ToggleFlagTwice | src/objs.rs:123-136 | toggling the same tile twice restores the grid |
| Objs.ToggleFlagCount | src/objs.rs:130-135 | a toggle moves the number of flagged tiles by one in the direction of the new flag, and a flagged tile means the count is at least one, so the decrement cannot underflow |
| Objs.ToggleFlagKeepsWon | src/objs.rs:138-148 | the win test ignores flags: toggling one never changes it |
| Objs.ExposesIdempotent | src/objs.rs:150-158 | revealing all mines a second time changes nothing |
| Objs.ExposesKeepsWon | src/objs.rs:150-158 | revealing all mines does not change whether the game is won |
| Objs.ExposesAfterReveal | src/objs.rs:95-97 | revealing a clicked mine and then all mines is the same as revealing all mines |
| Objs.NeighbourStep | src/objs.rs:101-117 | one pass of the neighbour loop keeps every new tile uncovered by the start and adds the neighbour to those revealed |
| Objs.RevealStart | src/objs.rs:95 | revealing the hidden start keeps the board invariant, lowers the number of hidden tiles, and starts the reveal's progress |
| Objs.FloodDone | src/objs.rs:100-120 | once every neighbour of an opening start is revealed, the new tiles are exactly what the start uncovers, and none but the start is a mine |
| Objs.Board.constructor | src/objs.rs:17-44 | `height` rows of `width` tiles, all hidden and unflagged, exactly `mines` mines, exact counts, no flags |
| Objs.Board.PlaceMines | src/objs.rs:46-57 | exactly `mines` tiles become mines, and nothing but `isMine` changes |
| Objs.Board.CountAdjacent | src/objs.rs:62-80 | the offset loops count exactly the mines among the in-bounds neighbours |
| Objs.Board.CalculateAdjacentMines | src/objs.rs:59-84 | every tile's count becomes the exact number of adjacent mines, and nothing else changes |
| Objs.Board.SelectTile | src/objs.rs:89-121 | a revealed tile: false and no change. A hidden mine: exactly that tile revealed and true. Otherwise false, and the newly revealed tiles are exactly those the start uncovers, none of them a mine. The board invariant holds, and no field but `isRevealed` changes |
| Objs.Board.FlagTile | src/objs.rs:123-136 | a revealed tile: no change. Otherwise the flag is toggled and the counter moves by one to match. The board invariant holds |
| Objs.Board.IsWin | src/objs.rs:138-148 | true exactly when every safe tile is revealed; changes nothing |
| Objs.Board.OnLost | src/objs.rs:150-161 | every mine is revealed, every other tile and the counters are unchanged |
| Objs.Board.GetMines | src/objs.rs:163-165 | the mine count, which is the number of mine tiles and at most width × height |
| Objs.Board.GetFlags | src/objs.rs:167-169 | the flag counter, which is the number of flagged tiles |
| Objs.Board.GetHeight | src/objs.rs:171-173 | the number of rows |
| Objs.Board.GetWidth | src/objs.rs:175-177 | the length of every row |
| Objs.Board.GetTile | src/objs.rs:179-181 | the tile at (x, y), whose count is its exact number of adjacent mines |
| Game.ValidInput | src/minesweeper.rs:21-31 | false exactly when the board is narrower or shorter than 3 or has no tile left over for a safe one |
| Game.ValidInputLeavesSafeTile | src/minesweeper.rs:26-30 | a board built from an accepted input has at least one safe tile |
| Game.NumToWord | src/minesweeper.rs:33-48 | counts 0 to 8 give their lowercase English word; every other value gives "zero" |
| Game.NumToWordInjective | src/minesweeper.rs:33-48 | different counts from 0 to 8 give different words |
| Game.NumToWordIsTexture | src/texturedb.rs:36-47 | every word is one of the loaded texture names, and none is "base", "flag" or "mine" |
| Game.TileWord | src/minesweeper.rs:182-183 | on a valid board, a tile's word is that of its exact count, never the fallback |
| Game.RevealingKeepsWon | src/minesweeper.rs:199-202 | revealing tiles never undoes a win |
| Game.MineFreeClickWins | src/minesweeper.rs:199-201 | on a fresh board with no mines, the first reveal uncovers every tile and the game is won |
| Game.Minesweeper.constructor | src/minesweeper.rs:115-130 | a 10 × 10 board with 10 mines, no game over, no win, not started, custom form 10/10/10 |
| Game.Minesweeper.NewBoard | src/minesweeper.rs:88-93 | a fresh valid board of the given size, with no game over, no win, the game started, and the form kept |
| Game.Minesweeper.PromptForNewGame | src/minesweeper.rs:95-98 | the game is no longer started; nothing else changes |
| Game.Minesweeper.UpdateCustomBoard | src/minesweeper.rs:100-104 | the form holds the given values; nothing else changes |
| Game.Minesweeper.StartCustomGame | src/minesweeper.rs:274-281 | an accepted form starts a game on a fresh board of its size, all tiles hidden and unflagged, with a safe tile; a refused form changes nothing |
| Game.Minesweeper.PrimaryClick | src/minesweeper.rs:199-206 | game over exactly when the clicked tile was a hidden mine, and then every mine is revealed and nothing else. Won exactly when every safe tile is revealed, and a won game stays won. Otherwise the reveal uncovers exactly what the tile uncovers, and no mine |
| Game.Minesweeper.SecondaryClick | src/minesweeper.rs:208-210 | only the flag of the tile is toggled, with the counter, as the board's flag toggle does |

## Left out

- Randomness: `rand::random` (`src/objs.rs:49-50`) becomes an arbitrary choice of a tile that is not a mine. The `%` reduction of the draws, the draws that hit a mine, and the termination of the random loop are not modelled.
- Machine integers: the `as u8` casts of the board's size and mine count (`src/objs.rs:34-36`) and the `as i8` neighbour arithmetic (`src/objs.rs:69-70`, `107-108`) are kept free of truncation by requiring width and height of at most 127 and at most 255 mines. The model does not describe what a larger custom board would do.
- Objs.Board.FlagTile: the flag counter is an unbounded natural number. The `u8` overflow of `flags += 1` after 255 flags on a board with more than 255 tiles is not modelled.
- Game.ValidInput: the `usize` overflow of `width * height` for huge inputs is not modelled.
- `print_board` and the `println!` calls (`src/objs.rs:86-87`, `115`, `126`, `160`) are output only.
- The egui rendering, the textures, `get_tint`, the window sizes (floating point) and the egui button gating are not modelled. The gating is `add_enabled(!is_game_over)` around the click handler. `Game.Minesweeper.PrimaryClick` does not require the game to be running.
- The custom form's text parsing, where a failed parse becomes 10 (`src/minesweeper.rs:267-269`), is not modelled. `UpdateCustomBoard` takes the parsed numbers.
- The "mines remaining" display `get_mines() - get_flags()` (`src/minesweeper.rs:160`) is rendering code. It is not modelled, although nothing bounds the flags by the mines.
- `new_board` (`src/minesweeper.rs:89`) and `Default` (`src/minesweeper.rs:119`) pass a fourth argument to `Board::new` (`self.pure_random` and `false`), and `update` reads `board.score`, `start_time` and `end_time` (`src/minesweeper.rs:145`, `150-151`). The `Board` of `src/objs.rs` has none of these, so the model builds the board of `src/objs.rs`. The `pure_random` toggle (`src/minesweeper.rs:82-84`, `236`) is left out with it.
- Objs.Board.constructor: requires `mines <= width * height`. With more mines than tiles, the loop `while mines_placed < self.mines` of `place_mines` (`src/objs.rs:48-56`) never ends, and the model does not describe that case. No caller reaches it: the presets are 10/10/5, 15/15/30 and 25/25/50 (`src/minesweeper.rs:244`, `250`, `256`), `Default` builds 10/10/10 (`src/minesweeper.rs:119`), and the custom form passes only what `validate_input` accepts (`src/minesweeper.rs:278-279`).
- `src/texturedb.rs`, `build.rs` and `src/main.rs` are file I/O and window set-up, not part of this model. The one exception is the list of texture names loaded at `src/texturedb.rs:36-47`, which `Game.TextureNames` lists.

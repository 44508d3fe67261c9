# Minesweeper game engine in Dafny

A verified model of the game-state engine of a single-player Minesweeper game (`impl Game` in
`src/lib.rs`). The board is a row-major sequence of tiles. Each tile records whether it is
mined, hidden or flagged ("marked") and its own index. The game tracks the board, whether it has
ended, its outcome (`Won`, `Lost`, `InProgress`) and the running flag count `marked_count`.

The model has three modules, one per layer of the engine:

- `Grid` (`grid.dfy`) holds coordinates and neighbours. It converts between a linear index and a
  (row, column) pair. `Neighbours` is the eight-way neighbourhood, built by the same guarded
  pushes in the same order as the source. It is proved to hold the same tiles as an independent
  definition: every tile on the board at most one row and one column away, other than the tile
  itself. It is also proved to list no tile twice.
- `Board` (`board.dfy`) holds tiles and hints. It defines counting by flag and the
  classification `Classify` (`mine_or_hint`), a fold over the neighbours. It also defines the
  empty board (`GenEmpty`, a push loop) and the effect of `reveal_all_mines` on a board.
- `Engine` (`engine.dfy`) holds the game as a class. Its methods update fields in place:
  `board`, `hasEnded`, `winstate` and `markedCount`. They are placing mines, revealing all mines,
  mark, unmark, `unmark_and_unhide`, the recursive cascade `reveal_empty_and_neighbouring_tiles`,
  guess, and the `has_ended` gating of `update`.

The object invariant `Game.Valid` says five things:

- the board has `width * height` tiles;
- every tile sits at its own index;
- a flagged tile is hidden, since the playfield panics on a revealed flagged tile;
- `marked_count` is at least the number of flagged tiles, so unmark never takes it below zero;
- a game that has ended has an outcome.

`Game.Surplus` is how far `marked_count` exceeds the number of flagged tiles. A game started from
the menu has surplus 0, and every operation except the as-written Reset keeps it. So in a game
started from the menu, `marked_count` equals the number of flagged tiles throughout. Reset as
written keeps the old count on a board without flags. In the game it starts, the count is off by
that carried surplus throughout (see Findings).

The cascade recurses only from a tile it has just revealed, so it is proved to terminate on the
number of hidden tiles. Its contract says five things:

- it only reveals tiles, and never reveals or changes a mine;
- every zero-hint neighbour of the start tile ends up revealed;
- with `check`, every safe neighbour ends up revealed;
- every zero-hint tile it reveals ends with its whole neighbourhood revealed;
- it reveals nothing else (`MayReveal`). A tile it reveals is either a neighbour of the start
  tile that passes one of the loop's three tests, or a neighbour of the last tile of a chain of
  zero-hint tiles from the start tile, each a neighbour of the one before.

A guess reveals the guessed tile and otherwise only safe tiles that the cascade from it may
reveal, plus the mines not flagged before the guess once the game ends; flagged mines stay
hidden and flagged (`Guessed`). For example, on a 3 x 3 board
with its mine in the centre, guessing a corner reveals that corner and nothing else.

The model follows the code where it departs from the usual rules of the game:

- A guess on a mine still runs the cascade. The cascade then reveals nothing, because no
  neighbour of a mine has a zero hint.
- `reveal_all_mines` skips flagged mines on a win as well as on a loss.
- A guess on a tile with a positive hint still cascades through its zero-hint neighbours.
- Mark, unmark and guess check nothing themselves. Their preconditions are the tile states in
  which the playfield offers those actions.
- Reset keeps the outcome and the flag count of the previous game (see Findings).

## Model

| member | source | states |
|---|---|---|
| Grid.PairToIndex | src/lib.rs:180-182 | the tile at row i, column j lies among the width indices of row i |
| Grid.IndexToPair | src/lib.rs:183-187 | the column is below the width and the pair maps back to the same index |
| Grid.PairRoundTrip | src/lib.rs:180-187 | for a column below the width, converting (row, column) to an index and back gives the same pair |
| Grid.IndexRoundTrip | src/lib.rs:180-187 | an index below width * height has a row below the height and converts back to itself |
| Grid.PairInBoard | src/lib.rs:180-182 | a row below the height and a column below the width give an index on the board |
| Grid.CanStepInRange | src/lib.rs:144-177 | for a coordinate in range, each guard of `neighbours` holds exactly when the step stays in range |
| Grid.OffsetsAreTheEightSteps | src/lib.rs:142-179 | the eight steps tried by `neighbours` are exactly the non-zero steps of at most one row and one column |
| Grid.Neighbours | src/lib.rs:142-179 | at most eight neighbours |
| Grid.NeighboursSpec | src/lib.rs:142-179 | for a tile on the board, a tile is a neighbour exactly when it is on the board, different and at most one row and one column away |
| Grid.NeighbourIsAdjacent | src/lib.rs:142-179 | every neighbour is on the board and adjacent |
| Grid.AdjacentIsNeighbour | src/lib.rs:142-179 | every adjacent tile on the board is a neighbour |
| Grid.NeighboursBounded | src/lib.rs:142-179 | all neighbours are below width * height |
| Grid.NeighboursDistinct | src/lib.rs:142-179 | no neighbour is listed twice |
| Grid.NeighboursSymmetric | src/lib.rs:142-179 | on the board, b is a neighbour of a exactly when a is a neighbour of b |
| Grid.CandidatesDistinct | src/lib.rs:142-179 | distinct steps give distinct neighbour indices |
| Board.Classify | src/lib.rs:188-201 | `Mine` exactly when the tile is mined; otherwise a hint equal to the number of mined neighbours, at most 8 |
| Board.CountMined | src/lib.rs:190-197 | the fold adds at most one per listed neighbour |
| Board.CountMinedIsCard | src/lib.rs:190-197 | the fold over distinct neighbours counts exactly the set of mined neighbours |
| Board.HintCountsAdjacentMines | src/lib.rs:188-201 | the hint of a safe tile is the number of mined tiles adjacent to it by coordinates |
| Board.ClassifyFrame | src/lib.rs:188-201 | the classification depends only on where the mines are |
| Board.ZeroHintNeighbourSafe | src/lib.rs:188-201 | no neighbour of a zero-hint tile is mined |
| Board.MineNeighbourNotZero | src/lib.rs:252-256 | no neighbour of a mine has a zero hint, so the cascade after a mine hit opens nothing from the mine |
| Board.GenEmpty | src/lib.rs:203-214 | width * height tiles, tile k has index k and is hidden, unflagged and unmined; no mine, no flag, all hidden |
| Board.CountSampled | src/lib.rs:216-224 | a board mined exactly on distinct sampled indices has as many mines as the sample has indices |
| Board.CountUpdate | src/lib.rs:236-246 | replacing one tile changes a count by the difference of what the old and new tile contribute |
| Board.MinesShownSpec | src/lib.rs:226-235 | revealing all mines reveals exactly the unflagged mines and keeps layout, flags, flag count and well-formedness |
| Board.MinesShownIdempotent | src/lib.rs:226-235 | revealing all mines twice equals revealing them once |
| Engine.Game.Start | src/lib.rs:349-357 | a fresh board mined exactly on the sample, nothing flagged, mine count as asked, in progress, flag count 0 |
| Engine.Game.SetMines | src/lib.rs:216-224 | the sampled tiles become mined and nothing else changes |
| Engine.Game.RevealAllMines | src/lib.rs:226-235 | the new board is the old board with every unflagged mine revealed; invariant and flag surplus kept |
| Engine.Game.Mark | src/lib.rs:236-240 | the tile becomes flagged and the count rises by one; the count stays exact |
| Engine.Game.Unmark | src/lib.rs:242-246 | the flag is removed and the count falls by one; the count stays exact |
| Engine.MarkThenUnmark | src/lib.rs:236-246 | mark then unmark on a hidden unflagged tile restores the board and the flag count |
| Engine.Game.UnmarkAndUnhide | src/lib.rs:288-293 | the tile is revealed and unflagged; the count falls only when a flag was cleared; hidden tiles fall by one if it was hidden |
| Engine.Game.RevealEmptyAndNeighbouring | src/lib.rs:268-286 | terminates; only reveals; mines untouched; zero-hint neighbours revealed; with check all safe neighbours revealed; every zero-hint tile revealed has its neighbourhood revealed; every tile revealed is one the cascade may reveal (`MayReveal`); from a mine without check nothing changes |
| Engine.Game.VisitNeighbour | src/lib.rs:270-284 | one hidden neighbour: revealed if it has a zero hint, if check and safe, or if the origin has a zero hint, and left unchanged with the whole board when none of the three holds; everything it reveals is one the cascade from the origin may reveal |
| Engine.Game.OpenNeighbour | src/lib.rs:271-278 | a zero-hint neighbour is revealed and cascaded from; with check a safe neighbour is revealed; otherwise (a mine, or a positive hint without check) nothing changes; besides the neighbour it reveals only what the cascade from a zero-hint neighbour may reveal |
| Engine.ChainExtends | src/lib.rs:271-275 | what the recursive cascade from a zero-hint neighbour may reveal, the cascade from the origin may reveal |
| Engine.CascadeFromBounded | src/lib.rs:271-275 | unmark_and_unhide on a zero-hint neighbour and the recursive cascade from it reveal that neighbour and otherwise only what the cascade from it may reveal |
| Engine.MayRevealFrame | src/lib.rs:268-286 | what the cascade may reveal depends only on where the mines are, not on what is revealed |
| Engine.VisitBounded | src/lib.rs:270-284 | one visit reveals only tiles the cascade from the origin may reveal |
| Engine.CascadeDone | src/lib.rs:268-286 | a pass over all neighbours establishes the cascade's guarantees about the start tile |
| Engine.Game.Guess | src/lib.rs:248-266 | `Guessed`: the tile is revealed; the safe tiles revealed besides it are ones the cascade may reveal; a mine stays hidden (and flagged) exactly when it was hidden, is not the tile, and was flagged before the guess or the game goes on; a mine gives Lost and ended, unless all safe tiles are revealed, which gives Won; a guess on a mine changes no safe tile; other outcomes unchanged; zero-hint neighbourhoods opened |
| Engine.AllSafeRevealed | src/lib.rs:258-260 | the win test: every tile without a mine is revealed |
| Engine.Game.StepOn | src/lib.rs:249-255 | the tile is revealed; on a mine the unflagged mines are revealed and the game is lost |
| Engine.Game.CheckWon | src/lib.rs:258-265 | when every safe tile is revealed the unflagged mines are revealed and the game is won; otherwise nothing changes |
| Engine.GuessReveals | src/lib.rs:248-266 | a guess only reveals tiles, reveals the guessed tile, and on a mine changes no safe tile |
| Engine.GuessHidesMines | src/lib.rs:248-266 | after a guess a mine is hidden exactly when it was hidden, is not the guessed tile, and was flagged before the guess or the game goes on |
| Engine.GuessOpens | src/lib.rs:248-266 | after a guess the zero-hint neighbours of the guessed tile and of every zero-hint tile revealed are revealed |
| Engine.GuessBounded | src/lib.rs:248-266 | a guess reveals no safe tile other than the guessed one that the cascade from it may not reveal |
| Engine.NothingBesideCornerMine | src/lib.rs:188-201 | with the only mine diagonal to corner tile 0, tile 0 and its neighbours all have a positive hint or a mine, so the cascade from 0 may reveal nothing |
| Engine.GuessBesideCornerMine | src/lib.rs:248-286 | guessing that corner reveals it and no other tile changes; the game goes on, with its outcome and flag count kept |
| Engine.GuessCornerOfThreeByThree | src/lib.rs:248-286 | on a 3 x 3 board with the mine at tile 4, guessing tile 0 leaves every other tile hidden and the game not ended |
| Engine.GuessOnAllMines | src/lib.rs:248-266 | on a board of mines only, a guess ends the game as won |
| Engine.Game.Reset | src/lib.rs:364-368 | as written: a fresh mined board and has_ended cleared; outcome and flag count kept, so the surplus becomes the old count |
| Engine.StaleStateAfterReset | src/lib.rs:364-368 | after flag, loss and reset the counter shows one flag on a board with none, and the outcome still reads Lost |
| Engine.Game.Restart | src/lib.rs:364-368 | corrected Reset: a fresh mined board, in progress, flag count 0 and exact |
| Engine.Game.Admissible | src/lib.rs:403-429 | the playfield offers left click and right click on a hidden unflagged tile, and both clicks on a flagged tile |
| Engine.Game.Update | src/lib.rs:364-375 | Reset builds a fresh mined board and clears has_ended, keeping outcome and flag count; after the game has ended tile messages change nothing; otherwise they unmark or mark (board and count exact, ended flag and outcome kept), or guess with every guarantee of `Guessed` |

## Left out

- The iced application plumbing is not modelled: `new`, `title`, `view`, `theme`, `playfield`, `menu`, `centralize_tile_content` and `icon`. It is presentation only.
- The `GotoMenu`, `StartPressed`, `Input*` and `FontLoaded` arms of `update` are not modelled. They are menu and UI flow. `Engine.Game.Start` stands for a new game followed by `StartPressed` with parsed inputs.
- `text_with_varied_colors` is not modelled. It is floating-point colour arithmetic for display.
- The random sampler (`rand::seq::index::sample` with `thread_rng`) is not modelled. Its result is an input: a sequence of distinct indices below width * height (`Board.Sample`).
- Menu input parsing with `parse().unwrap()` and font loading are not modelled. They are string I/O and resource loading.
- The `Display` implementation of `Winstate` and the commented-out text renderer are not modelled.
- Integer widths are not modelled. `marked_count` is a `u32` and indices are `usize`; here both are unbounded naturals. In a game started from the menu the count is exact, so it is at most width * height (every tile may be flagged). Reset as written carries the count into the next game on top of that game's own flags, so it can grow by up to width * height per game; wrapping past 2^32 would take more than 2^32 flag actions. A hint is a `u8` in the source and is proved to be at most 8.
- Panics become preconditions and invariants. `width == 0` would divide by zero: `Grid.Neighbours` and `Grid.IndexToPair` require a positive width. Unmarking at count 0 would underflow: excluded by `Valid`. The playfield's `panic!()` on a revealed flagged tile: excluded by `Valid` (flagged implies hidden). `rand::seq::index::sample` panics when `mine_count` exceeds width * height (src/lib.rs:217-221, reached from StartPressed and Reset): `Game.Start` and `Game.Reset` take a sample of exactly `mine_count` distinct indices below width * height, which excludes that case.
- Engine.Game.Mark: requires a hidden, unflagged tile, which the source does not check; the playfield sends `HiddenRightClick` only for such tiles.
- Engine.Game.Unmark: requires a flagged tile, which the source does not check; the playfield sends `MarkedPressed` and `MarkedRightClick` only for such tiles.
- Engine.Game.Guess: requires an unflagged tile, which the source does not check; the playfield sends `EmptyPressed` only for hidden unflagged tiles.
- Engine.Game.Update: requires the message to be one the playfield can send in the current state (`Admissible`). Its Reset arm is the code as written; `Engine.Game.Restart` is the corrected Reset (see Findings).
- The depth of the cascade's recursion on the call stack is not modelled.

## Findings

| source | as written | input that shows it | evidently intended | confidence | as-written member | corrected member |
|---|---|---|---|---|---|---|
| src/lib.rs:364-368 | Reset rebuilds the board and clears `has_ended` but keeps `winstate` and `marked_count`, which the status bar shows (src/lib.rs:480-481) | a board one row high and at least two wide, mine on tile 0: flag tile 1, guess tile 0, press Reset; the new game shows one flag with none placed and still reads "You lost!" | a fresh game, as `new` builds it: `winstate` InProgress and `marked_count` 0 | not executed | Engine.StaleStateAfterReset | Engine.Game.Restart |

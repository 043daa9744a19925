# Minesweeper rule engine in Dafny

This project models the rule engine of a Minesweeper game, the `Minesweeper`
struct of `src/minesweeper.rs`, and proves what its operations promise.

The engine keeps a `height` x `width` grid `mines`, indexed `[y][x]`. A mine is
stored as `-1`; every other tile stores the number of mines around it. The
engine also keeps a list of flagged points, a list of revealed points, the
number of mines and a game state `Playing`, `Win` or `Lose`.

The model is imperative where the engine is:

- `class Minesweeper` has the struct's fields.
  - The grid is a constant `array2<int>`, filled in place by the constructor.
  - `flags` and `revealed` are `seq<Point>` fields that the methods reassign.
  - A ghost constant `mineSet` holds the sampled mine positions and ties the
    grid to them.
- `new` becomes the constructor. It is built from three parts:
  - the rejection-sampling loop `SamplePositions`;
  - the placement loop `PlaceMines`;
  - the increment loop over neighbours `BumpNeighbors`.
- `reveal_tile` becomes `RevealTile`. It is one of six mutually recursive
  methods; the other five are:
  - `Uncover` reveals the tile or chords it;
  - `Flood` handles a zero tile;
  - `RevealNeighbors` is the neighbour loop shared by both paths;
  - `Visit` and `VisitNext` are one turn of that loop.
- Termination is argued by a lexicographic measure. Its first part is the
  number of safe tiles still hidden. Its second part is a rank that
  depends on whether the tile is already revealed.
- `neighbors` becomes the method `Geometry.Neighbors`, with its nested
  `dx`/`dy` loops. It is proved equal to the function `NeighborList`. That
  list is proved to hold exactly the on-board tiles at Chebyshev
  distance 1.
- The read-only queries become functions over the object's fields.

Two predicates state the object invariant:

- `BoardValid` says that the grid labels the board for `mineSet`:
  - `-1` on each mine;
  - the number of mine neighbours on every other tile.
- `PlayValid` says three things about the lists and the state:
  - `revealed` and `flags` hold no duplicates;
  - revealed tiles are on the board, safe and unflagged;
  - `Win` holds only with every safe tile revealed.

The engine does not look at the game state. `reveal_tile` and `toggle_flag`
act after a win or a loss as well; only the caller in `src/main.rs` stops
play. The model follows the engine, so `Win` and `Lose` are not terminal here.

The reveal cascade is characterised by five properties:

- `Grown`: every tile a call reveals is one of its roots or touches a zero
  tile revealed earlier in the same call. The root is the target itself when
  it was hidden, and the target's neighbours when it was already revealed
  (the chord and flood paths).
- A call on an already revealed tile changes nothing when the tile is
  neither chord-ready nor a zero tile.
- `FloodClosed`: every zero tile the call reveals ends with all its
  neighbours revealed or flagged.
- A chord on a tile with as many flagged neighbours as its number leaves
  every neighbour revealed, flagged or a mine.
- The final state is one of:
  - `Lose` exactly when the tile is an unflagged mine, or a chord reaches an
    unflagged mine;
  - otherwise `Win` exactly when the call revealed the last safe tile;
  - otherwise unchanged.

The reason a losing chord can never also win is that it implies a flag on a
safe tile, which stays hidden.

## Model

`Game.Toggled` (the flag list after `toggle_flag`) and `Seqs.Without` (the
`retain` at line 111) are specification functions without a contract of
their own. `ToggledSpec`, `ToggleTwice` and `WithoutSpec` state their
properties, and `ToggleFlag`'s contract uses `Toggled`.

| member | source | states |
|---|---|---|
| Geometry.Neighbors | src/minesweeper.rs:166-181 | the nested offset loops build exactly `NeighborList(p)`, in the engine's `dx`-outer, `dy`-inner order |
| Geometry.NeighborListSpec | src/minesweeper.rs:166-181 | the neighbour list holds a tile iff it is on the board at Chebyshev distance 1; it never holds `p`, has no duplicates and at most 8 entries |
| Geometry.NeighborSymmetric | src/minesweeper.rs:166-181 | on the board, `q` is a neighbour of `p` iff `p` is a neighbour of `q` |
| Geometry.CellsCard | src/minesweeper.rs:75 | a `width` x `height` board has `width * height` tiles |
| Game.SamplePositions | src/minesweeper.rs:22-31 | the loop returns `numMines` distinct points, all drawn from the samples; they are the first distinct draws up to the draw that completed the set |
| Game.SafeCellsRevealed | src/minesweeper.rs:72-78 | a duplicate-free list of safe on-board tiles has at most `width * height` minus the number of mines entries, and has exactly that many iff it holds every safe tile |
| Game.PlaceMines | src/minesweeper.rs:43-51 | starting from an all-zero grid, placing distinct in-bounds mines leaves every tile labelled: `-1` on a mine, otherwise its number of mine neighbours |
| Game.LabelledEmpty | src/minesweeper.rs:37 | an all-zero grid is the correct labelling of a board without mines |
| Game.PlaceMine | src/minesweeper.rs:44-50 | placing one new mine on a labelled grid yields the labelling with that mine added |
| Game.BumpNeighbors | src/minesweeper.rs:46-50 | every listed non-mine tile gains exactly 1; mines and unlisted tiles are unchanged |
| Game.LabelGrow | src/minesweeper.rs:44-50 | adding a mine raises a non-mine tile's label by 1 iff the tile is adjacent to the new mine |
| Seqs.WithoutSpec | src/minesweeper.rs:111 | the `retain` that unflags `x` keeps exactly the entries other than `x`, keeps a duplicate-free list duplicate-free, and changes nothing when `x` is absent |
| Seqs.WithoutAppend | src/minesweeper.rs:111 | that `retain` works entry by entry: on a concatenation it is the concatenation of the two results |
| Game.ToggledSpec | src/minesweeper.rs:103-113 | a toggle flips the flag of `c` unless `c` is revealed; every other point keeps its flag; the list stays duplicate-free; a new flag adds one entry |
| Game.ToggleTwice | src/minesweeper.rs:103-113 | toggling the same point twice restores the set of flags, and the list itself when the point was unflagged |
| Game.Minesweeper.constructor | src/minesweeper.rs:21-54 | the object invariant holds: exactly `numMines` distinct in-bounds mines, labelled grid; flags and revealed are empty, state `Playing`; the mines are the first `numMines` distinct samples |
| Game.Minesweeper.OutOfBounds | src/minesweeper.rs:162-164 | true iff the point is off the board |
| Game.Minesweeper.MineCount | src/minesweeper.rs:115-121 | 0 off the board, -1 on a mine, otherwise the number of mine neighbours, between 0 and 8 |
| Game.Minesweeper.IsMine | src/minesweeper.rs:135-140 | true iff the point is a mine; false off the board |
| Game.Minesweeper.IsFlagged | src/minesweeper.rs:142-148 | true iff the point is on the board and flagged; a flagged tile is never revealed |
| Game.Minesweeper.IsRevealed | src/minesweeper.rs:150-156 | true iff the point is revealed; a revealed tile is on the board, safe and unflagged |
| Game.Minesweeper.TotalFlags | src/minesweeper.rs:123-125 | the number of distinct flagged points, off-board ones included |
| Game.Minesweeper.TotalMines | src/minesweeper.rs:127-129 | the number of mines on the board |
| Game.Minesweeper.TotalRevealed | src/minesweeper.rs:131-133 | the number of distinct revealed tiles; never more than the safe tiles, and equal to that number iff every safe tile is revealed |
| Game.Minesweeper.CurrentState | src/minesweeper.rs:158-160 | the stored state; `Win` only when every safe tile is revealed |
| Game.Minesweeper.ToggleFlag | src/minesweeper.rs:103-113 | keeps the invariant; changes only the flags, to the toggled list; a revealed point is a no-op; an off-board point is stored and counted by `TotalFlags` while `IsFlagged` stays false |
| Game.Minesweeper.RevealTile | src/minesweeper.rs:56-101 | keeps the list invariants and the flags; `revealed` only grows and gains the tile iff it is on the board, unflagged and safe; the state becomes `Lose` iff the tile is an unflagged mine or its chord reaches an unflagged mine, else `Win` iff the last safe tile was revealed, else unchanged; the cascade is `Grown` and `FloodClosed`; a chord covers every neighbour; an already revealed tile that is neither chord-ready nor a zero tile leaves `revealed` and the state unchanged |
| Game.Minesweeper.Uncover | src/minesweeper.rs:71-90 | a hidden tile is appended and a win checked; a revealed tile with a matching flag count is chorded, every neighbour ending revealed, flagged or a mine; a losing chord implies a flag on a safe tile; a revealed tile whose flag count does not match leaves `revealed` and the state unchanged |
| Game.Minesweeper.Flood | src/minesweeper.rs:92-100 | a zero tile ends with all neighbours revealed or flagged, and the flood never loses; any other tile is left unchanged |
| Game.Minesweeper.RevealNeighbors | src/minesweeper.rs:83-99 | each neighbour ends revealed, flagged or a mine; the state is `Lose` iff some neighbour is an unflagged mine, else `Win` iff the last safe tile was revealed |
| Game.Minesweeper.VisitNext | src/minesweeper.rs:83-88 | one turn of the neighbour loop extends its progress from `i` neighbours to `i + 1` |
| Game.Minesweeper.Visit | src/minesweeper.rs:84-87 | a neighbour that is neither revealed nor flagged gets revealed; it loses iff it is a mine |
| Game.Minesweeper.WrongFlagBlocksWin | src/minesweeper.rs:72-78 | while a safe tile carries a flag, not every safe tile is revealed, so no win is possible |
| Game.Minesweeper.ChordHitWrongFlag | src/minesweeper.rs:80-81 | around a tile with no more mines than flags, an unflagged mine means a flag sits on a safe tile |
| Game.Minesweeper.SweepStep | src/minesweeper.rs:83-88 | one visit keeps the loop invariant: neighbours covered, the loss recorded, the win recorded only on the last safe tile, the cascade `Grown` and `FloodClosed` |
| Game.Minesweeper.SweptAll | src/minesweeper.rs:83-88 | after the last turn every neighbour is covered, and the state is `Lose` iff some neighbour is an unflagged mine |
| Game.Minesweeper.RevealCompose | src/minesweeper.rs:56-101 | uncovering followed by flooding has the effect `reveal_tile` promises |
| Game.Minesweeper.GrownCompose | src/minesweeper.rs:93-100 | two successive cascade stretches compose into one that stays within the flooded region |
| Game.Minesweeper.GrownFromZero | src/minesweeper.rs:93-100 | a cascade started from the neighbours of a zero tile, with that tile in front, is a cascade rooted at that tile |
| Game.Minesweeper.FloodClosedCompose | src/minesweeper.rs:93-100 | two successive stretches that each close their zero tiles close all of them |

## Left out

- `src/main.rs` is not part of this model:
  - the window, textures, drawing and input;
  - the `from_screen`/`to_screen` pixel arithmetic;
  - the timer;
  - the spawn-protection restart;
  - the "only while Playing" guard.
- `gen_range` is randomness. The random draws are the constructor's `samples` input, each on the board.
- Game.SamplePositions requires that the draws contain at least `numMines` distinct points. Without that, the source's loop never ends.
- The `println!` of the configuration hash at line 33 is console output only.
- `i8` grid values and the `as i8` flag count at line 80 are modelled as `int`. All of these values lie between -1 and 8, so no wrap-around happens.
- The `as i32` casts in `neighbors` (lines 173-174) are modelled as exact. Coordinates beyond the `i32` range are not modelled.
- The `Vec<Vec<i8>>` grid is an `array2`. All rows have the same length, as `vec!` builds them.
- The constructor requires `width >= 1` and `height >= 1`, because `mines[0]` is indexed.
- The constructor requires `numMines <= width * height`.
- Game.Minesweeper.RevealTile ensures only `PlayValid()` rather than the whole invariant. The board half, `BoardValid()`, reads only the grid array, which the method does not modify, so callers keep it. The same holds for Uncover, Flood, RevealNeighbors, VisitNext and Visit.

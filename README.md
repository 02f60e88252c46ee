# Chess-game preprocessing into a training dataset (Dafny model)

This project models `preprocess.py`, the core of a tool that turns recorded
chess games into a supervised-learning dataset. For each game it:

- samples one position;
- encodes that position, its parent and a random legal successor of the
  parent as 64 signed bytes each;
- records the plies left to the end, and the game result negated when the
  side-to-move test of line 74 holds;
- appends the five values to five growable on-disk columns (`x`, `xr`, `xp`,
  `y`, `m`).

The model has three modules, one per part of the pipeline:

- `encoder.dfy`, module `Encoder`: `bb2array`. A `Board` keeps a piece-type
  code per square (0 means empty, 1..6 are the piece kinds), a black-occupancy
  bit per square, and the side to move. `Encode` is the reference definition of
  the encoded array, entry by entry. `Bb2Array` is the source's loop: it fills a
  zeroed `array<int8>` square by square and is proved equal to `Encode`. The
  lemmas prove what the encoding promises:
  - the row mirror is a bijection;
  - an entry is non-zero exactly when its square is occupied;
  - occupied values fall in the colour bands 1..6 and 8..13;
  - the flip law, and flip as "mirror the ranks and swap the colours".
- `sampler.dfy`, module `Sampler`: `process_game`. A `Game` has:
  - the result header;
  - the main-line nodes, from the start (index 0) to the end (node `i - 1`
    is the parent of node `i`);
  - the rules engine's game-over verdict on the final board.

  Each `Node` carries its board and the boards that its legal moves lead to.
  The two `random.choice` calls become a caller-supplied `Draw`. Each of its
  numbers is reduced modulo the length of the list it picks from. `SampleOf`
  is the reference definition. `ProcessGame` is the source's procedure: it
  walks `gn = gn.parent` in a `while` loop, pops the last entry, picks from the
  rest, encodes the three boards and negates the label. It is proved equal to
  `SampleOf`.
- `writer.dfy`, module `Writer`: the resize/write/trim loop of
  `read_all_games`. The output file becomes a `DatasetWriter` object. Its fields
  are the five columns (sequences of rows), the physical length `size` and the
  logical row count `line`. `Append` is the growth check
  (`line + 1 >= size` gives `size := 2 * size + 1`), then the write of row
  `line`, then `line := line + 1`. `Close` is the final resize of every column
  to `line`. `ReadAllGames` runs `ProcessGame` on each game of a file, skips
  `None`, appends the rest and closes. h5py's `resize` becomes `Resized`: it
  keeps leading rows and fills new rows with zeros, which is h5py's default
  fill value.

Which position the sampler drops: the walk at preprocess.py:73-76 goes from the
end back to the start, and the `pop` at line 82 removes the entry appended last,
which is the starting position (the comment at line 84 says "remove first
position"). So in the model:

- the final position can be sampled, with `moves_left = 0`;
- the starting position is never sampled;
- every candidate has a parent.

`EveryNonRootSampleable` and `SampledTuple` state this.

## Model

| member | source | states |
|---|---|---|
| `Encoder.Placement` | preprocess.py:43-46 | the target index of a square is below 64; its column is unchanged; its row is `7 - row` under flip and the row itself otherwise |
| `Encoder.PlacementInvolution` | preprocess.py:43-51 | applying the placement twice gives back the square, so the placement is a bijection on the 64 squares |
| `Encoder.PlacementInjective` | preprocess.py:43-51 | two squares with the same placement are the same square, so no two occupied squares write the same index |
| `Encoder.PlacementIdentity` | preprocess.py:43-44 | without flip, `row * 8 + col` is the square's own index |
| `Encoder.ColourBit` | preprocess.py:42-47 | the colour bit is 0 or 1, and it is 1 exactly when black holds the square, inverted under flip |
| `Encoder.Cell` | preprocess.py:41-49 | an empty square gives 0 and only an empty square does; an occupied one gives `colour * 7 + piece` |
| `Encoder.Encode` | preprocess.py:38 | the encoded array has exactly 64 entries |
| `Encoder.EncodeRange` | preprocess.py:42-49 | every entry is between 0 and 13 and never 7 |
| `Encoder.EncodeOccupancy` | preprocess.py:40-49 | an entry is non-zero if and only if the square that lands on it is occupied; it equals the piece code (1..6) for encoded colour 0 and the piece code + 7 (8..13) for encoded colour 1 |
| `Encoder.SquareLandsAtPlacement` | preprocess.py:40-51 | each square's `color * 7 + piece` (or 0 when empty) is found at its placement index |
| `Encoder.SwapColour` | preprocess.py:47 | colour swap keeps values in 0..13 without 7 and maps 0, and only 0, to 0 |
| `Encoder.FlipLaw` | preprocess.py:43-51 | the flipped array at `(7 - row) * 8 + col` is the unflipped entry at `row * 8 + col` with its colour swapped |
| `Encoder.MirrorSwap` | preprocess.py:45-47 | mirroring ranks and swapping colours yields a well-formed board |
| `Encoder.FlipIsMirrorSwap` | preprocess.py:34-53 | encoding with flip equals encoding the rank-mirrored, colour-swapped board without flip |
| `Encoder.Bb2Array` | preprocess.py:34-53 | the square-by-square loop over a zeroed array produces a 64-entry array equal to `Encode(b, flip)` |
| `Sampler.ResultValue` | preprocess.py:60-64 | the result is mapped exactly for `'1-0'` (1), `'0-1'` (-1) and `'1/2-1/2'` (0), and every other string is rejected |
| `Sampler.FlipAt` | preprocess.py:74 | the flip flag of a node is the test `turn == 0` on its board's raw side-to-move value |
| `Sampler.Chain` | preprocess.py:71-76 | one entry per node; entry `k` is (`k`, node `|nodes| - 1 - k`, `FlipAt` there) |
| `Sampler.Candidates` | preprocess.py:71-82 | after the pop there is one candidate per non-start node; entry `k` has `moves_left = k < numPlies`, a node `k` plies before the end that has a parent, and `FlipAt` of that node as its flag |
| `Sampler.SampleOf` | preprocess.py:56-109 | a tuple is returned only for a recognised result, a game-over final board and at least one ply; then `moves_left < numPlies`, the label is in -1..1 and all three arrays have 64 entries |
| `Sampler.SampleSomeIff` | preprocess.py:60-84 | in a consistent game a tuple is returned if and only if the result is recognised, the final board is game over and the game has at least two nodes |
| `Sampler.SampledTuple` | preprocess.py:84-97 | the sampled node is `|nodes| - 1 - moves_left`, never the start; the current array uses flip = `FlipAt` there; the parent array uses `not flip`; the random array is a successor of the parent encoded with flip; the label is negated exactly when flip is set |
| `Sampler.LabelZeroIffDraw` | preprocess.py:60-64 | the label is in {-1, 0, 1}, and it is 0 if and only if the result is a draw, whatever the flip |
| `Sampler.EveryNonRootSampleable` | preprocess.py:73-84 | for an accepted game every `moves_left` in `0 .. numPlies - 1` can be drawn, the final position (0) included |
| `Sampler.MoveChoiceSampleable` | preprocess.py:94-97 | for an accepted game, every legal successor `j` of the sampled node's parent can be drawn, and the random array is then that successor encoded with the sampled node's flip |
| `Sampler.ProcessGame` | preprocess.py:56-109 | the walk/pop/choose/encode procedure returns exactly `SampleOf(g, d)` |
| `Writer.Resized` | preprocess.py:133 | a resized column has the new length, keeps its leading rows and fills new rows |
| `Writer.CapacityIsPow2Minus1` | preprocess.py:120-130 | the lengths `IsCapacity` admits, which `Valid()` keeps `size` among, are exactly the numbers `2^k - 1` |
| `Writer.GrowthKeepsCapacity` | preprocess.py:130 | `2 * size + 1` is again of the form `2^k - 1` |
| `Writer.Results` | preprocess.py:122-123 | there is one sampler result per game read |
| `Writer.Somes` | preprocess.py:124-126 | no more rows are accepted than games were read |
| `Writer.SomeIndices` | preprocess.py:124-126 | the accepted games are listed in increasing read order, and a game is listed exactly when its result is not `None` |
| `Writer.SomesAreAtIndices` | preprocess.py:122-141 | accepted row `j` is the tuple of the `j`-th accepted game: nothing is dropped, duplicated or reordered |
| `Writer.DatasetWriter.constructor` | preprocess.py:117-121 | five empty columns, `size = 0`, `line = 0` |
| `Writer.DatasetWriter.Resize` | preprocess.py:133 | every column becomes `Resized` to the new length |
| `Writer.DatasetWriter.WriteRow` | preprocess.py:135-139 | row `i` of each column is set to its field of the tuple, and no other row changes |
| `Writer.DatasetWriter.Append` | preprocess.py:128-141 | grows to `2 * size + 1` exactly when `line + 1 >= size`; the write index is then in bounds (`line < size`, and `line + 1 < size` once `line > 0`); the contents gain the tuple at the end; the invariant `line <= size <= 2 * line + 1` with `size = 2^k - 1` is kept |
| `Writer.DatasetWriter.Close` | preprocess.py:143 | every column's length becomes exactly `line`, and the contents are unchanged |
| `Writer.ReadAllGames` | preprocess.py:112-145 | after the loop and the trim, every column's length equals the number of accepted games (0 included), and the rows are the accepted tuples in read order |

## Left out

- `get_games` (preprocess.py:13-31): opening the file and parsing the game
  records, including the retry that swallows parse errors. This is I/O plus a
  foreign parser. `ReadAllGames` takes the parsed games as a sequence.
- `get_files` and `read_all_games_2` (preprocess.py:147-171): directory
  listing, output-path derivation, the skip-if-exists check and the
  `multiprocessing.Pool` fan-out. These are filesystem and process-pool work.
- The chess library is represented by inputs: node boards, side to move, the
  game-over verdict on the final board, and legal-move enumeration with
  `push`. For the last, each node lists the boards its legal moves lead to.
  `is_checkmate` is used only in a debug print and is left out.
- `random.choice` (preprocess.py:84, 95): the chosen positions are the numbers
  of a caller-supplied `Draw`, taken modulo the list length. Uniformity is not
  modelled.
- `Sampler.FlipAt`: the side-to-move value is kept raw, as line 74 tests it
  (`turn == 0`). Which colour value 0 stands for depends on the chess library's
  colour constants, which are not part of this model. So the model does not
  say whether flip means white or black to move.
- `Sampler.SampleOf`: an empty candidate list (a game with only its starting
  node) returns `None`. The source's `random.choice` would raise `IndexError`
  there. An empty legal-move list for the parent also returns `None`, where the
  source would raise. That case cannot happen in a consistent game
  (`SampleSomeIff`).
- All `print` calls (preprocess.py:78-80, 99-107, 131-132, 165), and
  `hfile.flush()` and `hfile.close()` (preprocess.py:129, 145). They are side
  effects only. Durability and chunked storage are not modelled.
- `Writer.DatasetWriter`: the columns are sequences of values, not h5py
  datasets. The `int8` storage width of the `y` and `m` columns is not
  modelled, so a `moves_left` above 127 is kept as an unbounded number. The
  position columns are `int8`, and their values (0..13) fit.
- Storage errors raised by h5py are not modelled; every resize and write
  succeeds.

# arvsearth word-search fill, in Dafny

arvsearth builds a single-word word search. `WordSearch(size, word)` keeps a
board size and one word. `create` fills a `size × size` board one cell at a
time in row-major order, drawing letters from the word with `random.choice`.
For each cell it makes at most 50 draws and keeps the first letter that
`_check` accepts. If all 50 draws are rejected it raises `ValueError`.
`_check` rejects a letter when placing it would complete the word, or the word
reversed, on one of four axes: the row to the left, the column above, the
descending diagonal from the upper left, and the ascending diagonal towards
the upper right, which is read starting at the new letter. Each axis is
examined only when its window of `len(word)` cells fits on the board.

The model has four modules:

- `Grids` holds the board. It is a `seq<seq<Option<char>>>`, where `None` is a
  cell not filled yet. The module also has row-major order, committing a
  letter (`Place`), the board as it stood before a given cell (`Prefix`), and
  the string helpers `Join`, `Reverse`, `Matches` and `Spells`.
- `Windows` defines rays, meaning `n` consecutive cells in one of the eight
  compass directions. It also defines the four axes `_check` uses. A
  window is the ray an axis reads, named by the cell that is filled last. The
  module proves that checking the four axes in both letter orders covers the
  eight directions, and the converse.
- `Collision` holds `_check`, written as `Check` with the source's four blocks
  in the source's order. It proves that the string each block builds is the
  window ending at the cell, and that `Check` accepts exactly when no such
  window spells the word.
- `Puzzle` holds the `WordSearch` record, the per-cell retry loop `FillCell`,
  `Create`, and the main theorem: a successful fill spells the word in no
  direction.

Randomness is a parameter. `pick: nat -> nat` gives the raw value behind the
`k`-th call of `random.choice` in a run, and that call returns
`word[pick(k) % |word|]`. Every sequence of choices is produced by some
`pick`. `Create` also returns `draws`, the number of calls made. The source
does not return it; it exists so the retry bounds can be stated.

The code is narrower than a general word-search generator, and the model
follows the code:

- The code has no word-placement phase and no list of words; the list of
  words, a separate alphabet and pre-placed words appear only as TODOs. It
  has no notion of weighting directions at all.
- It does not skip cells that are already filled.
- A size of zero or less gives an empty board rather than an error.
- An empty word fails only when there is a cell to fill. `random.choice`
  then raises `IndexError`, modelled as `EmptyWord`.

## Model

| member | source | states |
|---|---|---|
| Collision.CheckIff | arvsearth.py:41-80 | `_check` accepts a letter at (x, y) exactly when, with the letter placed there, none of the guarded windows ending at (x, y) spells the word or its reverse. Both directions are proved. |
| Collision.Check | arvsearth.py:41-80 | The four guarded blocks in the source's order. `Check` has no contract of its own, and `Collision.CheckIff` states what it computes. Its four run builders `LeftRun`, `AboveRun`, `DescRun` and `AscRun` (arvsearth.py:50, 58, 67, 75) are described by the four `*RunIsWindow` rows below. |
| Collision.LeftRunIsWindow | arvsearth.py:48-53 | `left + candidate` is the `len(word)` row cells ending at (x, y), read left to right, with the candidate last. |
| Collision.AboveRunIsWindow | arvsearth.py:55-61 | `col + candidate` is the column cells ending at (x, y), read downwards, with the candidate last. |
| Collision.DescRunIsWindow | arvsearth.py:63-71 | `desc_diag + candidate` is the descending-diagonal cells ending at (x, y), read from the upper left, with the candidate last. |
| Collision.AscRunIsWindow | arvsearth.py:73-79 | `candidate + asc_diag` is the ascending-diagonal cells (x+i, y-i), read up-right from (x, y), with the candidate first. |
| Collision.CheckReadsOnlyEarlier | arvsearth.py:41-80 | `_check` reads only cells before (x, y) in row-major order. Two boards that agree on those cells get the same answer, and both are readable. |
| Collision.FilledBeforeReadable | arvsearth.py:46-79 | When every cell before (x, y) is filled, every cell the four blocks join is filled, so no `None` reaches `''.join`. |
| Collision.LeftVerdict | arvsearth.py:49-53 | The row block returns False exactly when the row window ending at (x, y), with the candidate placed, spells the word or its reverse. |
| Collision.AboveVerdict | arvsearth.py:56-61 | The column block returns False exactly when the column window ending at (x, y), with the candidate placed, spells the word or its reverse. |
| Collision.DescVerdict | arvsearth.py:64-71 | The descending block returns False exactly when the descending window ending at (x, y), with the candidate placed, spells the word or its reverse. |
| Collision.AscVerdict | arvsearth.py:74-79 | The ascending block returns False exactly when the ascending window read from (x, y), with the candidate placed, spells the word or its reverse. |
| Collision.SingleLetterRejected | arvsearth.py:49-53 | For a one-letter word the row test always fires: the empty slice plus the candidate is the word. |
| Windows.FitsExactly | arvsearth.py:49-74 | Each of the four guards holds exactly when that axis's window lies inside the board. |
| Windows.WindowBeforeLast | arvsearth.py:17-18 | Every cell of a window is either its last-filled cell or strictly earlier in row-major order, and the last-filled cell occurs in it exactly once. |
| Windows.WindowAgree | arvsearth.py:17-18 | A window depends only on the cells up to and including its last-filled cell. |
| Windows.RayReversed | arvsearth.py:51 | A ray read backwards is the ray from its far end in the opposite direction. So comparing with `reversed(word)` covers the opposite reading direction. |
| Windows.ReadingRayIsWindow | arvsearth.py:48-79 | Every ray in one of the four reading directions is the window of that axis at its last-filled cell. |
| Windows.WindowsCoverRays | arvsearth.py:48-79 | No axis window spells the word or its reverse if and only if no run of `len(word)` cells in any of the eight directions reads the word. |
| Puzzle.Choice | arvsearth.py:31 | `random.choice(self.word)` returns a character of the word. |
| Puzzle.FillCell | arvsearth.py:23-33 | The retry loop makes between 1 and 50 draws. Every draw before the last was rejected. On success it yields the last draw, which the test accepted. On failure all 50 draws were rejected. |
| Puzzle.Create | arvsearth.py:14-39 | Let `side` be the board's side: `size` when it is positive, else 0, since `range(size)` is then empty. On success the board is `side × side` with every cell filled by a character of the word. Each cell's letter was accepted by `_check` on the board as it stood then. No row, column or diagonal reads the word in any of the eight directions. The run takes between `side²` and `50·side²` draws. On `ValueError` the board is filled exactly before the failing cell, every earlier cell holds an accepted letter, and the last 50 draws were all rejected there. An empty word or a one-letter word fails whenever the board is not empty; the empty word fails with `IndexError`, the one-letter word with `ValueError`. A size of 0 or less gives `[]` with no draws, whatever the word. |
| Puzzle.FillStep | arvsearth.py:17-35 | Committing an accepted letter at (x, y) extends the filled prefix by exactly that cell. Every earlier cell keeps its letter and its acceptance, so no earlier cell is revisited. |
| Puzzle.AcceptedFillSpellsNothing | arvsearth.py:14-80 | On a full board whose every letter passed `_check` when placed, no window on the four axes spells the word or its reverse. |
| Puzzle.AcceptedFillReadsNoWord | arvsearth.py:14-80 | On such a board no run of `len(word)` cells in any of the eight directions reads the word. |
| Grids.Place | arvsearth.py:35 | Committing a candidate sets that one cell and leaves every other cell unchanged. |
| Grids.EmptyGrid | arvsearth.py:15 | The fill starts from a `size × size` board with no cell filled. |
| Grids.Join | arvsearth.py:50 | `''.join` of filled cells gives back their letters, in order. |
| Grids.ReverseReverse | arvsearth.py:51 | Reversing `reversed(word)` gives back the word, so comparing against the word and its reverse is symmetric in the two. |

## Left out

- `build_image` and the `__main__` block are left out. They cover font loading, image drawing, saving a file, printing and the text join used for display. None of them affects the board.
- The `logging.debug` calls inside `_check` are left out because they are diagnostics with no effect on control flow.
- The pseudo-random generator is not modelled. `random.choice` is replaced by the `pick` oracle described above.
- The text of the `ValueError` message is not modelled. Failure is the `Exhausted` outcome, which carries the partial board and the failing cell.
- Multi-word placement, a separate alphabet and pre-filled cells appear in the source only as TODOs. They are not modelled.
- Puzzle.Create: on success it does not say which draw produced each committed letter. `FillCell` states that for one cell: the letter is the first draw `_check` accepted.
- Collision.Check: requires that every cell any of the four guarded blocks would join is filled (`Readable`). The source joins only the blocks it reaches, and returns at the first block that matches. So a board on which an earlier block already returns False while a later block would join an empty cell is excluded here, though the source returns False on it. `create` never builds such a board, because it fills cells in row-major order (`FilledBeforeReadable`).

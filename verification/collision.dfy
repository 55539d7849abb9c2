/**
 The collision test `WordSearch._check` (arvsearth.py): may letter `c` go into
 the empty cell (x, y) of a board filled in row-major order without completing
 the word, or the word reversed, on the row, the column or one of the two
 diagonals?
 */
module Collision {
  import opened Grids
  import opened Windows

  /**
   Every cell the test reads at (x, y) for a word of length `n` is filled;
   joining an empty cell would fail in the source.
   */
  predicate Readable(g: Grid, size: nat, n: int, x: int, y: int)
    requires Square(g, size) && InBounds(size, x, y)
  {
    && (n <= x + 1 ==> forall i | x + 1 - n <= i < x :: g[y][i].Some?)
    && (y >= n - 1 ==> forall j | y + 1 - n <= j < y :: g[j][x].Some?)
    && (n <= x + 1 && n <= y + 1 ==>
          forall j, i | y + 1 - n <= j < y && i - j == x - y :: g[j][i].Some?)
    && (x + n <= size && y + 1 - n >= 0 ==>
          forall j, i | y + 1 - n <= j < y && i + j == x + y :: g[j][i].Some?)
  }

  /** Filling in row-major order leaves every cell the test reads already filled. */
  lemma FilledBeforeReadable(g: Grid, size: nat, n: int, x: int, y: int)
    requires Square(g, size) && InBounds(size, x, y)
    requires forall j, i | 0 <= j < size && 0 <= i < size && Before(i, j, x, y) :: g[j][i].Some?
    ensures Readable(g, size, n, x, y)
  {
  }

  /** `left + candidate`: the `n - 1` letters left of (x, y) in its row, then `c`. */
  function LeftRun(g: Grid, size: nat, n: int, x: int, y: int, c: char): seq<char>
    requires Square(g, size) && InBounds(size, x, y) && 1 <= n <= x + 1 && Readable(g, size, n, x, y)
  {
    Join(g[y][x + 1 - n .. x]) + [c]
  }

  /** `col + candidate`: the `n - 1` letters above (x, y) in its column, then `c`. */
  function AboveRun(g: Grid, size: nat, n: int, x: int, y: int, c: char): seq<char>
    requires Square(g, size) && InBounds(size, x, y) && 1 <= n && y >= n - 1 && Readable(g, size, n, x, y)
  {
    Join(seq(n - 1, k requires 0 <= k < n - 1 => g[y + 1 - n + k][x])) + [c]
  }

  /** `desc_diag + candidate`: the `n - 1` letters up-left of (x, y), top first, then `c`. */
  function DescRun(g: Grid, size: nat, n: int, x: int, y: int, c: char): seq<char>
    requires Square(g, size) && InBounds(size, x, y) && 1 <= n && n <= x + 1 && n <= y + 1
    requires Readable(g, size, n, x, y)
  {
    Join(seq(n - 1, k requires 0 <= k < n - 1 => g[y + 1 - n + k][x + 1 - n + k])) + [c]
  }

  /** `candidate + asc_diag`: `c`, then the `n - 1` letters up-right of (x, y), nearest first. */
  function AscRun(g: Grid, size: nat, n: int, x: int, y: int, c: char): seq<char>
    requires Square(g, size) && InBounds(size, x, y) && 1 <= n && x + n <= size && y + 1 - n >= 0
    requires Readable(g, size, n, x, y)
  {
    [c] + Join(seq(n - 1, k requires 0 <= k < n - 1 => g[y - (k + 1)][x + (k + 1)]))
  }

  /** The row test compares exactly the row window ending at (x, y), with `c` placed there. */
  lemma LeftRunIsWindow(g: Grid, size: nat, n: int, x: int, y: int, c: char)
    requires Square(g, size) && InBounds(size, x, y) && 1 <= n <= x + 1 && Readable(g, size, n, x, y)
    ensures Lift(LeftRun(g, size, n, x, y, c)) == Window(Place(g, size, x, y, c), size, Row, n, x, y)
  {
  }

  /** The column test compares exactly the column window ending at (x, y), with `c` placed there. */
  lemma AboveRunIsWindow(g: Grid, size: nat, n: int, x: int, y: int, c: char)
    requires Square(g, size) && InBounds(size, x, y) && 1 <= n && y >= n - 1 && Readable(g, size, n, x, y)
    ensures Lift(AboveRun(g, size, n, x, y, c)) == Window(Place(g, size, x, y, c), size, Column, n, x, y)
  {
  }

  /** The descending test compares exactly the descending window ending at (x, y), with `c` placed there. */
  lemma DescRunIsWindow(g: Grid, size: nat, n: int, x: int, y: int, c: char)
    requires Square(g, size) && InBounds(size, x, y) && 1 <= n && n <= x + 1 && n <= y + 1
    requires Readable(g, size, n, x, y)
    ensures Lift(DescRun(g, size, n, x, y, c)) == Window(Place(g, size, x, y, c), size, Descending, n, x, y)
  {
  }

  /** The ascending test compares exactly the ascending window read from (x, y), with `c` placed there. */
  lemma AscRunIsWindow(g: Grid, size: nat, n: int, x: int, y: int, c: char)
    requires Square(g, size) && InBounds(size, x, y) && 1 <= n && x + n <= size && y + 1 - n >= 0
    requires Readable(g, size, n, x, y)
    ensures Lift(AscRun(g, size, n, x, y, c)) == Window(Place(g, size, x, y, c), size, Ascending, n, x, y)
  {
  }

  /**
   `_check`: false as soon as one of the four guarded runs, in the source's
   order (row, column, descending, ascending), is the word or its reverse.
   */
  function Check(g: Grid, size: nat, word: seq<char>, x: int, y: int, c: char): bool
    requires Square(g, size) && InBounds(size, x, y) && |word| >= 1
    requires Readable(g, size, |word|, x, y)
  {
    var n := |word|;
    if n <= x + 1 && Matches(LeftRun(g, size, n, x, y, c), word) then false
    else if y >= n - 1 && Matches(AboveRun(g, size, n, x, y, c), word) then false
    else if n <= x + 1 && n <= y + 1 && Matches(DescRun(g, size, n, x, y, c), word) then false
    else if x + n <= size && y + 1 - n >= 0 && Matches(AscRun(g, size, n, x, y, c), word) then false
    else true
  }

  /** The row test fires exactly when the row window ending at (x, y), with `c` placed, spells the word. */
  lemma LeftVerdict(g: Grid, size: nat, word: seq<char>, x: int, y: int, c: char)
    requires Square(g, size) && InBounds(size, x, y) && 1 <= |word| <= x + 1
    requires Readable(g, size, |word|, x, y)
    ensures Matches(LeftRun(g, size, |word|, x, y, c), word)
        <==> Spells(Window(Place(g, size, x, y, c), size, Row, |word|, x, y), word)
  {
    LeftRunIsWindow(g, size, |word|, x, y, c);
    LiftMatches(LeftRun(g, size, |word|, x, y, c), word);
  }

  /** The column test fires exactly when the column window ending at (x, y), with `c` placed, spells the word. */
  lemma AboveVerdict(g: Grid, size: nat, word: seq<char>, x: int, y: int, c: char)
    requires Square(g, size) && InBounds(size, x, y) && 1 <= |word| && y >= |word| - 1
    requires Readable(g, size, |word|, x, y)
    ensures Matches(AboveRun(g, size, |word|, x, y, c), word)
        <==> Spells(Window(Place(g, size, x, y, c), size, Column, |word|, x, y), word)
  {
    AboveRunIsWindow(g, size, |word|, x, y, c);
    LiftMatches(AboveRun(g, size, |word|, x, y, c), word);
  }

  /** The descending test fires exactly when the descending window ending at (x, y), with `c` placed, spells the word. */
  lemma DescVerdict(g: Grid, size: nat, word: seq<char>, x: int, y: int, c: char)
    requires Square(g, size) && InBounds(size, x, y) && 1 <= |word| && |word| <= x + 1 && |word| <= y + 1
    requires Readable(g, size, |word|, x, y)
    ensures Matches(DescRun(g, size, |word|, x, y, c), word)
        <==> Spells(Window(Place(g, size, x, y, c), size, Descending, |word|, x, y), word)
  {
    DescRunIsWindow(g, size, |word|, x, y, c);
    LiftMatches(DescRun(g, size, |word|, x, y, c), word);
  }

  /** The ascending test fires exactly when the ascending window read from (x, y), with `c` placed, spells the word. */
  lemma AscVerdict(g: Grid, size: nat, word: seq<char>, x: int, y: int, c: char)
    requires Square(g, size) && InBounds(size, x, y) && 1 <= |word| && x + |word| <= size && y + 1 - |word| >= 0
    requires Readable(g, size, |word|, x, y)
    ensures Matches(AscRun(g, size, |word|, x, y, c), word)
        <==> Spells(Window(Place(g, size, x, y, c), size, Ascending, |word|, x, y), word)
  {
    AscRunIsWindow(g, size, |word|, x, y, c);
    LiftMatches(AscRun(g, size, |word|, x, y, c), word);
  }

  /**
   The test accepts `c` at (x, y) exactly when, with `c` placed there, no
   window on any of the four axes that ends at (x, y) spells the word
   forwards or backwards.
   */
  lemma CheckIff(g: Grid, size: nat, word: seq<char>, x: int, y: int, c: char)
    requires Square(g, size) && InBounds(size, x, y) && |word| >= 1
    requires Readable(g, size, |word|, x, y)
    ensures Check(g, size, word, x, y, c)
        <==> forall axis | Fits(axis, size, |word|, x, y)
               :: !Spells(Window(Place(g, size, x, y, c), size, axis, |word|, x, y), word)
  {
    var n := |word|;
    var h := Place(g, size, x, y, c);
    var left := n <= x + 1 && Spells(Window(h, size, Row, n, x, y), word);
    var above := y >= n - 1 && Spells(Window(h, size, Column, n, x, y), word);
    var desc := n <= x + 1 && n <= y + 1 && Spells(Window(h, size, Descending, n, x, y), word);
    var asc := x + n <= size && y + 1 - n >= 0 && Spells(Window(h, size, Ascending, n, x, y), word);
    if n <= x + 1 {
      LeftVerdict(g, size, word, x, y, c);
    }
    if y >= n - 1 {
      AboveVerdict(g, size, word, x, y, c);
    }
    if n <= x + 1 && n <= y + 1 {
      DescVerdict(g, size, word, x, y, c);
    }
    if x + n <= size && y + 1 - n >= 0 {
      AscVerdict(g, size, word, x, y, c);
    }
    assert Check(g, size, word, x, y, c) == !(left || above || desc || asc);
    assert (forall axis | Fits(axis, size, n, x, y) :: !Spells(Window(h, size, axis, n, x, y), word))
        == !(left || above || desc || asc) by {
      forall axis | Fits(axis, size, n, x, y) && Spells(Window(h, size, axis, n, x, y), word)
        ensures left || above || desc || asc
      {
      }
    }
  }

  /**
   The test reads nothing at or after (x, y): two boards that agree on the
   cells before (x, y) get the same answer.
   */
  lemma CheckReadsOnlyEarlier(g: Grid, h: Grid, size: nat, word: seq<char>, x: int, y: int, c: char)
    requires Square(g, size) && Square(h, size) && InBounds(size, x, y) && |word| >= 1
    requires Readable(g, size, |word|, x, y) && AgreeBefore(g, h, size, x, y)
    ensures Readable(h, size, |word|, x, y)
    ensures Check(g, size, word, x, y, c) == Check(h, size, word, x, y, c)
  {
    var n := |word|;
    assert Readable(h, size, n, x, y);
    CheckIff(g, size, word, x, y, c);
    CheckIff(h, size, word, x, y, c);
    forall axis | Fits(axis, size, n, x, y)
      ensures Window(Place(g, size, x, y, c), size, axis, n, x, y)
           == Window(Place(h, size, x, y, c), size, axis, n, x, y)
    {
      WindowAgree(Place(g, size, x, y, c), Place(h, size, x, y, c), size, axis, n, x, y);
    }
  }

  /** A one-letter word is rejected everywhere: the row test alone matches it. */
  lemma SingleLetterRejected(g: Grid, size: nat, word: seq<char>, x: int, y: int)
    requires Square(g, size) && InBounds(size, x, y) && |word| == 1
    requires Readable(g, size, |word|, x, y)
    ensures !Check(g, size, word, x, y, word[0])
  {
    assert LeftRun(g, size, 1, x, y, word[0]) == word;
  }
}

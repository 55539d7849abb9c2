/**
 The board a word search is filled into: a square of cells addressed as
 `g[y][x]` (row `y`, column `x`), each cell either still empty or holding one
 letter, plus the letter strings the collision test compares.
 */
module Grids {

  datatype Option<T> = None | Some(value: T)

  /** A partially filled board; `None` is a cell not filled yet. */
  type Grid = seq<seq<Option<char>>>

  predicate Square(g: Grid, size: nat) {
    |g| == size && forall j | 0 <= j < size :: |g[j]| == size
  }

  predicate InBounds(size: int, x: int, y: int) {
    0 <= x < size && 0 <= y < size
  }

  /** Cell (i, j) comes strictly before cell (x, y) in row-major order. */
  predicate Before(i: int, j: int, x: int, y: int) {
    j < y || (j == y && i < x)
  }

  /** Exactly the cells before (x, y) in row-major order are filled. */
  predicate FilledExactlyBefore(g: Grid, size: nat, x: int, y: int)
    requires Square(g, size)
  {
    forall j, i | 0 <= j < size && 0 <= i < size :: g[j][i].Some? <==> Before(i, j, x, y)
  }

  predicate Full(g: Grid, size: nat)
    requires Square(g, size)
  {
    forall j, i | 0 <= j < size && 0 <= i < size :: g[j][i].Some?
  }

  /** `g` and `h` hold the same thing in every cell before (x, y). */
  predicate AgreeBefore(g: Grid, h: Grid, size: nat, x: int, y: int)
    requires Square(g, size) && Square(h, size)
  {
    forall j, i | 0 <= j < size && 0 <= i < size && Before(i, j, x, y) :: g[j][i] == h[j][i]
  }

  /** The board the fill starts from: every cell empty. */
  function EmptyGrid(size: nat): (g: Grid)
    ensures Square(g, size) && FilledExactlyBefore(g, size, 0, 0)
  {
    seq(size, j => seq(size, i => None))
  }

  /** Commits letter `c` to cell (x, y); no other cell changes. */
  function Place(g: Grid, size: nat, x: int, y: int, c: char): (h: Grid)
    requires Square(g, size) && InBounds(size, x, y)
    ensures Square(h, size)
    ensures h[y][x] == Some(c)
    ensures forall j, i | 0 <= j < size && 0 <= i < size && (i != x || j != y) :: h[j][i] == g[j][i]
  {
    g[y := g[y][x := Some(c)]]
  }

  /** The board as it stood when (x, y) was about to be filled: cells from (x, y) on are emptied. */
  function Prefix(g: Grid, size: nat, x: int, y: int): (h: Grid)
    requires Square(g, size)
    ensures Square(h, size) && AgreeBefore(g, h, size, x, y)
    ensures forall j, i | 0 <= j < size && 0 <= i < size && !Before(i, j, x, y) :: h[j][i].None?
  {
    seq(size, j requires 0 <= j < size => seq(size, i requires 0 <= i < size => if Before(i, j, x, y) then g[j][i] else None))
  }

  /** Boards are equal when they are square of the same size and agree cell by cell. */
  lemma GridExt(g: Grid, h: Grid, size: nat)
    requires Square(g, size) && Square(h, size)
    requires forall j, i | 0 <= j < size && 0 <= i < size :: g[j][i] == h[j][i]
    ensures g == h
  {
    forall j | 0 <= j < size
      ensures g[j] == h[j]
    {
    }
  }

  /** Only the cells before (x, y) determine the board as it stood at (x, y). */
  lemma PrefixAgree(g: Grid, h: Grid, size: nat, x: int, y: int)
    requires Square(g, size) && Square(h, size) && AgreeBefore(g, h, size, x, y)
    ensures Prefix(g, size, x, y) == Prefix(h, size, x, y)
  {
    GridExt(Prefix(g, size, x, y), Prefix(h, size, x, y), size);
  }

  /** A board filled exactly before (x, y) is its own prefix at (x, y). */
  lemma PrefixOfExact(g: Grid, size: nat, x: int, y: int)
    requires Square(g, size) && FilledExactlyBefore(g, size, x, y)
    ensures Prefix(g, size, x, y) == g
  {
    GridExt(Prefix(g, size, x, y), g, size);
  }

  /** A letter string seen as a run of filled cells. */
  function Lift(s: seq<char>): (w: seq<Option<char>>)
    ensures |w| == |s|
  {
    seq(|s|, k requires 0 <= k < |s| => Some(s[k]))
  }

  /** Python's `''.join` over cells that are all filled. */
  function Join(w: seq<Option<char>>): (s: seq<char>)
    requires forall k | 0 <= k < |w| :: w[k].Some?
    ensures Lift(s) == w
  {
    seq(|w|, k requires 0 <= k < |w| => w[k].value)
  }

  /** Python's `''.join(reversed(s))`. */
  function Reverse<T>(s: seq<T>): seq<T>
  {
    seq(|s|, k requires 0 <= k < |s| => s[|s| - 1 - k])
  }

  /** Reversing twice gives back the original sequence. */
  lemma ReverseReverse<T>(s: seq<T>)
    ensures Reverse(Reverse(s)) == s
  {
  }

  /** Reversing commutes with lifting letters to filled cells. */
  lemma ReverseLift(s: seq<char>)
    ensures Reverse(Lift(s)) == Lift(Reverse(s))
  {
  }

  /** Lifting loses nothing: two strings lift to the same run exactly when they are equal. */
  lemma LiftInjective(a: seq<char>, b: seq<char>)
    ensures Lift(a) == Lift(b) <==> a == b
  {
    if Lift(a) == Lift(b) {
      assert forall k | 0 <= k < |a| :: Some(a[k]) == Lift(a)[k] == Lift(b)[k] == Some(b[k]);
    }
  }

  /** The comparison the collision test makes: `s` is the word or the word reversed. */
  predicate Matches(s: seq<char>, word: seq<char>) {
    s == word || s == Reverse(word)
  }

  /** A run of cells spells the word forwards or backwards. */
  predicate Spells(w: seq<Option<char>>, word: seq<char>) {
    w == Lift(word) || w == Lift(Reverse(word))
  }

  lemma LiftMatches(s: seq<char>, word: seq<char>)
    ensures Spells(Lift(s), word) <==> Matches(s, word)
  {
    LiftInjective(s, word);
    LiftInjective(s, Reverse(word));
  }
}

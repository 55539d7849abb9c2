/**
 The `WordSearch` class of arvsearth.py: a word and a board size, and
 `create`, which fills the board cell by cell in row-major order with letters
 drawn at random from the word, retrying each cell a bounded number of times
 and keeping the first letter the collision test accepts.

 Randomness is an oracle: `pick(k)` is the raw value behind the `k`-th call of
 `random.choice` over the whole run, and that call yields `Choice(word, pick(k))`.
 */
module Puzzle {
  import opened Grids
  import opened Windows
  import opened Collision

  /** The state `WordSearch.__init__` stores, with its default arguments. */
  datatype WordSearch = WordSearch(size: int := 10, word: seq<char> := "arveth")

  /** Draws allowed per cell before `create` gives up. */
  const MaxRetries := 50

  /** Side of the board `create` builds: `range(size)` is empty for a negative size. */
  function Dim(ws: WordSearch): nat {
    if ws.size < 0 then 0 else ws.size
  }

  /** `random.choice(word)` when the generator yields the raw value `r`. */
  function Choice(word: seq<char>, r: nat): (c: char)
    requires |word| >= 1
    ensures c in word
  {
    word[r % |word|]
  }

  datatype Outcome =
    | Created(grid: Grid)
      /** The `ValueError`: no accepted letter for cell (x, y) within the retry budget; `partial` is the board so far. */
    | Exhausted(partial: Grid, x: nat, y: nat)
      /** `random.choice` on an empty word raises `IndexError`. */
    | EmptyWord

  /** The letter at (x, y) was accepted by the test on the board as it stood when (x, y) was filled. */
  predicate Accepted(g: Grid, size: nat, word: seq<char>, x: int, y: int)
    requires Square(g, size)
  {
    && InBounds(size, x, y) && |word| >= 1 && g[y][x].Some?
    && Readable(Prefix(g, size, x, y), size, |word|, x, y)
    && Check(Prefix(g, size, x, y), size, word, x, y, g[y][x].value)
  }

  /** Every cell before (x, y) holds a letter of the word that the test accepted when it was placed. */
  ghost predicate AcceptedBefore(g: Grid, size: nat, word: seq<char>, x: int, y: int)
    requires Square(g, size)
  {
    forall j, i | InBounds(size, i, j) && Before(i, j, x, y)
      :: g[j][i].Some? && g[j][i].value in word && Accepted(g, size, word, i, j)
  }

  /**
   The retry loop for one cell: draw letters from the word, starting at draw
   number `start`, until `accept` (the collision test at that cell) takes one
   or `MaxRetries` draws are spent. `next` is the number of the first draw
   not made.
   */
  method FillCell(word: seq<char>, accept: char -> bool, pick: nat -> nat, start: nat)
    returns (accepted: Option<char>, next: nat)
    requires |word| >= 1
    ensures start < next <= start + MaxRetries
    ensures forall j: nat | start <= j < next - 1 :: !accept(Choice(word, pick(j)))
    ensures accepted.Some? ==> accepted.value == Choice(word, pick(next - 1)) && accept(accepted.value)
    ensures accepted.None? ==>
      next == start + MaxRetries && forall j: nat | start <= j < next :: !accept(Choice(word, pick(j)))
  {
    var candidate: Option<char> := None;
    var retries := 0;
    var success := false;
    next := start;
    while retries < MaxRetries && !success
      invariant 0 <= retries <= MaxRetries && next == start + retries
      invariant retries == 0 <==> candidate.None?
      invariant retries == 0 ==> !success
      invariant retries > 0 ==> candidate == Some(Choice(word, pick(next - 1)))
      invariant candidate.Some? ==> success == accept(candidate.value)
      invariant forall j: nat | start <= j < next - 1 :: !accept(Choice(word, pick(j)))
    {
      retries := retries + 1;
      candidate := Some(Choice(word, pick(next)));
      next := next + 1;
      success := accept(candidate.value);
    }
    if success {
      accepted := candidate;
    } else {
      accepted := None;
    }
  }

  /** `WordSearch.create`. `draws` counts the calls of `random.choice`. */
  method Create(ws: WordSearch, pick: nat -> nat) returns (r: Outcome, draws: nat)
    ensures r.EmptyWord? <==> |ws.word| == 0 && Dim(ws) > 0
    ensures |ws.word| == 1 && Dim(ws) > 0 ==> r.Exhausted?
    ensures Dim(ws) == 0 ==> r == Created([]) && draws == 0
    ensures r.Created? ==>
      && Square(r.grid, Dim(ws)) && Full(r.grid, Dim(ws))
      && AcceptedBefore(r.grid, Dim(ws), ws.word, 0, Dim(ws))
      && Dim(ws) * Dim(ws) <= draws <= MaxRetries * (Dim(ws) * Dim(ws))
    ensures r.Created? ==> NoRaySpells(r.grid, Dim(ws), ws.word)
    ensures r.Exhausted? ==>
      && |ws.word| >= 1 && InBounds(Dim(ws), r.x, r.y)
      && Square(r.partial, Dim(ws)) && FilledExactlyBefore(r.partial, Dim(ws), r.x, r.y)
      && AcceptedBefore(r.partial, Dim(ws), ws.word, r.x, r.y)
      && Readable(r.partial, Dim(ws), |ws.word|, r.x, r.y)
      && draws >= MaxRetries
      && forall j: nat | draws - MaxRetries <= j < draws
           :: !Check(r.partial, Dim(ws), ws.word, r.x, r.y, Choice(ws.word, pick(j)))
  {
    var size := Dim(ws);
    var word := ws.word;
    var g := EmptyGrid(size);
    draws := 0;
    var filled := 0;
    var y := 0;
    while y < size
      invariant 0 <= y <= size && filled == y * size
      invariant filled <= draws <= MaxRetries * filled
      invariant |word| <= 1 && size > 0 ==> y == 0
      invariant Square(g, size) && FilledExactlyBefore(g, size, 0, y)
      invariant AcceptedBefore(g, size, word, 0, y)
    {
      var x := 0;
      while x < size
        invariant 0 <= x <= size && filled == y * size + x
        invariant filled <= draws <= MaxRetries * filled
        invariant |word| <= 1 ==> x == 0
        invariant Square(g, size) && FilledExactlyBefore(g, size, x, y)
        invariant AcceptedBefore(g, size, word, x, y)
      {
        if |word| == 0 {
          return EmptyWord, draws;
        }
        FilledBeforeReadable(g, size, |word|, x, y);
        var accepted, next := FillCell(word, c => Check(g, size, word, x, y, c), pick, draws);
        draws := next;
        if accepted.None? {
          return Exhausted(g, x, y), draws;
        }
        var c := accepted.value;
        assert |word| != 1 by {
          if |word| == 1 {
            SingleLetterRejected(g, size, word, x, y);
          }
        }
        FillStep(g, size, word, x, y, c);
        g := Place(g, size, x, y, c);
        x := x + 1;
        filled := filled + 1;
      }
      y := y + 1;
    }
    AcceptedFillReadsNoWord(g, size, word);
    return Created(g), draws;
  }

  /**
   Committing an accepted letter at (x, y) extends the filled prefix by one
   cell and keeps every earlier cell's acceptance: the board as it stood at an
   earlier cell does not change.
   */
  lemma FillStep(g: Grid, size: nat, word: seq<char>, x: int, y: int, c: char)
    requires Square(g, size) && InBounds(size, x, y) && |word| >= 1
    requires FilledExactlyBefore(g, size, x, y) && Readable(g, size, |word|, x, y)
    requires AcceptedBefore(g, size, word, x, y)
    requires c in word && Check(g, size, word, x, y, c)
    ensures var h := Place(g, size, x, y, c);
      FilledExactlyBefore(h, size, x + 1, y) && AcceptedBefore(h, size, word, x + 1, y)
  {
    var h := Place(g, size, x, y, c);
    forall j, i | InBounds(size, i, j) && Before(i, j, x, y)
      ensures Prefix(h, size, i, j) == Prefix(g, size, i, j)
    {
      PrefixAgree(h, g, size, i, j);
    }
    PrefixAgree(h, g, size, x, y);
    PrefixOfExact(g, size, x, y);
  }

  /**
   A full board in which every letter was accepted by the test when it was
   placed spells the word, forwards or backwards, along no row, column or
   diagonal: each window's last-filled cell was checked against exactly that
   window.
   */
  lemma AcceptedFillSpellsNothing(g: Grid, size: nat, word: seq<char>)
    requires Square(g, size) && Full(g, size)
    requires AcceptedBefore(g, size, word, 0, size)
    ensures NoWindowSpells(g, size, word)
  {
    var n := |word|;
    forall axis, y, x | InBounds(size, x, y) && n >= 1 && Fits(axis, size, n, x, y)
      ensures !Spells(Window(g, size, axis, n, x, y), word)
    {
      var p := Prefix(g, size, x, y);
      var c := g[y][x].value;
      assert Accepted(g, size, word, x, y);
      CheckIff(p, size, word, x, y, c);
      WindowAgree(Place(p, size, x, y, c), g, size, axis, n, x, y);
    }
  }

  /**
   After a successful fill, no run of `len(word)` cells in any of the eight
   directions reads the word.
   */
  lemma AcceptedFillReadsNoWord(g: Grid, size: nat, word: seq<char>)
    requires Square(g, size) && Full(g, size)
    requires AcceptedBefore(g, size, word, 0, size)
    ensures NoRaySpells(g, size, word)
  {
    AcceptedFillSpellsNothing(g, size, word);
    WindowsCoverRays(g, size, word);
  }
}

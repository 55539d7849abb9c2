/**
 Straight lines of cells on the board. A ray is `n` consecutive cells read in
 one of the eight compass directions; a window is the ray the collision test
 reads on one of its four axes, named by the cell that is filled last.
 */
module Windows {
  import opened Grids

  datatype Direction = Right | Left | Down | Up | DownRight | UpLeft | UpRight | DownLeft

  function Opposite(d: Direction): Direction {
    match d
    case Right => Left
    case Left => Right
    case Down => Up
    case Up => Down
    case DownRight => UpLeft
    case UpLeft => DownRight
    case UpRight => DownLeft
    case DownLeft => UpRight
  }

  /** The cell `k` steps from (a, b) in direction `d` (x grows rightwards, y downwards). */
  function Step(d: Direction, a: int, b: int, k: int): (int, int) {
    match d
    case Right => (a + k, b)
    case Left => (a - k, b)
    case Down => (a, b + k)
    case Up => (a, b - k)
    case DownRight => (a + k, b + k)
    case UpLeft => (a - k, b - k)
    case UpRight => (a + k, b - k)
    case DownLeft => (a - k, b + k)
  }

  /** A non-empty ray of `n` cells from (a, b) along `d` lies inside the board. */
  predicate RayFits(size: int, n: int, a: int, b: int, d: Direction) {
    n >= 1 && InBounds(size, a, b) && InBounds(size, Step(d, a, b, n - 1).0, Step(d, a, b, n - 1).1)
  }

  /** The cells of a ray, in reading order. */
  function Ray(g: Grid, size: nat, n: int, a: int, b: int, d: Direction): (w: seq<Option<char>>)
    requires Square(g, size) && RayFits(size, n, a, b, d)
    ensures |w| == n
  {
    seq(n, k requires 0 <= k < n => g[Step(d, a, b, k).1][Step(d, a, b, k).0])
  }

  /** Read backwards, a ray is the ray from its far end in the opposite direction. */
  lemma RayReversed(g: Grid, size: nat, n: int, a: int, b: int, d: Direction)
    requires Square(g, size) && RayFits(size, n, a, b, d)
    ensures RayFits(size, n, Step(d, a, b, n - 1).0, Step(d, a, b, n - 1).1, Opposite(d))
    ensures Reverse(Ray(g, size, n, a, b, d))
         == Ray(g, size, n, Step(d, a, b, n - 1).0, Step(d, a, b, n - 1).1, Opposite(d))
  {
  }

  /** The four axes the collision test examines. */
  datatype Axis = Row | Column | Descending | Ascending

  /** The direction in which the collision test reads a window on `axis`. */
  function Reading(axis: Axis): Direction {
    match axis
    case Row => Right
    case Column => Down
    case Descending => DownRight
    case Ascending => UpRight
  }

  predicate IsReading(d: Direction) {
    d.Right? || d.Down? || d.DownRight? || d.UpRight?
  }

  function AxisOf(d: Direction): (axis: Axis)
    requires IsReading(d)
    ensures Reading(axis) == d
  {
    match d
    case Right => Row
    case Down => Column
    case DownRight => Descending
    case UpRight => Ascending
  }

  /** First cell, in reading order, of the length-`n` window on `axis` whose last-filled cell is (x, y). */
  function Origin(axis: Axis, n: int, x: int, y: int): (int, int) {
    match axis
    case Row => (x - (n - 1), y)
    case Column => (x, y - (n - 1))
    case Descending => (x - (n - 1), y - (n - 1))
    case Ascending => (x, y)
  }

  /** Last-filled cell of the length-`n` window on `axis` that is read from (a, b). */
  function LastFilled(axis: Axis, n: int, a: int, b: int): (e: (int, int))
    ensures Origin(axis, n, e.0, e.1) == (a, b)
  {
    match axis
    case Row => (a + (n - 1), b)
    case Column => (a, b + (n - 1))
    case Descending => (a + (n - 1), b + (n - 1))
    case Ascending => (a, b)
  }

  /** The guard under which the collision test examines `axis` at (x, y) for a word of length `n`. */
  predicate Fits(axis: Axis, size: int, n: int, x: int, y: int) {
    match axis
    case Row => n <= x + 1
    case Column => y >= n - 1
    case Descending => n <= x + 1 && n <= y + 1
    case Ascending => x + n <= size && y + 1 - n >= 0
  }

  /**
   The guards are exact: an axis is examined at (x, y) precisely when its whole
   window lies inside the board.
   */
  lemma FitsExactly(axis: Axis, size: int, n: int, x: int, y: int)
    requires InBounds(size, x, y) && n >= 1
    ensures Fits(axis, size, n, x, y)
        <==> RayFits(size, n, Origin(axis, n, x, y).0, Origin(axis, n, x, y).1, Reading(axis))
  {
  }

  /**
   Every cell of a window is its last-filled cell (x, y) or comes strictly
   before it in row-major order, and (x, y) occurs in it exactly once.
   */
  lemma WindowBeforeLast(axis: Axis, size: int, n: int, x: int, y: int, k: int)
    requires InBounds(size, x, y) && n >= 1 && Fits(axis, size, n, x, y) && 0 <= k < n
    ensures var c := Step(Reading(axis), Origin(axis, n, x, y).0, Origin(axis, n, x, y).1, k);
      InBounds(size, c.0, c.1)
      && (c == (x, y) <==> k == (if axis.Ascending? then 0 else n - 1))
      && (c != (x, y) ==> Before(c.0, c.1, x, y))
  {
  }

  /** The length-`n` window on `axis` whose last-filled cell is (x, y). */
  function Window(g: Grid, size: nat, axis: Axis, n: int, x: int, y: int): (w: seq<Option<char>>)
    requires Square(g, size) && InBounds(size, x, y) && n >= 1 && Fits(axis, size, n, x, y)
    ensures |w| == n
  {
    Ray(g, size, n, Origin(axis, n, x, y).0, Origin(axis, n, x, y).1, Reading(axis))
  }

  /** A window depends only on the cells up to and including its last-filled cell. */
  lemma WindowAgree(g: Grid, h: Grid, size: nat, axis: Axis, n: int, x: int, y: int)
    requires Square(g, size) && Square(h, size) && InBounds(size, x, y) && n >= 1
    requires Fits(axis, size, n, x, y)
    requires AgreeBefore(g, h, size, x, y) && g[y][x] == h[y][x]
    ensures Window(g, size, axis, n, x, y) == Window(h, size, axis, n, x, y)
  {
  }

  /** No window, on any of the four axes, spells the word forwards or backwards. */
  ghost predicate NoWindowSpells(g: Grid, size: nat, word: seq<char>)
    requires Square(g, size)
  {
    forall axis, y, x | InBounds(size, x, y) && |word| >= 1 && Fits(axis, size, |word|, x, y)
      :: !Spells(Window(g, size, axis, |word|, x, y), word)
  }

  /** No run of `|word|` consecutive cells, in any of the eight directions, reads the word. */
  ghost predicate NoRaySpells(g: Grid, size: nat, word: seq<char>)
    requires Square(g, size)
  {
    forall d, b, a | RayFits(size, |word|, a, b, d) :: Ray(g, size, |word|, a, b, d) != Lift(word)
  }

  /** A ray read in a reading direction is the window that ends at its last-filled cell. */
  lemma ReadingRayIsWindow(g: Grid, size: nat, n: int, a: int, b: int, d: Direction)
    requires Square(g, size) && RayFits(size, n, a, b, d) && IsReading(d)
    ensures var e := LastFilled(AxisOf(d), n, a, b);
      InBounds(size, e.0, e.1) && Fits(AxisOf(d), size, n, e.0, e.1)
      && Window(g, size, AxisOf(d), n, e.0, e.1) == Ray(g, size, n, a, b, d)
  {
  }

  /**
   Checking the four axes in both letter orders covers all eight reading
   directions, and conversely.
   */
  lemma {:induction false} WindowsCoverRays(g: Grid, size: nat, word: seq<char>)
    requires Square(g, size)
    ensures NoWindowSpells(g, size, word) <==> NoRaySpells(g, size, word)
  {
    var n := |word|;
    if NoWindowSpells(g, size, word) {
      forall d, b, a | RayFits(size, n, a, b, d)
        ensures Ray(g, size, n, a, b, d) != Lift(word)
      {
        if IsReading(d) {
          ReadingRayIsWindow(g, size, n, a, b, d);
        } else {
          var f := Step(d, a, b, n - 1);
          RayReversed(g, size, n, a, b, d);
          ReadingRayIsWindow(g, size, n, f.0, f.1, Opposite(d));
          ReverseLift(word);
        }
      }
    }
    if NoRaySpells(g, size, word) {
      forall axis, y, x | InBounds(size, x, y) && n >= 1 && Fits(axis, size, n, x, y)
        ensures !Spells(Window(g, size, axis, n, x, y), word)
      {
        var o := Origin(axis, n, x, y);
        var w := Window(g, size, axis, n, x, y);
        assert w == Ray(g, size, n, o.0, o.1, Reading(axis));
        if w == Lift(Reverse(word)) {
          RayReversed(g, size, n, o.0, o.1, Reading(axis));
          ReverseLift(Reverse(word));
          ReverseReverse(word);
        }
      }
    }
  }
}

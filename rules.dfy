/** The transition rule of the game, as pure functions on board values.
    A board of width w and height h has w rows (the outer index, row in [0, w))
    of h cells each (the inner index, col in [0, h)). */
module Rules {
  import opened Cells

  /** The value of one generation: a sequence of rows. */
  type Board = seq<seq<Cell>>

  predicate IsBoard(b: Board, w: nat, h: nat) {
    |b| == w && forall r :: 0 <= r < w ==> |b[r]| == h
  }

  function Max(a: int, b: int): int { if a < b then b else a }
  function Min(a: int, b: int): int { if a < b then a else b }

  // The clamped 3x3 window around (row, col): rows Left..Right, cols Top..Bottom.
  function Left(row: int): int { Max(row - 1, 0) }
  function Right(row: int, w: nat): int { Min(row + 1, w - 1) }
  function Top(col: int): int { Max(col - 1, 0) }
  function Bottom(col: int, h: nat): int { Min(col + 1, h - 1) }

  /** Whether (r, c) lies in the clamped window around (row, col). */
  predicate InWindow(w: nat, h: nat, row: int, col: int, r: int, c: int) {
    Left(row) <= r <= Right(row, w) && Top(col) <= c <= Bottom(col, h)
  }

  /** (r, c) is a position of b holding a green cell. Positions outside b are not green,
      so the counts below need no precondition; on a board of the right size every
      position they visit is inside it. */
  predicate GreenAt(b: Board, r: int, c: int) {
    0 <= r < |b| && 0 <= c < |b[r]| && IsGreen(b[r][c])
  }

  /** Green cells b[r][c] for r in [r0, r1) in column c, the cell (row, col) left out.
      Adding one row at a time from the top, as the inner counting loop does. */
  function SliceCount(b: Board, c: int, r0: int, r1: int, row: int, col: int): nat
    decreases r1 - r0
  {
    if r1 <= r0 then 0
    else SliceCount(b, c, r0, r1 - 1, row, col)
         + (if (r1 - 1 == row && c == col) || !GreenAt(b, r1 - 1, c) then 0 else 1)
  }

  /** Green cells in columns [c0, c1) by rows [r0, r1), the cell (row, col) left out.
      Adding one column at a time, as the outer counting loop does. */
  function WindowCount(b: Board, c0: int, c1: int, r0: int, r1: int, row: int, col: int): nat
    decreases c1 - c0
  {
    if c1 <= c0 then 0
    else WindowCount(b, c0, c1 - 1, r0, r1, row, col) + SliceCount(b, c1 - 1, r0, r1, row, col)
  }

  /** The number of green neighbours of (row, col) inside its clamped window. */
  function NeighbourCount(b: Board, w: nat, h: nat, row: int, col: int): nat
    requires IsBoard(b, w, h) && 0 <= row < w && 0 <= col < h
  {
    WindowCount(b, Top(col), Bottom(col, h) + 1, Left(row), Right(row, w) + 1, row, col)
  }

  /** The value of (row, col) in the next generation. A cell holding "0" turns
      green on 3 or 6 green neighbours; any other cell is green afterwards on 2, 3 or 6. */
  function NextCell(b: Board, w: nat, h: nat, row: int, col: int): Cell
    requires IsBoard(b, w, h) && 0 <= row < w && 0 <= col < h
  {
    var n := NeighbourCount(b, w, h, row, col);
    if IsRed(b[row][col]) then
      (if n == 3 || n == 6 then GreenCell else RedCell)
    else
      (if n == 2 || n == 3 || n == 6 then GreenCell else RedCell)
  }

  /** One generation step: every cell replaced by its next value. */
  function Step(b: Board, w: nat, h: nat): (s: Board)
    requires IsBoard(b, w, h)
    ensures IsBoard(s, w, h)
    ensures forall r, c :: 0 <= r < w && 0 <= c < h ==> s[r][c] == GreenCell || s[r][c] == RedCell
  {
    seq(w, r requires 0 <= r < w => seq(h, c requires 0 <= c < h => NextCell(b, w, h, r, c)))
  }

  /** Generation 0 (the board b) followed by n generation steps; n <= 0 gives [b]. */
  function Evolution(b: Board, w: nat, h: nat, n: int): (e: seq<Board>)
    requires IsBoard(b, w, h)
    ensures |e| == (if n <= 0 then 1 else n + 1)
    ensures e[0] == b
    ensures forall k :: 0 <= k < |e| ==> IsBoard(e[k], w, h)
    decreases n
  {
    if n <= 0 then [b]
    else
      var e := Evolution(b, w, h, n - 1);
      e + [Step(e[|e| - 1], w, h)]
  }

  /** The generations (indices into history) in which cell [y][x] is green. */
  ghost function GreenGenerations(history: seq<Board>, y: int, x: int): set<int>
  {
    set k | 0 <= k < |history| && GreenAt(history[k], y, x)
  }

  //
  // The transition rule
  //

  /** The rule as the game states it, for every cell of the board. */
  lemma NextCellRule(b: Board, w: nat, h: nat, row: int, col: int)
    requires IsBoard(b, w, h) && 0 <= row < w && 0 <= col < h
    ensures var n, next := NeighbourCount(b, w, h, row, col), NextCell(b, w, h, row, col);
      (next == GreenCell || next == RedCell) &&
      (IsRed(b[row][col]) ==> (IsGreen(next) <==> n == 3 || n == 6)) &&
      (!IsRed(b[row][col]) ==> (IsGreen(next) <==> n == 2 || n == 3 || n == 6))
  {
  }

  /** The set of green neighbours of (row, col): positions in the clamped window,
      other than (row, col) itself, whose cell is green. */
  ghost function GreenNeighbours(b: Board, w: nat, h: nat, row: int, col: int): set<(int, int)>
    requires IsBoard(b, w, h)
  {
    set r, c | 0 <= r < w && 0 <= c < h && InWindow(w, h, row, col, r, c)
                && (r != row || c != col) && IsGreen(b[r][c]) :: (r, c)
  }

  /** The cells SliceCount counts, gathered in the same order. */
  ghost function SliceSet(b: Board, c: int, r0: int, r1: int, row: int, col: int): set<(int, int)>
    decreases r1 - r0
  {
    if r1 <= r0 then {}
    else SliceSet(b, c, r0, r1 - 1, row, col)
         + (if (r1 - 1 == row && c == col) || !GreenAt(b, r1 - 1, c) then {} else {(r1 - 1, c)})
  }

  /** The cells WindowCount counts, gathered in the same order. */
  ghost function WindowSet(b: Board, c0: int, c1: int, r0: int, r1: int, row: int, col: int): set<(int, int)>
    decreases c1 - c0
  {
    if c1 <= c0 then {}
    else WindowSet(b, c0, c1 - 1, r0, r1, row, col) + SliceSet(b, c1 - 1, r0, r1, row, col)
  }

  lemma {:induction false} SliceSetMembers(b: Board, c: int, r0: int, r1: int, row: int, col: int)
    ensures forall p :: p in SliceSet(b, c, r0, r1, row, col) <==>
              r0 <= p.0 < r1 && p.1 == c && p != (row, col) && GreenAt(b, p.0, c)
    decreases r1 - r0
  {
    if r0 < r1 {
      SliceSetMembers(b, c, r0, r1 - 1, row, col);
    }
  }

  lemma {:induction false} WindowSetMembers(b: Board, c0: int, c1: int, r0: int, r1: int, row: int, col: int)
    ensures forall p :: p in WindowSet(b, c0, c1, r0, r1, row, col) <==>
              r0 <= p.0 < r1 && c0 <= p.1 < c1 && p != (row, col) && GreenAt(b, p.0, p.1)
    decreases c1 - c0
  {
    if c0 < c1 {
      WindowSetMembers(b, c0, c1 - 1, r0, r1, row, col);
      SliceSetMembers(b, c1 - 1, r0, r1, row, col);
    }
  }

  lemma {:induction false} SliceCountIsSize(b: Board, c: int, r0: int, r1: int, row: int, col: int)
    ensures SliceCount(b, c, r0, r1, row, col) == |SliceSet(b, c, r0, r1, row, col)|
    decreases r1 - r0
  {
    if r0 < r1 {
      SliceCountIsSize(b, c, r0, r1 - 1, row, col);
      SliceSetMembers(b, c, r0, r1 - 1, row, col);
    }
  }

  lemma DisjointUnionSize<T>(a: set<T>, b: set<T>)
    requires a * b == {}
    ensures |a + b| == |a| + |b|
  {
  }

  lemma {:induction false} WindowCountIsSize(b: Board, c0: int, c1: int, r0: int, r1: int, row: int, col: int)
    ensures WindowCount(b, c0, c1, r0, r1, row, col) == |WindowSet(b, c0, c1, r0, r1, row, col)|
    decreases c1 - c0
  {
    if c0 < c1 {
      var prev, last := WindowSet(b, c0, c1 - 1, r0, r1, row, col), SliceSet(b, c1 - 1, r0, r1, row, col);
      WindowCountIsSize(b, c0, c1 - 1, r0, r1, row, col);
      SliceCountIsSize(b, c1 - 1, r0, r1, row, col);
      WindowSetMembers(b, c0, c1 - 1, r0, r1, row, col);
      SliceSetMembers(b, c1 - 1, r0, r1, row, col);
      assert prev * last == {};
      DisjointUnionSize(prev, last);
    }
  }

  /** The cells the counting loops visit and count are exactly the green neighbours. */
  lemma WindowSetIsGreenNeighbours(b: Board, w: nat, h: nat, row: int, col: int)
    requires IsBoard(b, w, h) && 0 <= row < w && 0 <= col < h
    ensures WindowSet(b, Top(col), Bottom(col, h) + 1, Left(row), Right(row, w) + 1, row, col)
            == GreenNeighbours(b, w, h, row, col)
  {
    var c0, c1, r0, r1 := Top(col), Bottom(col, h) + 1, Left(row), Right(row, w) + 1;
    WindowSetMembers(b, c0, c1, r0, r1, row, col);
    var window, neighbours := WindowSet(b, c0, c1, r0, r1, row, col), GreenNeighbours(b, w, h, row, col);
    forall p | p in window
      ensures p in neighbours
    {
      assert InWindow(w, h, row, col, p.0, p.1) && p == (p.0, p.1);
    }
    forall p | p in neighbours
      ensures p in window
    {
      var r, c :| 0 <= r < w && 0 <= c < h && InWindow(w, h, row, col, r, c)
                  && (r != row || c != col) && IsGreen(b[r][c]) && p == (r, c);
      assert GreenAt(b, r, c);
    }
  }

  /** The count the loops compute is the number of green neighbours in the clamped window. */
  lemma NeighbourCountIsGreenNeighbours(b: Board, w: nat, h: nat, row: int, col: int)
    requires IsBoard(b, w, h) && 0 <= row < w && 0 <= col < h
    ensures NeighbourCount(b, w, h, row, col) == |GreenNeighbours(b, w, h, row, col)|
  {
    WindowCountIsSize(b, Top(col), Bottom(col, h) + 1, Left(row), Right(row, w) + 1, row, col);
    WindowSetIsGreenNeighbours(b, w, h, row, col);
  }


  //
  // Bounds of the clamped window
  //

  lemma {:induction false} SliceCountBound(b: Board, c: int, r0: int, r1: int, row: int, col: int)
    requires r0 <= r1
    ensures SliceCount(b, c, r0, r1, row, col)
            <= (r1 - r0) - (if c == col && r0 <= row < r1 then 1 else 0)
    decreases r1 - r0
  {
    if r0 < r1 {
      SliceCountBound(b, c, r0, r1 - 1, row, col);
    }
  }

  /** The number of cells in a window of cs columns by rs rows. */
  function Area(cs: int, rs: int): int
    decreases cs
  {
    if cs <= 0 then 0 else Area(cs - 1, rs) + rs
  }

  lemma {:induction false} WindowCountBound(b: Board, c0: int, c1: int, r0: int, r1: int, row: int, col: int)
    requires r0 <= r1 && c0 <= c1
    ensures WindowCount(b, c0, c1, r0, r1, row, col)
            <= Area(c1 - c0, r1 - r0) - (if c0 <= col < c1 && r0 <= row < r1 then 1 else 0)
    decreases c1 - c0
  {
    if c0 < c1 {
      WindowCountBound(b, c0, c1 - 1, r0, r1, row, col);
      SliceCountBound(b, c1 - 1, r0, r1, row, col);
    }
  }

  /** A cell has at most 8 green neighbours, at most 5 on an edge and at most 3 in a corner. */
  lemma NeighbourCountBounds(b: Board, w: nat, h: nat, row: int, col: int)
    requires IsBoard(b, w, h) && 0 <= row < w && 0 <= col < h
    ensures NeighbourCount(b, w, h, row, col) <= 8
    ensures (row == 0 || row == w - 1 || col == 0 || col == h - 1) ==> NeighbourCount(b, w, h, row, col) <= 5
    ensures (row == 0 || row == w - 1) && (col == 0 || col == h - 1) ==> NeighbourCount(b, w, h, row, col) <= 3
  {
    var c0, c1, r0, r1 := Top(col), Bottom(col, h) + 1, Left(row), Right(row, w) + 1;
    WindowCountBound(b, c0, c1, r0, r1, row, col);
    var cs, rs := c1 - c0, r1 - r0;
    assert 1 <= cs <= 3 && 1 <= rs <= 3;
    assert (row == 0 || row == w - 1) ==> rs <= 2;
    assert (col == 0 || col == h - 1) ==> cs <= 2;
    assert Area(1, rs) == rs;
    assert Area(2, rs) == 2 * rs;
    assert Area(3, rs) == 3 * rs;
  }

  //
  // Locality
  //

  lemma {:induction false} SliceCountLocal(b: Board, b': Board, c: int, r0: int, r1: int, row: int, col: int)
    requires forall r :: r0 <= r < r1 ==> GreenAt(b, r, c) == GreenAt(b', r, c)
    ensures SliceCount(b, c, r0, r1, row, col) == SliceCount(b', c, r0, r1, row, col)
    decreases r1 - r0
  {
    if r0 < r1 {
      SliceCountLocal(b, b', c, r0, r1 - 1, row, col);
    }
  }

  lemma {:induction false} WindowCountLocal(b: Board, b': Board, c0: int, c1: int, r0: int, r1: int, row: int, col: int)
    requires forall r, c :: r0 <= r < r1 && c0 <= c < c1 ==> GreenAt(b, r, c) == GreenAt(b', r, c)
    ensures WindowCount(b, c0, c1, r0, r1, row, col) == WindowCount(b', c0, c1, r0, r1, row, col)
    decreases c1 - c0
  {
    if c0 < c1 {
      WindowCountLocal(b, b', c0, c1 - 1, r0, r1, row, col);
      SliceCountLocal(b, b', c1 - 1, r0, r1, row, col);
    }
  }

  /** The next value of (row, col) depends only on the old board inside its clamped window. */
  lemma NextCellLocal(b: Board, b': Board, w: nat, h: nat, row: int, col: int)
    requires IsBoard(b, w, h) && IsBoard(b', w, h) && 0 <= row < w && 0 <= col < h
    requires forall r, c :: 0 <= r < w && 0 <= c < h && InWindow(w, h, row, col, r, c) ==> b[r][c] == b'[r][c]
    ensures NeighbourCount(b, w, h, row, col) == NeighbourCount(b', w, h, row, col)
    ensures NextCell(b, w, h, row, col) == NextCell(b', w, h, row, col)
  {
    WindowCountLocal(b, b', Top(col), Bottom(col, h) + 1, Left(row), Right(row, w) + 1, row, col);
  }

  //
  // Generations
  //

  /** Each generation after the first is the step of the one before it. */
  lemma {:induction false} EvolutionChain(b: Board, w: nat, h: nat, n: int, k: int)
    requires IsBoard(b, w, h) && 0 <= k < n
    ensures k + 1 < |Evolution(b, w, h, n)|
    ensures Evolution(b, w, h, n)[k + 1] == Step(Evolution(b, w, h, n)[k], w, h)
    decreases n
  {
    if k + 1 < n {
      EvolutionChain(b, w, h, n - 1, k);
    }
  }

  /** One more generation adds its index exactly when [y][x] is green in it. */
  lemma GreenGenerationsSnoc(history: seq<Board>, b: Board, y: int, x: int)
    ensures |history| !in GreenGenerations(history, y, x)
    ensures GreenGenerations(history + [b], y, x)
            == GreenGenerations(history, y, x) + (if GreenAt(b, y, x) then {|history|} else {})
  {
  }

  /** A cell is green in at most as many generations as there are. */
  lemma {:induction false} GreenGenerationsBound(history: seq<Board>, y: int, x: int)
    ensures |GreenGenerations(history, y, x)| <= |history|
    decreases |history|
  {
    if history != [] {
      var prefix := history[..|history| - 1];
      GreenGenerationsBound(prefix, y, x);
      GreenGenerationsSnoc(prefix, history[|history| - 1], y, x);
      assert prefix + [history[|history| - 1]] == history;
    }
  }

  //
  // Fixed points and the worked example
  //

  predicate AllRed(b: Board) {
    forall r, c :: 0 <= r < |b| && 0 <= c < |b[r]| ==> b[r][c] == RedCell
  }

  lemma {:induction false} SliceCountNoGreen(b: Board, c: int, r0: int, r1: int, row: int, col: int)
    requires AllRed(b)
    ensures SliceCount(b, c, r0, r1, row, col) == 0
    decreases r1 - r0
  {
    if r0 < r1 {
      SliceCountNoGreen(b, c, r0, r1 - 1, row, col);
    }
  }

  lemma {:induction false} WindowCountNoGreen(b: Board, c0: int, c1: int, r0: int, r1: int, row: int, col: int)
    requires AllRed(b)
    ensures WindowCount(b, c0, c1, r0, r1, row, col) == 0
    decreases c1 - c0
  {
    if c0 < c1 {
      WindowCountNoGreen(b, c0, c1 - 1, r0, r1, row, col);
      SliceCountNoGreen(b, c1 - 1, r0, r1, row, col);
    }
  }

  /** An all-red board never changes: no red cell has 3 or 6 green neighbours. */
  lemma AllRedIsFixed(b: Board, w: nat, h: nat)
    requires IsBoard(b, w, h) && AllRed(b)
    ensures Step(b, w, h) == b
  {
    var s := Step(b, w, h);
    forall r | 0 <= r < w
      ensures s[r] == b[r]
    {
      forall c | 0 <= c < h
        ensures s[r][c] == b[r][c]
      {
        WindowCountNoGreen(b, Top(c), Bottom(c, h) + 1, Left(r), Right(r, w) + 1, r, c);
      }
    }
  }

  /** Every generation of an all-red board is all red, so no cell is ever green. */
  lemma AllRedNeverGreen(b: Board, w: nat, h: nat, n: int, y: int, x: int)
    requires IsBoard(b, w, h) && AllRed(b) && 0 <= y < w && 0 <= x < h
    ensures GreenGenerations(Evolution(b, w, h, n), y, x) == {}
  {
    AllRedEvolution(b, w, h, n);
  }

  lemma {:induction false} AllRedEvolution(b: Board, w: nat, h: nat, n: int)
    requires IsBoard(b, w, h) && AllRed(b)
    ensures forall k :: 0 <= k < |Evolution(b, w, h, n)| ==> Evolution(b, w, h, n)[k] == b
    decreases n
  {
    if n > 0 {
      AllRedEvolution(b, w, h, n - 1);
      AllRedIsFixed(b, w, h);
    }
  }

  /** One more generation appends the step of the last one. */
  lemma EvolutionNext(b: Board, w: nat, h: nat, n: int)
    requires IsBoard(b, w, h) && n >= 1
    ensures Evolution(b, w, h, n)[n] == Step(Evolution(b, w, h, n - 1)[n - 1], w, h)
    ensures Evolution(b, w, h, n)[1..] == Evolution(b, w, h, n - 1)[1..] + [Evolution(b, w, h, n)[n]]
  {
  }

  /** A shorter evolution is a prefix of a longer one. */
  lemma {:induction false} EvolutionPrefix(b: Board, w: nat, h: nat, m: int, n: int)
    requires IsBoard(b, w, h) && m <= n
    ensures Evolution(b, w, h, m) <= Evolution(b, w, h, n)
    decreases n - m
  {
    if m < n {
      EvolutionPrefix(b, w, h, m, n - 1);
    }
  }

  /** The 3x3 plus: rows "010", "111", "010". */
  const Plus: Board := [[RedCell, GreenCell, RedCell], [GreenCell, GreenCell, GreenCell], [RedCell, GreenCell, RedCell]]

  /** The centre of the plus has 4 green neighbours, so it turns red after one step;
      over generations 0 and 1 it is green only in generation 0. */
  lemma PlusCentre()
    ensures NeighbourCount(Plus, 3, 3, 1, 1) == 4
    ensures Step(Plus, 3, 3)[1][1] == RedCell
    ensures GreenGenerations(Evolution(Plus, 3, 3, 1), 1, 1) == {0}
  {
  }

  /** A cell holding neither "0" nor "1" falls under the survive set {2, 3, 6},
      where a red cell with the same neighbours dies, and it is never a green
      neighbour itself. Shown on the one-row board green, x, green. */
  lemma OtherValueAsymmetry()
    ensures NextCell([[GreenCell, Cell("2"), GreenCell]], 1, 3, 0, 1) == GreenCell
    ensures NextCell([[GreenCell, RedCell, GreenCell]], 1, 3, 0, 1) == RedCell
    ensures !GreenAt([[GreenCell, Cell("2"), GreenCell]], 0, 1)
    ensures NeighbourCount([[GreenCell, Cell("2"), GreenCell]], 1, 3, 0, 0) == 0
  {
    var b, red := [[GreenCell, Cell("2"), GreenCell]], [[GreenCell, RedCell, GreenCell]];
    assert SliceCount(b, 0, 0, 1, 0, 1) == 1 && SliceCount(b, 1, 0, 1, 0, 1) == 0 && SliceCount(b, 2, 0, 1, 0, 1) == 1;
    assert WindowCount(b, 0, 3, 0, 1, 0, 1) == 2;
    assert SliceCount(red, 0, 0, 1, 0, 1) == 1 && SliceCount(red, 1, 0, 1, 0, 1) == 0 && SliceCount(red, 2, 0, 1, 0, 1) == 1;
    assert WindowCount(red, 0, 3, 0, 1, 0, 1) == 2;
    assert SliceCount(b, 0, 0, 1, 0, 0) == 0 && SliceCount(b, 1, 0, 1, 0, 0) == 0;
    assert WindowCount(b, 0, 2, 0, 1, 0, 0) == 0;
  }
}

/** `Board.validate_starting_grid`: which starting grids are legal, stated declaratively, and the
    source's row-and-transpose check proved to decide exactly that. */
module Placement {
  import opened Util
  import opened Ships
  import opened Grid

  /** The distinct ValueErrors that `validate_starting_grid` raises. */
  datatype PlacementError =
    | WrongLength              // the grid does not have 100 fields
    | IllegalSizes             // some ship occurs more or fewer times than its size
    | StrayCharacters          // the grid holds a character other than ship symbols and '.'
    | Misplaced(symbol: char)  // this ship is not one straight run of its size

  /** Cell (x, y) belongs to the run of n cells that starts at (x0, y0) and goes right
      (horizontal) or down (vertical). */
  predicate InRun(x: int, y: int, x0: int, y0: int, n: nat, horizontal: bool)
  {
    if horizontal then y == y0 && x0 <= x < x0 + n
    else x == x0 && y0 <= y < y0 + n
  }

  /** The cells holding `s` are exactly the run of n cells from (x0, y0), which fits on the board. */
  ghost predicate Occupies(g: string, s: char, x0: int, y0: int, n: nat, horizontal: bool)
  {
    && |g| == Cells
    && 0 <= x0 < N && 0 <= y0 < N
    && (if horizontal then x0 + n <= N else y0 + n <= N)
    && forall x, y | 0 <= x < N && 0 <= y < N ::
         g[ToIndex(x, y)] == s <==> InRun(x, y, x0, y0, n, horizontal)
  }

  /** Ship `s` of size n lies in one straight, unbroken horizontal or vertical line. */
  ghost predicate StraightShip(g: string, s: char, n: nat)
  {
    exists x0, y0, horizontal :: Occupies(g, s, x0, y0, n, horizontal)
  }

  /** A legal starting grid: 100 cells, exactly the characters C, B, R, S, D and '.', and every
      ship of the catalog a straight line of its own size (which fixes how often its symbol occurs). */
  ghost predicate ValidFleet(g: string)
  {
    && |g| == Cells
    && CharSet(g) == Alphabet
    && forall k | 0 <= k < |Catalog| :: StraightShip(g, Catalog[k].symbol, Catalog[k].size)
  }

  /** The first ship of the catalog, from position k on, that is not a straight line. */
  ghost function FirstMisplaced(g: string, k: nat): Option<char>
    decreases |Catalog| - k
  {
    if k >= |Catalog| then None
    else if !StraightShip(g, Catalog[k].symbol, Catalog[k].size) then Some(Catalog[k].symbol)
    else FirstMisplaced(g, k + 1)
  }

  /** What validation must answer, in the order the source checks: length, then the count of
      every ship symbol, then the character set, then the first ship that is not a straight line. */
  ghost function Verdict(g: string): Outcome<PlacementError>
  {
    if |g| != Cells then Fail(WrongLength)
    else if exists k | 0 <= k < |Catalog| :: multiset(g)[Catalog[k].symbol] != Catalog[k].size
    then Fail(IllegalSizes)
    else if CharSet(g) != Alphabet then Fail(StrayCharacters)
    else match FirstMisplaced(g, 0)
      case Some(symbol) => Fail(Misplaced(symbol))
      case None => Pass
  }

  /** The k-th cell of a run. */
  function RunIndex(x0: int, y0: int, k: nat, horizontal: bool): nat
    requires 0 <= x0 < N && 0 <= y0 < N
    requires if horizontal then x0 + k < N else y0 + k < N
  {
    if horizontal then ToIndex(x0 + k, y0) else ToIndex(x0, y0 + k)
  }

  ghost function RunPositions(x0: int, y0: int, n: nat, horizontal: bool): set<nat>
    requires 0 <= x0 < N && 0 <= y0 < N
    requires if horizontal then x0 + n <= N else y0 + n <= N
  {
    set k: nat | k < n :: RunIndex(x0, y0, k, horizontal)
  }

  /** A run of n cells has n distinct positions. */
  lemma {:induction false} RunSize(x0: int, y0: int, n: nat, horizontal: bool)
    requires 0 <= x0 < N && 0 <= y0 < N
    requires if horizontal then x0 + n <= N else y0 + n <= N
    ensures |RunPositions(x0, y0, n, horizontal)| == n
    decreases n
  {
    if n > 0 {
      RunSize(x0, y0, n - 1, horizontal);
      var last := RunIndex(x0, y0, n - 1, horizontal);
      assert RunPositions(x0, y0, n, horizontal) == RunPositions(x0, y0, n - 1, horizontal) + {last};
      assert last !in RunPositions(x0, y0, n - 1, horizontal);
    }
  }

  /** When all n cells of a fitting run hold `s` and `s` occurs n times, the run is the whole ship. */
  lemma RunFillsCount(g: string, s: char, x0: int, y0: int, n: nat, horizontal: bool)
    requires |g| == Cells && 0 <= x0 < N && 0 <= y0 < N
    requires if horizontal then x0 + n <= N else y0 + n <= N
    requires forall k: nat | k < n :: g[RunIndex(x0, y0, k, horizontal)] == s
    requires multiset(g)[s] == n
    ensures Occupies(g, s, x0, y0, n, horizontal)
  {
    var run := RunPositions(x0, y0, n, horizontal);
    RunSize(x0, y0, n, horizontal);
    CountIsPositions(g, s);
    var all := Positions(g, s);
    assert run <= all;
    assert all == run + (all - run);
    assert |all - run| == 0;
    forall x, y | 0 <= x < N && 0 <= y < N
      ensures g[ToIndex(x, y)] == s <==> InRun(x, y, x0, y0, n, horizontal)
    {
      if InRun(x, y, x0, y0, n, horizontal) {
        var k: nat := if horizontal then x - x0 else y - y0;
        assert ToIndex(x, y) == RunIndex(x0, y0, k, horizontal);
      }
      if g[ToIndex(x, y)] == s {
        assert ToIndex(x, y) in all;
        assert ToIndex(x, y) in run;
      }
    }
  }

  /** A ship lying in a straight line of n cells occurs exactly n times. */
  lemma OccupiedCount(g: string, s: char, x0: int, y0: int, n: nat, horizontal: bool)
    requires Occupies(g, s, x0, y0, n, horizontal)
    ensures multiset(g)[s] == n
  {
    var run := RunPositions(x0, y0, n, horizontal);
    RunSize(x0, y0, n, horizontal);
    CountIsPositions(g, s);
    forall i | i in Positions(g, s)
      ensures i in run
    {
      var x, y := i % N, i / N;
      assert i == ToIndex(x, y);
      var k: nat := if horizontal then x - x0 else y - y0;
      assert i == RunIndex(x0, y0, k, horizontal);
    }
    forall i | i in run
      ensures i in Positions(g, s)
    {
      var k: nat :| k < n && i == RunIndex(x0, y0, k, horizontal);
      if horizontal {
        assert InRun(x0 + k, y0, x0, y0, n, horizontal);
      } else {
        assert InRun(x0, y0 + k, x0, y0, n, horizontal);
      }
    }
    assert Positions(g, s) == run;
  }

  /** The first occurrence of a straight ship (`grid.index(symbol)`) is the start of its run. */
  lemma FirstOfRun(g: string, s: char, x0: int, y0: int, n: nat, horizontal: bool)
    requires Occupies(g, s, x0, y0, n, horizontal) && n > 0
    ensures s in g && IndexOf(g, s) == ToIndex(x0, y0)
  {
    assert InRun(x0, y0, x0, y0, n, horizontal);
    var start := ToIndex(x0, y0);
    assert g[start] == s;
    var p := IndexOf(g, s);
    assert p == ToIndex(p % N, p / N);
    assert InRun(p % N, p / N, x0, y0, n, horizontal);
  }

  /** The count of `s` in row y is 1 when only (x, y) of that row holds it. */
  lemma RowCountOne(g: string, s: char, x: int, y: int)
    requires |g| == Cells && 0 <= x < N && 0 <= y < N && g[ToIndex(x, y)] == s
    requires forall x' | 0 <= x' < N && x' != x :: g[ToIndex(x', y)] != s
    ensures multiset(Row(g, y))[s] == 1
  {
    var row := Row(g, y);
    CountIsPositions(row, s);
    assert Positions(row, s) == {x};
  }

  /** The source's horizontal case (the first row holding the symbol holds it more than once):
      `g[row][col:col+size] == symbol*size` holds exactly when the ship is a straight line. */
  lemma HorizontalCheck(g: string, s: char, n: nat, p: nat)
    requires |g| == Cells && 2 <= n && multiset(g)[s] == n
    requires s in g && p == IndexOf(g, s)
    requires multiset(Row(g, p / N))[s] != 1
    ensures (p % N + n <= N && Row(g, p / N)[p % N .. p % N + n] == Repeat(s, n))
        <==> StraightShip(g, s, n)
  {
    var x, y := p % N, p / N;
    assert p == ToIndex(x, y);
    if x + n <= N && Row(g, y)[x .. x + n] == Repeat(s, n) {
      RowRunIsShip(g, s, n, x, y);
    }
    if StraightShip(g, s, n) {
      ShipIsRowRun(g, s, n, x, y);
    }
  }

  /** A run of n copies of `s` in a row, with `s` occurring n times, is a horizontal ship. */
  lemma RowRunIsShip(g: string, s: char, n: nat, x: int, y: int)
    requires |g| == Cells && multiset(g)[s] == n
    requires 0 <= x < N && 0 <= y < N && x + n <= N && Row(g, y)[x .. x + n] == Repeat(s, n)
    ensures StraightShip(g, s, n)
  {
    var row := Row(g, y);
    forall k: nat | k < n
      ensures g[RunIndex(x, y, k, true)] == s
    {
      assert row[x .. x + n][k] == row[x + k];
    }
    RunFillsCount(g, s, x, y, n, true);
  }

  /** A straight ship of at least two cells that starts at (x, y) and has more than one cell in
      row y lies along that row. */
  lemma ShipIsRowRun(g: string, s: char, n: nat, x: int, y: int)
    requires |g| == Cells && 2 <= n && StraightShip(g, s, n)
    requires 0 <= x < N && 0 <= y < N && s in g && IndexOf(g, s) == ToIndex(x, y)
    requires multiset(Row(g, y))[s] != 1
    ensures x + n <= N && Row(g, y)[x .. x + n] == Repeat(s, n)
  {
    var x0, y0, horizontal :| Occupies(g, s, x0, y0, n, horizontal);
    FirstOfRun(g, s, x0, y0, n, horizontal);
    assert x0 == x && y0 == y;
    if horizontal {
      var run := Row(g, y)[x .. x + n];
      forall k | 0 <= k < n
        ensures run[k] == s
      {
        assert InRun(x0 + k, y0, x0, y0, n, horizontal);
      }
    } else {
      forall x' | 0 <= x' < N && x' != x0
        ensures g[ToIndex(x', y0)] != s
      {
        assert !InRun(x', y0, x0, y0, n, horizontal);
      }
      RowCountOne(g, s, x0, y0);
      assert false;
    }
  }

  /** A vertical ship found by the transposed search: the cells under its first cell in the first
      column holding it all hold the symbol, so (counts being right) it is a straight line. */
  lemma VerticalSound(g: string, s: char, n: nat, x: int, y: int)
    requires |g| == Cells && multiset(g)[s] == n
    requires 0 <= x < N && 0 <= y < N
    requires y + n <= N && Column(g, x)[y .. y + n] == Repeat(s, n)
    ensures StraightShip(g, s, n)
  {
    var run := Column(g, x)[y .. y + n];
    forall k: nat | k < n
      ensures g[RunIndex(x, y, k, false)] == s
    {
      assert run[k] == Column(g, x)[y + k];
    }
    RunFillsCount(g, s, x, y, n, false);
  }

  /** A straight ship whose first row holds it once is vertical, starts in the first column that
      holds it and at the first row of that column, so the transposed comparison succeeds. */
  lemma VerticalComplete(g: string, s: char, n: nat, p: nat, x: int, y: int)
    requires |g| == Cells && 2 <= n
    requires s in g && p == IndexOf(g, s)
    requires multiset(Row(g, p / N))[s] == 1
    requires 0 <= x < N && s in Column(g, x) && y == IndexOf(Column(g, x), s)
    requires forall x' | 0 <= x' < x :: s !in Column(g, x')
    requires StraightShip(g, s, n)
    ensures y + n <= N && Column(g, x)[y .. y + n] == Repeat(s, n)
  {
    var col := Column(g, x);
    var x0, y0, horizontal :| Occupies(g, s, x0, y0, n, horizontal);
    FirstOfRun(g, s, x0, y0, n, horizontal);
    if horizontal {
      HorizontalRowCount(g, s, n, x0, y0);
      assert false;
    }
    assert InRun(x0, y0, x0, y0, n, horizontal);
    assert InRun(x, y, x0, y0, n, horizontal);
    assert x0 == x && y0 == y;
    var run := col[y .. y + n];
    forall k | 0 <= k < n
      ensures run[k] == s
    {
      assert InRun(x, y + k, x0, y0, n, horizontal);
    }
  }

  /** A horizontal ship of two or more cells occurs at least twice in its row. */
  lemma HorizontalRowCount(g: string, s: char, n: nat, x0: int, y0: int)
    requires Occupies(g, s, x0, y0, n, true) && 2 <= n
    ensures multiset(Row(g, y0))[s] >= 2
  {
    var row := Row(g, y0);
    assert InRun(x0, y0, x0, y0, n, true) && InRun(x0 + 1, y0, x0, y0, n, true);
    CountAtLeast(row, s, {x0, x0 + 1});
  }

  /** The early-exit search of `validate_starting_grid` over the rows of a transposed matrix:
      the first row holding the symbol and the symbol's first position in it. One row (`known`)
      is known to hold the symbol. */
  method FirstRowHolding(rows: seq<string>, c: char, ghost known: nat) returns (row: nat, col: nat)
    requires known < |rows| && c in rows[known]
    ensures row <= known && c in rows[row] && col == IndexOf(rows[row], c)
    ensures forall r | 0 <= r < row :: c !in rows[r]
  {
    for r := 0 to |rows|
      invariant r <= known
      invariant forall r' | 0 <= r' < r :: c !in rows[r']
    {
      if c in rows[r] {
        row, col := r, IndexOf(rows[r], c);
        return;
      }
    }
  }

  /** One pass of the per-ship loop of `validate_starting_grid`: find the symbol's first cell,
      count it in that row, and for a ship found once there search the transposed rows for its
      first column; then compare `size` cells with the symbol. True exactly when the ship is one
      straight line of its size (the counts were checked before). */
  method PlacedCorrectly(grid: string, ship: Ship) returns (ok: bool)
    requires |grid| == Cells && ship in Catalog && multiset(grid)[ship.symbol] == ship.size
    ensures ok <==> StraightShip(grid, ship.symbol, ship.size)
  {
    var symbol, size := ship.symbol, ship.size;
    MatrixCells(grid);
    var g := AsMatrix(grid);
    assert symbol in multiset(grid);
    var first := IndexOf(grid, symbol);
    var row, col := first / N, first % N;
    assert g[row] == Row(grid, row);
    var symbolsInRow := multiset(g[row])[symbol];
    if symbolsInRow == 1 {
      // must be vertically placed: transposing turns the columns into rows
      g := Transpose(g);
      assert first == ToIndex(col, row);
      assert g[col] == Column(grid, col);
      assert g[col][row] == symbol;
      row, col := FirstRowHolding(g, symbol, col);
      assert g[row] == Column(grid, row);
      assert forall x' | 0 <= x' < row :: g[x'] == Column(grid, x');
      ok := !(col + size > N || g[row][col .. col + size] != Repeat(symbol, size));
      if ok {
        VerticalSound(grid, symbol, size, row, col);
      }
      if StraightShip(grid, symbol, size) {
        VerticalComplete(grid, symbol, size, first, row, col);
      }
    } else {
      HorizontalCheck(grid, symbol, size, first);
      ok := !(col + size > N || g[row][col .. col + size] != Repeat(symbol, size));
    }
  }

  /** `Board.validate_starting_grid`: the length, the count of each catalog symbol, the
      character set, then each ship in catalog order. */
  method ValidateStartingGrid(grid: string) returns (r: Outcome<PlacementError>)
    ensures r == Verdict(grid)
  {
    var counter := multiset(grid);
    if |grid| != Cells {
      return Fail(WrongLength);
    }
    for k := 0 to |Catalog|
      invariant forall j | 0 <= j < k :: counter[Catalog[j].symbol] == Catalog[j].size
    {
      var v := Catalog[k];
      if v.size != counter[v.symbol] {
        return Fail(IllegalSizes);
      }
    }
    if CharSet(grid) != Alphabet {
      return Fail(StrayCharacters);
    }
    for k := 0 to |Catalog|
      invariant FirstMisplaced(grid, 0) == FirstMisplaced(grid, k)
    {
      var s := Catalog[k];
      var ok := PlacedCorrectly(grid, s);
      if !ok {
        return Fail(Misplaced(s.symbol));
      }
    }
    return Pass;
  }

  /** Past a position where no ship is misplaced, every ship from there on is a straight line. */
  lemma {:induction false} NoneMisplacedFrom(g: string, k: nat)
    requires FirstMisplaced(g, k) == None
    ensures forall j | k <= j < |Catalog| :: StraightShip(g, Catalog[j].symbol, Catalog[j].size)
    decreases |Catalog| - k
  {
    if k < |Catalog| {
      NoneMisplacedFrom(g, k + 1);
    }
  }

  /** A legal fleet has every catalog symbol exactly `size` times. */
  lemma ValidFleetCounts(g: string)
    requires ValidFleet(g)
    ensures forall k | 0 <= k < |Catalog| :: multiset(g)[Catalog[k].symbol] == Catalog[k].size
  {
    forall k | 0 <= k < |Catalog|
      ensures multiset(g)[Catalog[k].symbol] == Catalog[k].size
    {
      assert StraightShip(g, Catalog[k].symbol, Catalog[k].size);
      var x0, y0, horizontal :| Occupies(g, Catalog[k].symbol, x0, y0, Catalog[k].size, horizontal);
      OccupiedCount(g, Catalog[k].symbol, x0, y0, Catalog[k].size, horizontal);
    }
  }

  /** Validation accepts a grid exactly when it is a legal fleet: 100 cells, only ship symbols
      and '.', and every ship one straight unbroken line of its size. */
  lemma AcceptedIffValidFleet(g: string)
    ensures Verdict(g) == Pass <==> ValidFleet(g)
  {
    if Verdict(g) == Pass {
      NoneMisplacedFrom(g, 0);
    }
    if ValidFleet(g) {
      ValidFleetCounts(g);
      var k: nat := 0;
      while k < |Catalog|
        invariant k <= |Catalog|
        invariant FirstMisplaced(g, 0) == FirstMisplaced(g, k)
      {
        k := k + 1;
      }
    }
  }
}

/** The 10x10 grid as a 100-character string, its markers, and the static helpers of `Board`
    (`_to_1d`, `grid_as_matrix`, the transposition used by the placement check). */
module Grid {
  import opened Ships

  const N: nat := 10
  const Cells: nat := 100

  const HIT: char := '+'
  const MISS: char := '-'
  const SUNK: char := 'x'
  const NO_ACTION: char := '.'

  /** `Board.ACTIONS`: the markers a shot leaves behind. */
  const Actions: set<char> := {HIT, MISS, SUNK}

  /** The characters a starting grid may hold: ship symbols and the empty field. */
  const Alphabet: set<char> := ShipSymbols + {NO_ACTION}

  /** `Board._to_1d`: cell (x, y) lives at index y*10+x. The request schema keeps x and y in [0, 9].
      The mapping is a bijection onto [0, 100): the index gives back its column and row. */
  function ToIndex(x: int, y: int): (xy: nat)
    requires 0 <= x < N && 0 <= y < N
    ensures xy < Cells && xy % N == x && xy / N == y
  {
    y * N + x
  }

  /** `set(grid)` */
  function CharSet(s: string): (chars: set<char>)
  {
    set c | c in s
  }

  /** `s.index(c)`: the first position of `c` in `s`. */
  function IndexOf(s: string, c: char): (i: nat)
    requires c in s
    ensures i < |s| && s[i] == c && c !in s[..i]
  {
    if s[0] == c then 0
    else
      var j := IndexOf(s[1..], c);
      assert s[..j + 1] == [s[0]] + s[1..][..j];
      j + 1
  }

  /** `c * n`: the string of n copies of c. */
  function Repeat(c: char, n: nat): (r: string)
    ensures |r| == n && forall i | 0 <= i < n :: r[i] == c
  {
    seq(n, _ => c)
  }

  function Min(a: int, b: int): int { if a <= b then a else b }

  /** `Board.grid_as_matrix`: the grid cut into rows of ten characters; the last row is
      shorter when the length is not a multiple of ten. */
  function AsMatrix(grid: string): (rows: seq<string>)
    ensures |rows| == (|grid| + N - 1) / N
    ensures forall r | 0 <= r < |rows| :: 0 < |rows[r]| <= N
    decreases |grid|
  {
    if grid == [] then []
    else
      var cut := Min(N, |grid|);
      [grid[..cut]] + AsMatrix(grid[cut..])
  }

  /** `''.join(rows)` */
  function Flatten(rows: seq<string>): string
  {
    if rows == [] then [] else rows[0] + Flatten(rows[1..])
  }

  /** Cutting the grid into rows loses nothing: joining the rows gives the grid back. */
  lemma {:induction false} FlattenAsMatrix(grid: string)
    ensures Flatten(AsMatrix(grid)) == grid
    decreases |grid|
  {
    if grid != [] {
      var cut := Min(N, |grid|);
      FlattenAsMatrix(grid[cut..]);
      assert grid == grid[..cut] + grid[cut..];
    }
  }

  /** Row r of the matrix is the slice grid[r*10 .. r*10+10] (cut short at the end). */
  lemma {:induction false} AsMatrixRow(grid: string, r: nat)
    requires r * N < |grid|
    ensures r < |AsMatrix(grid)| && AsMatrix(grid)[r] == grid[r * N .. Min(r * N + N, |grid|)]
    decreases r
  {
    if r > 0 {
      var i := (r - 1) * N;
      assert i + N == r * N;
      AsMatrixRow(grid[N..], r - 1);
      SliceOfSuffix(grid, N, i, Min(i + N, |grid| - N));
    }
  }

  /** A slice of a suffix is a slice of the whole. */
  lemma SliceOfSuffix(s: string, c: nat, i: nat, j: nat)
    requires c <= |s| && i <= j <= |s| - c
    ensures s[c..][i..j] == s[c + i .. c + j]
  {
  }

  /** The length of the shortest row: `zip` stops there. */
  function ShortestRow(rows: seq<string>): (m: nat)
    requires rows != []
    ensures forall r | 0 <= r < |rows| :: m <= |rows[r]|
    ensures exists r | 0 <= r < |rows| :: m == |rows[r]|
  {
    if |rows| == 1 then |rows[0]|
    else
      var rest := ShortestRow(rows[1..]);
      assert forall r | 1 <= r < |rows| :: rows[r] == rows[1..][r - 1];
      if |rows[0]| <= rest then |rows[0]| else rest
  }

  /** `[''.join(r) for r in zip(*rows)]`: column c of the rows, for every column all rows have. */
  function Transpose(rows: seq<string>): (cols: seq<string>)
    ensures |cols| == if rows == [] then 0 else ShortestRow(rows)
    ensures forall c | 0 <= c < |cols| :: |cols[c]| == |rows|
    ensures forall c, r | 0 <= c < |cols| && 0 <= r < |rows| :: c < |rows[r]| && cols[c][r] == rows[r][c]
  {
    if rows == [] then []
    else
      var width := ShortestRow(rows);
      seq(width, c requires 0 <= c < width =>
        seq(|rows|, r requires 0 <= r < |rows| => rows[r][c]))
  }

  /** Transposing a rectangular matrix twice gives it back. */
  lemma TransposeTwice(rows: seq<string>)
    requires rows != [] && |rows[0]| > 0
    requires forall r | 0 <= r < |rows| :: |rows[r]| == |rows[0]|
    ensures Transpose(Transpose(rows)) == rows
  {
    var t := Transpose(rows);
    var tt := Transpose(t);
    assert |t| == |rows[0]|;
    assert |tt| == |rows|;
    forall r | 0 <= r < |rows|
      ensures tt[r] == rows[r]
    {
      assert |tt[r]| == |t| == |rows[r]|;
      forall c | 0 <= c < |rows[r]|
        ensures tt[r][c] == rows[r][c]
      {
        assert tt[r][c] == t[c][r];
      }
    }
  }

  /** Row y of a 100-character grid. */
  function Row(g: string, y: int): (row: string)
    requires |g| == Cells && 0 <= y < N
    ensures |row| == N && forall x | 0 <= x < N :: row[x] == g[ToIndex(x, y)]
  {
    g[y * N .. y * N + N]
  }

  /** Column x of a 100-character grid, top to bottom. */
  function Column(g: string, x: int): (col: string)
    requires |g| == Cells && 0 <= x < N
    ensures |col| == N && forall y | 0 <= y < N :: col[y] == g[ToIndex(x, y)]
  {
    seq(N, y requires 0 <= y < N => g[ToIndex(x, y)])
  }

  /** For a 100-character grid: `AsMatrix` gives its ten rows and transposing it its ten columns. */
  lemma MatrixCells(grid: string)
    requires |grid| == Cells
    ensures |AsMatrix(grid)| == N && |Transpose(AsMatrix(grid))| == N
    ensures forall y | 0 <= y < N :: AsMatrix(grid)[y] == Row(grid, y)
    ensures forall x | 0 <= x < N :: Transpose(AsMatrix(grid))[x] == Column(grid, x)
  {
    var m := AsMatrix(grid);
    forall y | 0 <= y < N
      ensures m[y] == Row(grid, y)
    {
      AsMatrixRow(grid, y);
    }
    assert forall r | 0 <= r < |m| :: |m[r]| == N;
    assert ShortestRow(m) == N;
    var t := Transpose(m);
    forall x | 0 <= x < N
      ensures t[x] == Column(grid, x)
    {
      forall y | 0 <= y < N
        ensures t[x][y] == Column(grid, x)[y]
      {
        assert t[x][y] == m[y][x];
      }
    }
  }

  /** The positions of `c` in `s`. */
  function Positions(s: string, c: char): (ps: set<nat>)
    ensures forall i | i in ps :: i < |s| && s[i] == c
  {
    set i: nat | i < |s| && s[i] == c
  }

  /** `Counter(s)[c]` is the number of positions holding `c`. */
  lemma {:induction false} CountIsPositions(s: string, c: char)
    ensures multiset(s)[c] == |Positions(s, c)|
    decreases |s|
  {
    if s != [] {
      var init := s[..|s| - 1];
      CountIsPositions(init, c);
      assert s == init + [s[|s| - 1]];
      assert multiset(s) == multiset(init) + multiset{s[|s| - 1]};
      if s[|s| - 1] == c {
        assert Positions(s, c) == Positions(init, c) + {|s| - 1};
      } else {
        assert Positions(s, c) == Positions(init, c);
      }
    }
  }

  /** A set of positions all holding `c` bounds the count from below. */
  lemma CountAtLeast(s: string, c: char, ps: set<nat>)
    requires forall i | i in ps :: i < |s| && s[i] == c
    ensures |ps| <= multiset(s)[c]
  {
    CountIsPositions(s, c);
    var all := Positions(s, c);
    assert ps <= all;
    assert all == ps + (all - ps);
    assert |all| == |ps| + |all - ps|;
  }
}

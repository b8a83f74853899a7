/** The playing field of the falling-block game: a fixed grid of cell tags
    (0 = empty, 1..7 = a settled piece of that type), the collision test, the
    merge of a piece into the grid, the removal of full rows and the scoring
    that follows a removal. */
module TetrisBoard {

  const Height: int := 20
  const Width: int := 10

  /** A grid of cell tags, used both for the board and for piece matrices. */
  type Grid = seq<seq<int>>

  /** A board has Height rows of Width cells each. */
  predicate IsBoard(b: Grid) {
    |b| == Height && forall i :: 0 <= i < |b| ==> |b[i]| == Width
  }

  /** Every cell of the board holds an empty tag or a piece tag. */
  ghost predicate CellsInRange(b: Grid) {
    forall i, j :: 0 <= i < |b| && 0 <= j < |b[i]| ==> 0 <= b[i][j] <= 7
  }

  /** A board of empty cells (createEmptyBoard). */
  function EmptyBoard(): (b: Grid)
    ensures IsBoard(b) && CellsInRange(b)
    ensures forall i, j :: 0 <= i < Height && 0 <= j < Width ==> b[i][j] == 0
  {
    seq(Height, _ => seq(Width, _ => 0))
  }

  /** Cell (r, c) of matrix m exists and is part of the piece. */
  predicate Covers(m: Grid, r: int, c: int) {
    0 <= r < |m| && 0 <= c < |m[r]| && m[r][c] != 0
  }

  /** A board lookup that a piece cell may not land on: a row or column off the
      board (the lookup yields undefined, also for rows above the top) or a
      settled cell. */
  predicate Blocked(b: Grid, row: int, col: int)
    requires IsBoard(b)
  {
    !(0 <= row < Height && 0 <= col < Width) || b[row][col] != 0
  }

  /** Some part of matrix m, placed with its top-left corner at column x and
      row y, lands on a blocked cell. */
  ghost predicate Collides(b: Grid, m: Grid, x: int, y: int)
    requires IsBoard(b)
  {
    exists r, c :: Covers(m, r, c) && Blocked(b, y + r, x + c)
  }

  /** Every part of m placed at column x lies in a column of the board. */
  ghost predicate ColumnsInRange(m: Grid, x: int) {
    forall r, c :: Covers(m, r, c) ==> 0 <= x + c < Width
  }

  /** Every part of m placed at row y lies in a row of the board. */
  predicate RowsInRange(m: Grid, y: int) {
    forall r, c | 0 <= r < |m| && 0 <= c < |m[r]| :: m[r][c] != 0 ==> 0 <= y + r < Height
  }

  /** No part of m placed at row y lies below the bottom row. */
  ghost predicate AboveFloor(m: Grid, y: int) {
    forall r, c :: Covers(m, r, c) ==> y + r < Height
  }

  /** A piece that does not collide lies entirely on the board. */
  lemma FreeIsOnBoard(b: Grid, m: Grid, x: int, y: int)
    requires IsBoard(b) && !Collides(b, m, x, y)
    ensures ColumnsInRange(m, x) && RowsInRange(m, y) && AboveFloor(m, y)
  {
    forall r, c | 0 <= r < |m| && 0 <= c < |m[r]| && m[r][c] != 0
      ensures 0 <= x + c < Width && 0 <= y + r < Height
    {
      assert Covers(m, r, c) && !Blocked(b, y + r, x + c);
    }
  }

  /** For a piece above the floor, a part outside the board's rows sticks out
      above the top; this needs the floor bound. Such rows come before every
      row on the board (that part is plain arithmetic), so the merge, which
      visits the rows of the matrix in order, meets one of them before it
      writes anything. */
  lemma OffRowsAreAboveTop(m: Grid, y: int)
    requires AboveFloor(m, y) && !RowsInRange(m, y)
    ensures exists r, c :: Covers(m, r, c) && y + r < 0
    ensures forall r, c, r2, c2 :: Covers(m, r, c) && y + r < 0 && Covers(m, r2, c2) && 0 <= y + r2 ==> r < r2
  {
    var r, c :| 0 <= r < |m| && 0 <= c < |m[r]| && m[r][c] != 0 && !(0 <= y + r < Height);
    assert Covers(m, r, c);
  }

  /** With at least one part, a piece that does not collide starts above the
      floor, so a search that moves it down one row at a time ends. */
  lemma FreeIsAboveFloor(b: Grid, m: Grid, x: int, y: int, r: int, c: int)
    requires IsBoard(b) && Covers(m, r, c) && !Collides(b, m, x, y)
    ensures y < Height
  {
    assert !Blocked(b, y + r, x + c);
  }

  /** The collision scan (collide): rows and columns of the matrix in order,
      stopping at the first part that lands on a blocked cell. */
  method Collide(b: Grid, m: Grid, x: int, y: int) returns (hit: bool)
    requires IsBoard(b)
    ensures hit <==> Collides(b, m, x, y)
  {
    var r := 0;
    while r < |m|
      invariant 0 <= r <= |m|
      invariant forall i, j :: 0 <= i < r && Covers(m, i, j) ==> !Blocked(b, y + i, x + j)
    {
      var c := 0;
      while c < |m[r]|
        invariant 0 <= c <= |m[r]|
        invariant forall i, j :: 0 <= i < r && Covers(m, i, j) ==> !Blocked(b, y + i, x + j)
        invariant forall j :: 0 <= j < c && Covers(m, r, j) ==> !Blocked(b, y + r, x + j)
      {
        if m[r][c] != 0 && Blocked(b, y + r, x + c) {
          assert Covers(m, r, c);
          return true;
        }
        c := c + 1;
      }
      r := r + 1;
    }
    return false;
  }

  /** The board after writing every part of m at offset (x, y) over it. */
  function Merged(b: Grid, m: Grid, x: int, y: int): (r: Grid)
    requires IsBoard(b)
    ensures IsBoard(r)
  {
    seq(Height, i requires 0 <= i < Height =>
      seq(Width, j requires 0 <= j < Width =>
        if Covers(m, i - y, j - x) then m[i - y][j - x] else b[i][j]))
  }

  /** Merging a piece that does not collide fills exactly the empty cells under
      its parts: the occupied cells of the result are the old occupied cells
      together with the piece's cells, and no settled cell is overwritten. */
  lemma MergedOccupancy(b: Grid, m: Grid, x: int, y: int)
    requires IsBoard(b) && !Collides(b, m, x, y)
    ensures forall i, j :: 0 <= i < Height && 0 <= j < Width ==>
      (Merged(b, m, x, y)[i][j] != 0 <==> b[i][j] != 0 || Covers(m, i - y, j - x))
    ensures forall i, j :: 0 <= i < Height && 0 <= j < Width && b[i][j] != 0 ==>
      Merged(b, m, x, y)[i][j] == b[i][j]
  {
    forall i, j | 0 <= i < Height && 0 <= j < Width && Covers(m, i - y, j - x)
      ensures b[i][j] == 0
    {
      assert !Blocked(b, y + (i - y), x + (j - x));
    }
  }

  /** Merging a matrix of tags onto a board of tags gives a board of tags. */
  lemma MergedInRange(b: Grid, m: Grid, x: int, y: int)
    requires IsBoard(b) && CellsInRange(b)
    requires forall r, c :: 0 <= r < |m| && 0 <= c < |m[r]| ==> 0 <= m[r][c] <= 7
    ensures CellsInRange(Merged(b, m, x, y))
  {
    var a := Merged(b, m, x, y);
    forall i, j | 0 <= i < |a| && 0 <= j < |a[i]| ensures 0 <= a[i][j] <= 7 {
      if Covers(m, i - y, j - x) {
        assert a[i][j] == m[i - y][j - x];
      } else {
        assert a[i][j] == b[i][j];
      }
    }
  }

  /** Writes the parts of m into the board at offset (x, y), row by row and
      cell by cell (merge); the piece must lie on the board. */
  method Merge(b: Grid, m: Grid, x: int, y: int) returns (a: Grid)
    requires IsBoard(b) && ColumnsInRange(m, x) && RowsInRange(m, y)
    ensures a == Merged(b, m, x, y)
  {
    a := b;
    var r := 0;
    while r < |m|
      invariant 0 <= r <= |m|
      invariant IsBoard(a)
      invariant forall i, j :: 0 <= i < Height && 0 <= j < Width ==>
        a[i][j] == if i - y < r && Covers(m, i - y, j - x) then m[i - y][j - x] else b[i][j]
    {
      var c := 0;
      while c < |m[r]|
        invariant 0 <= c <= |m[r]|
        invariant IsBoard(a)
        invariant forall i, j :: 0 <= i < Height && 0 <= j < Width ==>
          a[i][j] == if (i - y < r || (i - y == r && j - x < c)) && Covers(m, i - y, j - x)
                     then m[i - y][j - x] else b[i][j]
      {
        if m[r][c] != 0 {
          assert Covers(m, r, c);
          a := a[y + r := a[y + r][x + c := m[r][c]]];
        }
        c := c + 1;
      }
      r := r + 1;
    }
    var want := Merged(b, m, x, y);
    forall i | 0 <= i < Height ensures a[i] == want[i] {
      assert forall j :: 0 <= j < Width ==> a[i][j] == want[i][j];
    }
  }

  /** A row with no empty cell. */
  predicate Full(row: seq<int>) {
    forall j :: 0 <= j < |row| ==> row[j] != 0
  }

  /** The rows that are not full, in their original order. */
  function Kept(rows: Grid): (k: Grid)
    ensures |k| <= |rows|
  {
    if rows == [] then []
    else (if Full(rows[0]) then [] else [rows[0]]) + Kept(rows[1..])
  }

  /** A row of Width empty cells. */
  function ZeroRow(): seq<int> {
    seq(Width, _ => 0)
  }

  function ZeroRows(n: nat): Grid {
    seq(n, _ => ZeroRow())
  }

  /** The board after removing every full row: as many empty rows as were
      removed, on top of the remaining rows in their original order. */
  function Cleared(b: Grid): Grid {
    ZeroRows(|b| - |Kept(b)|) + Kept(b)
  }

  /** The number of full rows. */
  function FullCount(rows: Grid): nat {
    if rows == [] then 0 else (if Full(rows[0]) then 1 else 0) + FullCount(rows[1..])
  }

  /** Kept drops exactly the full rows: each of its rows is a row of the input
      that is not full, and the rows it drops are the counted full ones. */
  lemma {:induction false} KeptRows(rows: Grid)
    ensures |Kept(rows)| + FullCount(rows) == |rows|
    ensures forall i :: 0 <= i < |Kept(rows)| ==> !Full(Kept(rows)[i]) && Kept(rows)[i] in rows
  {
    if rows != [] {
      KeptRows(rows[1..]);
      var head := if Full(rows[0]) then [] else [rows[0]];
      assert Kept(rows) == head + Kept(rows[1..]);
      forall i | 0 <= i < |Kept(rows)| ensures !Full(Kept(rows)[i]) && Kept(rows)[i] in rows {
        if i >= |head| {
          assert Kept(rows)[i] == Kept(rows[1..])[i - |head|];
          assert Kept(rows)[i] in rows[1..];
        }
      }
    }
  }

  /** A removal keeps the board's shape and its tags, and leaves no full row:
      full rows that were next to each other are all removed. */
  lemma ClearedIsBoard(b: Grid)
    requires IsBoard(b) && CellsInRange(b)
    ensures IsBoard(Cleared(b)) && CellsInRange(Cleared(b))
    ensures forall i :: 0 <= i < Height ==> !Full(Cleared(b)[i])
    ensures |b| - |Kept(b)| == FullCount(b)
  {
    KeptRows(b);
    var z := |b| - |Kept(b)|;
    var c := Cleared(b);
    forall i | 0 <= i < Height
      ensures |c[i]| == Width && !Full(c[i])
      ensures forall j :: 0 <= j < |c[i]| ==> 0 <= c[i][j] <= 7
    {
      if i < z {
        assert c[i] == ZeroRow();
        assert c[i][0] == 0;
      } else {
        assert c[i] == Kept(b)[i - z];
        var k :| 0 <= k < |b| && b[k] == c[i];
      }
    }
  }

  /** Removing the row just above an examined suffix. */
  lemma KeptStep(b: Grid, i: int)
    requires 0 < i <= |b|
    ensures Kept(b[i - 1..]) == (if Full(b[i - 1]) then [] else [b[i - 1]]) + Kept(b[i..])
  {
    assert b[i - 1..][1..] == b[i..];
  }

  /** What the row scan of ClearFullRows sees at row y: while unexamined rows
      of the input remain (i > 0) it is the lowest of them, otherwise one of
      the empty rows put on top. */
  lemma ScanView(b: Grid, a: Grid, cleared: nat, i: int, y: int)
    requires IsBoard(b) && 0 <= y < Height && 0 <= i <= Height
    requires a == ZeroRows(cleared) + b[..i] + Kept(b[i..])
    requires cleared + i + |Kept(b[i..])| == Height
    requires i > 0 ==> y == i + cleared - 1
    requires i == 0 ==> y < cleared
    ensures |a| == Height && |a[y]| == Width
    ensures i > 0 ==> a[y] == b[i - 1] && a[..y] == ZeroRows(cleared) + b[..i - 1] && a[y + 1..] == Kept(b[i..])
    ensures i == 0 ==> a[y] == ZeroRow() && a[y][0] == 0
  {
    if i > 0 {
      assert a[..y] == ZeroRows(cleared) + b[..i - 1];
      assert a[y + 1..] == Kept(b[i..]);
    }
  }

  /** Cutting out a full row y and putting an empty row on top re-establishes
      the scan's picture with one more removed row and one less unexamined. */
  lemma RemoveStep(b: Grid, a: Grid, cleared: nat, i: int, y: int)
    requires IsBoard(b) && 0 <= y < Height && 0 < i <= Height
    requires a == ZeroRows(cleared) + b[..i] + Kept(b[i..])
    requires cleared + i + |Kept(b[i..])| == Height
    requires y == i + cleared - 1
    requires Full(a[y])
    ensures [ZeroRow()] + a[..y] + a[y + 1..] == ZeroRows(cleared + 1) + b[..i - 1] + Kept(b[i - 1..])
    ensures cleared + 1 + (i - 1) + |Kept(b[i - 1..])| == Height
  {
    ScanView(b, a, cleared, i, y);
    KeptStep(b, i);
    assert ZeroRows(cleared + 1) == [ZeroRow()] + ZeroRows(cleared);
  }

  /** Passing over a row y that is not full moves it from the unexamined part
      to the kept part of the scan's picture. */
  lemma KeepStep(b: Grid, a: Grid, cleared: nat, i: int, y: int)
    requires IsBoard(b) && 0 <= y < Height && 0 < i <= Height
    requires a == ZeroRows(cleared) + b[..i] + Kept(b[i..])
    requires cleared + i + |Kept(b[i..])| == Height
    requires y == i + cleared - 1
    requires !Full(a[y])
    ensures a == ZeroRows(cleared) + b[..i - 1] + Kept(b[i - 1..])
    ensures cleared + (i - 1) + |Kept(b[i - 1..])| == Height
  {
    ScanView(b, a, cleared, i, y);
    KeptStep(b, i);
    assert b[..i] == b[..i - 1] + [b[i - 1]];
  }

  /** The cell scan of clearLines: the columns of a row in order, stopping at
      the first empty cell. */
  method RowFull(row: seq<int>) returns (full: bool)
    requires |row| == Width
    ensures full <==> Full(row)
  {
    var x := 0;
    while x < Width
      invariant 0 <= x <= Width
      invariant forall j :: 0 <= j < x ==> row[j] != 0
    {
      if row[x] == 0 {
        return false;
      }
      x := x + 1;
    }
    return true;
  }

  /** Removes the full rows (the row loop of clearLines): scanning upwards from
      the bottom row, a full row is cut out and an empty row is put on top, and
      the same row index is examined again. */
  method ClearFullRows(b: Grid) returns (a: Grid, cleared: nat)
    requires IsBoard(b)
    ensures a == Cleared(b)
    ensures cleared == FullCount(b)
  {
    KeptRows(b);
    a, cleared := b, 0;
    var y := Height - 1;
    ghost var i := Height;
    while y >= 0
      invariant -1 <= y < Height && 0 <= i <= Height
      invariant a == ZeroRows(cleared) + b[..i] + Kept(b[i..])
      invariant cleared + i + |Kept(b[i..])| == Height
      invariant i > 0 ==> y == i + cleared - 1
      invariant i == 0 ==> y < cleared
      decreases y + 1 + Height - cleared
    {
      ScanView(b, a, cleared, i, y);
      var full := RowFull(a[y]);
      if full {
        assert i > 0;
        RemoveStep(b, a, cleared, i, y);
        a := [ZeroRow()] + a[..y] + a[y + 1..];
        cleared := cleared + 1;
        i := i - 1;
      } else {
        if i > 0 {
          KeepStep(b, a, cleared, i, y);
          i := i - 1;
        }
        y := y - 1;
      }
    }
    assert b[0..] == b;
    assert b[..0] == [];
  }

  /** The session figures that a removal updates. */
  datatype Stats = Stats(score: int, level: int, lines: int, dropInterval: int)

  function Max(a: int, b: int): int {
    if a < b then b else a
  }

  /** The drop interval in milliseconds that goes with a level. */
  function IntervalFor(level: int): int {
    Max(100, 1000 - (level - 1) * 100)
  }

  /** The figures of a session in which level and interval follow from lines. */
  ghost predicate Consistent(s: Stats) {
    s.lines >= 0 && s.score >= 0 && s.level == s.lines / 10 + 1 && s.dropInterval == IntervalFor(s.level)
  }

  /** The figures after k rows were removed at once (the scoring half of
      clearLines): the level is raised first, and the score is added with the
      level as raised. */
  function AfterClear(s: Stats, k: nat): (t: Stats)
    ensures k == 0 ==> t == s
    ensures t.lines == s.lines + k
    ensures t.level >= s.level && (k > 0 ==> t.level >= (s.lines + k) / 10 + 1)
    ensures t.level != s.level ==> t.dropInterval == IntervalFor(t.level)
    ensures t.level == s.level ==> t.dropInterval == s.dropInterval
  {
    if k == 0 then s
    else
      var lines := s.lines + k;
      var newLevel := lines / 10 + 1;
      var level := if newLevel > s.level then newLevel else s.level;
      var interval := if newLevel > s.level then IntervalFor(level) else s.dropInterval;
      Stats(s.score + k * 100 * level, level, lines, interval)
  }

  /** A removal keeps the figures consistent: the level is always one more than
      a tenth of the lines and the interval always that of the level. */
  lemma AfterClearConsistent(s: Stats, k: nat)
    requires Consistent(s)
    ensures Consistent(AfterClear(s, k))
    ensures AfterClear(s, k).level == (s.lines + k) / 10 + 1
    ensures AfterClear(s, k).dropInterval > 0
  {
    var t := AfterClear(s, k);
    assert (s.lines + k) / 10 >= s.lines / 10;
  }

  /** Every removed row is worth 100 points times the level as raised by the
      removal, so the score never falls. */
  lemma AfterClearScore(s: Stats, k: nat)
    requires Consistent(s)
    ensures AfterClear(s, k).score == s.score + k * 100 * AfterClear(s, k).level
    ensures AfterClear(s, k).score >= s.score
  {
    var t := AfterClear(s, k);
    var points: nat, level: nat := k * 100, t.level;
    assert points * level >= 0;
  }

  /** The interval never grows with the level, and it never drops below 100. */
  lemma IntervalMonotone(l1: int, l2: int)
    requires l1 <= l2
    ensures 100 <= IntervalFor(l2) <= IntervalFor(l1)
  {
  }

  /** Concrete figures: from a fresh session one row gives 100 points and four
      rows 400; the tenth row raises the level to 2, the interval to 900 ms and
      is scored with the raised level. */
  lemma ScoringExamples()
    ensures AfterClear(Stats(0, 1, 0, 1000), 1) == Stats(100, 1, 1, 1000)
    ensures AfterClear(Stats(0, 1, 0, 1000), 4) == Stats(400, 1, 4, 1000)
    ensures AfterClear(Stats(900, 1, 9, 1000), 1) == Stats(1100, 2, 10, 900)
  {
  }
}

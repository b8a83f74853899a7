/** The seven piece shapes of the falling-block game, where a new piece is
    placed, the in-place quarter turn of a piece matrix and the offsets the
    wall-kick search tries after a turn. */
module TetrisPieces {
  import opened TetrisBoard

  /** The piece types I, J, L, O, S, T, Z, numbered as their cell tags. */
  type Kind = k: int | 1 <= k <= 7 witness 1

  /** The shape table as the game starts (the array `pieces`, entries 1..7):
      every template is fit to be a shape; I is 4 wide, O 2 and the rest 3. */
  function Template(k: Kind): (r: Grid)
    ensures WellShaped(r, k)
    ensures |r| == if k == 1 then 4 else if k == 4 then 2 else 3
  {
    var r :=
      if k == 1 then [[0, 0, 0, 0], [1, 1, 1, 1], [0, 0, 0, 0], [0, 0, 0, 0]]
      else if k == 2 then [[2, 0, 0], [2, 2, 2], [0, 0, 0]]
      else if k == 3 then [[0, 0, 3], [3, 3, 3], [0, 0, 0]]
      else if k == 4 then [[4, 4], [4, 4]]
      else if k == 5 then [[0, 5, 5], [5, 5, 0], [0, 0, 0]]
      else if k == 6 then [[0, 6, 0], [6, 6, 6], [0, 0, 0]]
      else [[7, 7, 0], [0, 7, 7], [0, 0, 0]];
    assert Covers(r, 1, 1);
    r
  }

  ghost predicate Square(m: Grid) {
    forall i :: 0 <= i < |m| ==> |m[i]| == |m|
  }

  ghost predicate HasPart(m: Grid) {
    exists r, c :: Covers(m, r, c)
  }

  /** A matrix fit to be the shape of a piece of type k: square, of side 2 to
      4, every cell empty or tagged k, and at least one part. */
  ghost predicate WellShaped(m: Grid, k: Kind) {
    && Square(m) && 2 <= |m| <= 4
    && (forall i, j :: 0 <= i < |m| && 0 <= j < |m[i]| ==> m[i][j] == 0 || m[i][j] == k)
    && HasPart(m)
  }

  /** A new piece always starts at column Width / 2 - 2 and row 0, whatever
      the width of its matrix (createPiece). */
  const SpawnX: int := Width / 2 - 2
  const SpawnY: int := 0

  /** At the spawn position any shape lies on the board, so on an empty board
      it never collides. */
  lemma SpawnOnBoard(m: Grid, k: Kind)
    requires WellShaped(m, k)
    ensures ColumnsInRange(m, SpawnX) && RowsInRange(m, SpawnY) && AboveFloor(m, SpawnY)
    ensures !Collides(EmptyBoard(), m, SpawnX, SpawnY)
  {
  }

  function Reversed<T>(s: seq<T>): (r: seq<T>)
    ensures |r| == |s|
  {
    seq(|s|, i requires 0 <= i < |s| => s[|s| - 1 - i])
  }

  function Transposed(m: Grid): Grid
    requires Square(m)
  {
    seq(|m|, i requires 0 <= i < |m| => seq(|m|, j requires 0 <= j < |m| => m[j][i]))
  }

  /** The turn rotate(matrix, dir) performs: transpose, then reverse every row
      when dir > 0 or the order of the rows otherwise. It is a quarter turn,
      clockwise for dir > 0 and counter-clockwise otherwise. */
  function Rotated(m: Grid, dir: int): (r: Grid)
    requires Square(m)
    ensures Square(r) && |r| == |m|
  {
    var t := Transposed(m);
    if dir > 0 then seq(|t|, i requires 0 <= i < |t| => Reversed(t[i])) else Reversed(t)
  }

  /** Cell (i, j) of the turned matrix is the cell of m it was turned from. */
  lemma RotatedCells(m: Grid, dir: int)
    requires Square(m)
    ensures forall i, j :: 0 <= i < |m| && 0 <= j < |m| ==>
      Rotated(m, dir)[i][j] == if dir > 0 then m[|m| - 1 - j][i] else m[j][|m| - 1 - i]
  {
    var n, t, r := |m|, Transposed(m), Rotated(m, dir);
    forall i, j | 0 <= i < n && 0 <= j < n
      ensures r[i][j] == if dir > 0 then m[n - 1 - j][i] else m[j][n - 1 - i]
    {
      if dir > 0 {
        assert r[i] == Reversed(t[i]);
      } else {
        assert r[i] == t[n - 1 - i];
      }
    }
  }

  /** Two square matrices with the same cells are equal. */
  lemma SameCells(a: Grid, b: Grid)
    requires Square(a) && Square(b) && |a| == |b|
    requires forall i, j :: 0 <= i < |a| && 0 <= j < |a| ==> a[i][j] == b[i][j]
    ensures a == b
  {
    forall i | 0 <= i < |a| ensures a[i] == b[i] {
      assert |a[i]| == |b[i]|;
    }
  }

  /** A turn in one direction followed by a turn in the other restores the
      matrix: a rejected rotation leaves the shape as it was. */
  lemma RotateBack(m: Grid, dir: int)
    requires Square(m) && dir != 0
    ensures Rotated(Rotated(m, dir), -dir) == m
  {
    RotatedCells(m, dir);
    RotatedCells(Rotated(m, dir), -dir);
    SameCells(Rotated(Rotated(m, dir), -dir), m);
  }

  /** Two turns in the same direction are a half turn. */
  lemma HalfTurn(m: Grid, dir: int)
    requires Square(m)
    ensures forall i, j :: 0 <= i < |m| && 0 <= j < |m| ==>
      Rotated(Rotated(m, dir), dir)[i][j] == m[|m| - 1 - i][|m| - 1 - j]
  {
    var n, r := |m|, Rotated(m, dir);
    RotatedCells(m, dir);
    RotatedCells(r, dir);
    forall i, j | 0 <= i < n && 0 <= j < n
      ensures Rotated(r, dir)[i][j] == m[n - 1 - i][n - 1 - j]
    {
      if dir > 0 {
        assert Rotated(r, dir)[i][j] == r[n - 1 - j][i];
        assert r[n - 1 - j][i] == m[n - 1 - i][n - 1 - j];
      } else {
        assert Rotated(r, dir)[i][j] == r[j][n - 1 - i];
        assert r[j][n - 1 - i] == m[n - 1 - i][n - 1 - j];
      }
    }
  }

  /** Four turns in the same direction restore the matrix. */
  lemma FourTurns(m: Grid, dir: int)
    requires Square(m)
    ensures Rotated(Rotated(Rotated(Rotated(m, dir), dir), dir), dir) == m
  {
    var h := Rotated(Rotated(m, dir), dir);
    HalfTurn(m, dir);
    HalfTurn(h, dir);
    SameCells(Rotated(Rotated(h, dir), dir), m);
  }

  /** A turn keeps a shape fit: same side, same tags, and the part at (r, c)
      moves to a new cell, so a part remains. */
  lemma RotatedWellShaped(m: Grid, k: Kind, dir: int)
    requires WellShaped(m, k)
    ensures WellShaped(Rotated(m, dir), k)
  {
    var n, t := |m|, Rotated(m, dir);
    RotatedCells(m, dir);
    forall i, j | 0 <= i < n && 0 <= j < n
      ensures t[i][j] == 0 || t[i][j] == k
    {
      if dir > 0 {
        assert t[i][j] == m[n - 1 - j][i];
      } else {
        assert t[i][j] == m[j][n - 1 - i];
      }
    }
    var r, c :| Covers(m, r, c);
    if dir > 0 {
      assert t[c][n - 1 - r] == m[r][c];
      assert Covers(t, c, n - 1 - r);
    } else {
      assert t[n - 1 - c][r] == m[r][c];
      assert Covers(t, n - 1 - c, r);
    }
  }

  /** Cell (i, j) has been swapped with its mirror image once the transpose
      loop has reached row y and, within it, column x. */
  predicate Swapped(i: int, j: int, y: int, x: int) {
    (i < y && j < y) || (i == y && j < x) || (j == y && i < x)
  }

  /** The transpose loop's picture: the cells already swapped hold the
      transpose of m, the others still hold m. */
  ghost function PartlySwapped(m: Grid, i: int, j: int, y: int, x: int): int
    requires Square(m) && 0 <= i < |m| && 0 <= j < |m|
  {
    if Swapped(i, j, y, x) then m[j][i] else m[i][j]
  }

  ghost predicate SwappedUpTo(a: Grid, m: Grid, y: int, x: int) {
    && Square(m) && Square(a) && |a| == |m|
    && forall i, j :: 0 <= i < |m| && 0 <= j < |m| ==> a[i][j] == PartlySwapped(m, i, j, y, x)
  }

  /** Exchanging a[x][y] with a[y][x] extends the swapped part by one cell. */
  lemma SwapStep(a: Grid, m: Grid, y: int, x: int)
    requires Square(m) && 0 <= x < y < |m| && SwappedUpTo(a, m, y, x)
    ensures SwappedUpTo(a[x := a[x][y := a[y][x]]][y := a[y][x := a[x][y]]], m, y, x + 1)
  {
    var b := a[x := a[x][y := a[y][x]]][y := a[y][x := a[x][y]]];
    var n := |m|;
    forall i, j | 0 <= i < n && 0 <= j < n
      ensures b[i][j] == PartlySwapped(m, i, j, y, x + 1)
    {
      assert a[i][j] == PartlySwapped(m, i, j, y, x);
      assert a[j][i] == PartlySwapped(m, j, i, y, x);
      if i == x && j == y {
        assert b[i][j] == a[j][i];
      } else if i == y && j == x {
        assert b[i][j] == a[j][i];
      } else {
        assert b[i][j] == a[i][j];
      }
    }
  }

  /** A finished row y of the transpose loop is the start of row y + 1. */
  lemma RowDone(a: Grid, m: Grid, y: int)
    requires 0 <= y < |m| && SwappedUpTo(a, m, y, y)
    ensures SwappedUpTo(a, m, y + 1, 0)
  {
    forall i, j | 0 <= i < |m| && 0 <= j < |m|
      ensures a[i][j] == PartlySwapped(m, i, j, y + 1, 0)
    {
      assert a[i][j] == PartlySwapped(m, i, j, y, y);
    }
  }

  /** The in-place turn (rotate): swap every cell below the diagonal with its
      mirror image, then reverse each row or the order of the rows. */
  method Rotate(m: Grid, dir: int) returns (a: Grid)
    requires Square(m)
    ensures a == Rotated(m, dir)
  {
    var n := |m|;
    a := m;
    for y := 0 to n
      invariant SwappedUpTo(a, m, y, 0)
    {
      for x := 0 to y
        invariant SwappedUpTo(a, m, y, x)
      {
        SwapStep(a, m, y, x);
        a := a[x := a[x][y := a[y][x]]][y := a[y][x := a[x][y]]];
      }
      RowDone(a, m, y);
    }
    assert SwappedUpTo(a, m, n, 0);
    SameCells(a, Transposed(m));
    if dir > 0 {
      a := seq(n, i requires 0 <= i < n => Reversed(a[i]));
    } else {
      a := Reversed(a);
    }
  }

  /** The shift from the starting column after k kicks of the wall-kick
      search: 0, +1, -1, +2, -2, ... */
  function Shift(k: nat): int {
    if k % 2 == 1 then (k + 1) / 2 else -(k / 2)
  }

  /** The offset the search adds at its (k+1)-th kick: 1, -2, 3, -4, ... */
  function Offset(k: nat): int {
    if k % 2 == 0 then k + 1 else -(k + 1)
  }

  /** The number of positions the search tests for a matrix n wide before the
      next offset exceeds n and the rotation is undone. */
  function KickLimit(n: nat): nat {
    if n % 2 == 0 then n else n + 1
  }

  /** Each kick adds the offset and then computes the next one as
      -(offset + sign(offset)). */
  lemma KickStep(k: nat)
    ensures Shift(k + 1) == Shift(k) + Offset(k)
    ensures Offset(k + 1) == -(Offset(k) + (if Offset(k) > 0 then 1 else -1))
  {
  }

  /** After k kicks (1 <= k <= KickLimit(n)) the next offset exceeds n exactly
      when k is the limit, so the search tests the positions for kicks
      0 .. KickLimit(n) - 1 and no others. */
  lemma KickAbort(n: nat, k: nat)
    requires 1 <= n && 1 <= k <= KickLimit(n)
    ensures Offset(k) > n <==> k == KickLimit(n)
  {
  }

  function KickShifts(n: nat): seq<int> {
    seq(KickLimit(n), k requires 0 <= k => Shift(k))
  }

  /** The shifts tested for the sizes of the shapes: 0 and +1 for a 2 wide
      matrix; 0, +1, -1 and +2 for 3 and 4 wide ones. */
  lemma KickShiftsBySize()
    ensures KickShifts(2) == [0, 1]
    ensures KickShifts(3) == [0, 1, -1, 2]
    ensures KickShifts(4) == [0, 1, -1, 2]
  {
    assert KickShifts(2)[1] == 1;
    assert KickShifts(3)[2] == -1 && KickShifts(3)[3] == 2;
    assert KickShifts(4)[2] == -1 && KickShifts(4)[3] == 2;
  }
}

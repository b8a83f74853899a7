/** The controller of the falling-block game: the board, the shared shape
    table, the current, next and ghost pieces, the session figures and the
    started / over flags, with the player actions, the gravity tick and the
    input handlers that gate them. */
module TetrisGame {
  import opened TetrisBoard
  import opened TetrisPieces

  datatype Option<T> = None | Some(value: T)

  /** A live piece: its type and where the top-left cell of its matrix sits.
      Its matrix is the entry of the shape table for its type, which it
      shares with every piece of that type. */
  datatype Piece = Piece(kind: Kind, x: int, y: int)

  /** The landing preview: a private copy of a matrix and its position. */
  datatype GhostPiece = GhostPiece(kind: Kind, matrix: Grid, x: int, y: int)

  /** A freshly made piece of type k (createPiece), in the spawn column
      Width / 2 - 2, which leaves room for the widest matrix, and row 0. */
  function Spawn(k: Kind): (p: Piece)
    ensures p.kind == k && p.x == Width / 2 - 2 && p.y == 0
    ensures 0 <= p.x && p.x + 4 <= Width
  {
    Piece(k, SpawnX, SpawnY)
  }

  /** y is where matrix m in column x, dropped one row at a time from row y0,
      comes to rest: every row from y0 to y is free and row y + 1 is not. */
  ghost predicate Landing(b: Grid, m: Grid, x: int, y0: int, y: int)
    requires IsBoard(b)
  {
    && y0 <= y
    && (forall k :: y0 <= k <= y ==> !Collides(b, m, x, k))
    && Collides(b, m, x, y + 1)
  }

  /** A drop from y0 has only one resting row. */
  lemma LandingUnique(b: Grid, m: Grid, x: int, y0: int, y1: int, y2: int)
    requires IsBoard(b) && Landing(b, m, x, y0, y1) && Landing(b, m, x, y0, y2)
    ensures y1 == y2
  {
  }

  /** Resting rows of a later start that is still above the resting row. */
  lemma LandingFromLower(b: Grid, m: Grid, x: int, y0: int, y1: int, y: int)
    requires IsBoard(b) && Landing(b, m, x, y0, y) && y0 <= y1 <= y
    ensures Landing(b, m, x, y1, y)
  {
  }

  /** The row where matrix m in column x comes to rest when it is moved down
      from row y0 while it does not collide and then back up one row (the
      loops of updateGhost and playerHardDrop). A matrix that already
      collides at y0 ends one row above it. */
  method Fall(b: Grid, m: Grid, x: int, y0: int) returns (y: int)
    requires IsBoard(b) && HasPart(m)
    ensures !Collides(b, m, x, y0) ==> Landing(b, m, x, y0, y)
    ensures Collides(b, m, x, y0) ==> y == y0 - 1
    ensures AboveFloor(m, y0) ==> AboveFloor(m, y)
  {
    ghost var r, c :| Covers(m, r, c);
    y := y0;
    var hit := Collide(b, m, x, y);
    while !hit
      invariant y0 <= y
      invariant forall k :: y0 <= k < y ==> !Collides(b, m, x, k)
      invariant hit <==> Collides(b, m, x, y)
      decreases Height - y
    {
      FreeIsAboveFloor(b, m, x, y, r, c);
      y := y + 1;
      hit := Collide(b, m, x, y);
    }
    y := y - 1;
    if y0 <= y {
      FreeIsOnBoard(b, m, x, y);
    }
  }

  /** The shifts 0 .. k - 1 from column pos all collide. */
  ghost predicate KicksCollide(b: Grid, t: Grid, pos: int, y: int, k: nat)
    requires IsBoard(b)
  {
    forall j :: 0 <= j < k ==> Collides(b, t, pos + Shift(j), y)
  }

  /** The wall-kick search of playerRotate for the turned matrix t in row y,
      starting from column pos: while t collides it is shifted by the next
      offset 1, -2, 3, -4, ..., and the search is aborted once the offset
      after a shift exceeds the width of t. Either it finds the first free
      column among the shifts Shift(0), Shift(1), ..., or every one of the
      KickLimit(|t|) shifts it may test collides. */
  method KickSearch(b: Grid, t: Grid, pos: int, y: int) returns (x: int, aborted: bool, ghost kick: nat)
    requires IsBoard(b) && Square(t) && 1 <= |t|
    ensures kick <= KickLimit(|t|) && (aborted <==> kick == KickLimit(|t|))
    ensures !aborted ==> x == pos + Shift(kick) && !Collides(b, t, x, y)
    ensures KicksCollide(b, t, pos, y, kick)
  {
    ghost var n := |t|;
    kick := 0;
    x, aborted := pos, false;
    var offset := 1;
    var hit := Collide(b, t, x, y);
    while hit
      invariant 0 <= kick < KickLimit(n) && offset == Offset(kick) && x == pos + Shift(kick)
      invariant hit <==> Collides(b, t, x, y)
      invariant KicksCollide(b, t, pos, y, kick)
      decreases KickLimit(n) - kick
    {
      KickStep(kick);
      assert KicksCollide(b, t, pos, y, kick + 1);
      x := x + offset;
      offset := -(offset + (if offset > 0 then 1 else -1));
      kick := kick + 1;
      KickAbort(n, kick);
      if offset > |t[0]| {
        return x, true, kick;
      }
      hit := Collide(b, t, x, y);
    }
  }

  /** The turn of playerRotate, on values: matrix m of a piece in column pos
      and row y is turned in direction dir and the wall-kick search looks for
      a free column; when the search gives up, the matrix is turned back and
      the column restored. */
  method TurnAndKick(b: Grid, m: Grid, pos: int, y: int, dir: int)
    returns (shape: Grid, x: int, accepted: bool, ghost kick: nat)
    requires IsBoard(b) && Square(m) && 1 <= |m| && dir != 0
    ensures accepted ==> shape == Rotated(m, dir) && kick < KickLimit(|m|)
    ensures accepted ==> x == pos + Shift(kick) && !Collides(b, shape, x, y)
    ensures accepted ==> KicksCollide(b, shape, pos, y, kick)
    ensures !accepted ==> shape == m && x == pos
    ensures !accepted ==> KicksCollide(b, Rotated(m, dir), pos, y, KickLimit(|m|))
  {
    shape := Rotate(m, dir);
    var aborted;
    x, aborted, kick := KickSearch(b, shape, pos, y);
    if aborted {
      shape := Rotate(shape, -dir);
      RotateBack(m, dir);
      x := pos;
    }
    accepted := !aborted;
  }

  /** The player actions the keys and buttons trigger. */
  datatype Action = MoveLeft | MoveRight | SoftDrop | TurnRight | HardDrop

  /** The keys the keyboard handler distinguishes. */
  datatype Key = ArrowLeft | ArrowRight | ArrowDown | ArrowUp | Space | OtherKey

  /** The on-screen buttons. */
  datatype Button = StartButton | ResetButton | LeftButton | RightButton | DownButton | RotateButton | DropButton

  /** The action of an arrow key or the space bar. */
  function KeyAction(key: Key): Action
    requires key != OtherKey
  {
    match key
    case ArrowLeft => MoveLeft
    case ArrowRight => MoveRight
    case ArrowDown => SoftDrop
    case ArrowUp => TurnRight
    case Space => HardDrop
  }

  /** The action of an action button. */
  function ButtonAction(button: Button): Action
    requires button != StartButton && button != ResetButton
  {
    match button
    case LeftButton => MoveLeft
    case RightButton => MoveRight
    case DownButton => SoftDrop
    case RotateButton => TurnRight
    case DropButton => HardDrop
  }

  /** The controller state apart from the started flag. */
  datatype Snapshot = Snapshot(board: Grid, shapes: seq<Grid>, current: Piece, next: Option<Kind>,
                               ghostPiece: GhostPiece, session: Stats, gameOver: bool, dropCounter: real)

  /** What the step predicates need of the state before a step. */
  predicate Fits(s: Snapshot) {
    IsBoard(s.board) && |s.shapes| == 8 && s.next.Some?
  }

  class Tetris {
    var board: Grid
    /** The shape table: entry k is the matrix every piece of type k uses;
        entry 0 is unused. Turning a piece rewrites its entry. */
    var shapes: seq<Grid>
    var current: Piece
    var next: Option<Kind>
    var ghostPiece: GhostPiece
    var score: int
    var level: int
    var lines: int
    var dropInterval: int
    /** Milliseconds since the last drop; frame time stamps are fractional. */
    var dropCounter: real
    var gameStarted: bool
    var gameOver: bool

    ghost function Session(): Stats
      reads this`score, this`level, this`lines, this`dropInterval
    {
      Stats(score, level, lines, dropInterval)
    }

    /** What holds of the board, the shape table and the figures at all times. */
    ghost predicate Core()
      reads this`board, this`shapes, this`score, this`level, this`lines, this`dropInterval
    {
      && IsBoard(board) && CellsInRange(board)
      && |shapes| == 8 && (forall k: Kind :: WellShaped(shapes[k], k))
      && Consistent(Session())
    }

    /** Between operations there is a next piece and the current one lies
        within the board's columns and above its floor (it may overlap
        settled cells or stick out above the top, see Lock). */
    ghost predicate Valid()
      reads this`board, this`shapes, this`score, this`level, this`lines, this`dropInterval, this`next, this`current
    {
      && Core() && next.Some?
      && ColumnsInRange(shapes[current.kind], current.x) && AboveFloor(shapes[current.kind], current.y)
    }

    ghost function Shape(): Grid
      reads this`board, this`shapes, this`score, this`level, this`lines, this`dropInterval, this`next, this`current
      requires Valid()
    {
      shapes[current.kind]
    }

    predicate Running()
      reads this`gameStarted, this`gameOver
    {
      gameStarted && !gameOver
    }

    /** The ghost shows where the current piece would come to rest. */
    ghost predicate GhostFresh()
      reads this`board, this`shapes, this`score, this`level, this`lines, this`dropInterval, this`next, this`current, this`ghostPiece
      requires Valid()
    {
      && ghostPiece.kind == current.kind && ghostPiece.matrix == Shape() && ghostPiece.x == current.x
      && Landing(board, ghostPiece.matrix, current.x, current.y, ghostPiece.y)
    }

    /** The whole state but the started flag: the part that the player
        actions, the lock and the frame update read and change. */
    ghost function Snap(): Snapshot
      reads this`board, this`shapes, this`current, this`next, this`ghostPiece, this`score, this`level,
        this`lines, this`dropInterval, this`gameOver, this`dropCounter
    {
      Snapshot(board, shapes, current, next, ghostPiece, Session(), gameOver, dropCounter)
    }

    ghost predicate CanFall()
      reads this`board, this`shapes, this`score, this`level, this`lines, this`dropInterval, this`next, this`current
      requires Valid()
    {
      !Collides(board, Shape(), current.x, current.y + 1)
    }

    /** The state after the hand-over and the row removal that follow a merge
        that gave board merged, from the state s0 before the lock. The next
        piece becomes current at the spawn position and the game is over when
        it collides there, otherwise the ghost is computed on the merged board;
        only then are the full rows removed and scored. */
    ghost predicate SettledAfter(merged: Grid, s0: Snapshot, draw: Kind)
      requires IsBoard(merged) && |s0.shapes| == 8 && s0.next.Some?
      reads this`board, this`shapes, this`current, this`next, this`ghostPiece, this`score, this`level,
        this`lines, this`dropInterval, this`gameOver
    {
      var m := s0.shapes[s0.next.value];
      var clash := Collides(merged, m, SpawnX, SpawnY);
      && shapes == s0.shapes
      && current == Spawn(s0.next.value) && next == Some(draw)
      && gameOver == (s0.gameOver || clash)
      && (!clash ==>
            && ghostPiece.kind == current.kind && ghostPiece.matrix == m
            && ghostPiece.x == SpawnX && Landing(merged, m, SpawnX, SpawnY, ghostPiece.y))
      && (clash ==> ghostPiece == s0.ghostPiece)
      && board == Cleared(merged)
      && Session() == AfterClear(s0.session, FullCount(merged))
    }

    /** The outcome of locking the current piece of state s0 (merge,
        resetPiece, clearLines). A part above the top row makes the merge fail
        on its board lookup (fault): nothing is written and the rest of the
        lock does not happen. Otherwise the piece is merged and the state is
        settled after the merge. The drop counter is left to the caller. */
    ghost predicate LockedAfter(s0: Snapshot, fault: bool, draw: Kind)
      requires Fits(s0)
      reads this`board, this`shapes, this`current, this`next, this`ghostPiece, this`score, this`level,
        this`lines, this`dropInterval, this`gameOver
    {
      var p := s0.current;
      var m := s0.shapes[p.kind];
      && fault == !RowsInRange(m, p.y)
      && (fault ==>
            && board == s0.board && shapes == s0.shapes && current == p && next == s0.next
            && ghostPiece == s0.ghostPiece && Session() == s0.session && gameOver == s0.gameOver)
      && (!fault ==> SettledAfter(Merged(s0.board, m, p.x, p.y), s0, draw))
    }

    /** One column move from state s0 (playerMove): the piece moves when it
        is free there and gets a fresh ghost; otherwise nothing changes. */
    ghost predicate MoveStep(s0: Snapshot, dir: int)
      requires Fits(s0) && Valid()
      reads this`board, this`shapes, this`current, this`next, this`ghostPiece, this`score, this`level,
        this`lines, this`dropInterval, this`gameOver, this`dropCounter
    {
      var p := s0.current;
      if !Collides(s0.board, s0.shapes[p.kind], p.x + dir, p.y) then
        Snap() == s0.(current := p.(x := p.x + dir), ghostPiece := ghostPiece) && GhostFresh()
      else
        Snap() == s0
    }

    /** State s0 with matrix t put into the shape-table entry of the current
        type, the piece moved to column x and a fresh ghost. */
    ghost predicate Installed(s0: Snapshot, t: Grid, x: int)
      requires Fits(s0) && Valid()
      reads this`board, this`shapes, this`current, this`next, this`ghostPiece, this`score, this`level,
        this`lines, this`dropInterval, this`gameOver, this`dropCounter
    {
      && Snap() == s0.(shapes := s0.shapes[s0.current.kind := t], current := s0.current.(x := x),
                       ghostPiece := ghostPiece)
      && GhostFresh()
    }

    /** An accepted turn of state s0 to matrix t: shifts 0 .. kick - 1 of the
        wall-kick search collide, shift kick is free and below the search's
        limit, and the turn is put in place there. */
    ghost predicate TurnedTo(s0: Snapshot, t: Grid, kick: nat)
      requires Fits(s0) && Valid()
      reads this`board, this`shapes, this`current, this`next, this`ghostPiece, this`score, this`level,
        this`lines, this`dropInterval, this`gameOver, this`dropCounter
    {
      var p := s0.current;
      && kick < KickLimit(|s0.shapes[p.kind]|)
      && !Collides(s0.board, t, p.x + Shift(kick), p.y)
      && KicksCollide(s0.board, t, p.x, p.y, kick)
      && Installed(s0, t, p.x + Shift(kick))
    }

    /** One turn from state s0 (playerRotate). An accepted turn, after kick
        tested shifts that collide, rewrites the type's entry of the shape
        table, moves the piece to the first free shift and refreshes the
        ghost; a rejected one changes nothing, every shift it may test
        colliding. */
    ghost predicate Turned(s0: Snapshot, dir: int, accepted: bool, kick: nat)
      requires Fits(s0) && Square(s0.shapes[s0.current.kind]) && Valid()
      reads this`board, this`shapes, this`current, this`next, this`ghostPiece, this`score, this`level,
        this`lines, this`dropInterval, this`gameOver, this`dropCounter
    {
      var p := s0.current;
      var m := s0.shapes[p.kind];
      var t := Rotated(m, dir);
      if accepted then
        TurnedTo(s0, t, kick)
      else
        Snap() == s0 && KicksCollide(s0.board, t, p.x, p.y, KickLimit(|m|))
    }

    ghost predicate RotateStep(s0: Snapshot, dir: int)
      requires Fits(s0) && Square(s0.shapes[s0.current.kind]) && Valid()
      reads this`board, this`shapes, this`current, this`next, this`ghostPiece, this`score, this`level,
        this`lines, this`dropInterval, this`gameOver, this`dropCounter
    {
      exists accepted: bool, kick: nat :: Turned(s0, dir, accepted, kick)
    }

    /** One soft-drop step from state s0 (playerDrop): the piece falls a row
        when it can; otherwise it locks where it is. The drop counter is reset
        unless the lock faulted. */
    ghost predicate DropStep(s0: Snapshot, fault: bool, draw: Kind)
      requires Fits(s0)
      reads this`board, this`shapes, this`current, this`next, this`ghostPiece, this`score, this`level,
        this`lines, this`dropInterval, this`gameOver, this`dropCounter
    {
      var p := s0.current;
      if !Collides(s0.board, s0.shapes[p.kind], p.x, p.y + 1) then
        !fault && Snap() == s0.(current := p.(y := p.y + 1), dropCounter := 0.0)
      else
        LockedAfter(s0, fault, draw) && dropCounter == if fault then s0.dropCounter else 0.0
    }

    /** A hard drop from state s0 (playerHardDrop) that comes to rest on row
        landed: the resting row of a free piece, one row above a piece that
        already collides. The piece locks there and the drop counter is reset
        unless the lock faulted. */
    ghost predicate HardDropped(s0: Snapshot, fault: bool, draw: Kind, landed: int)
      requires Fits(s0)
      reads this`board, this`shapes, this`current, this`next, this`ghostPiece, this`score, this`level,
        this`lines, this`dropInterval, this`gameOver, this`dropCounter
    {
      var p := s0.current;
      var m := s0.shapes[p.kind];
      && (!Collides(s0.board, m, p.x, p.y) ==> Landing(s0.board, m, p.x, p.y, landed))
      && (Collides(s0.board, m, p.x, p.y) ==> landed == p.y - 1)
      && LockedAfter(s0.(current := p.(y := landed)), fault, draw)
      && dropCounter == if fault then s0.dropCounter else 0.0
    }

    ghost predicate HardDropStep(s0: Snapshot, fault: bool, draw: Kind)
      requires Fits(s0)
      reads this`board, this`shapes, this`current, this`next, this`ghostPiece, this`score, this`level,
        this`lines, this`dropInterval, this`gameOver, this`dropCounter
    {
      exists landed: int :: HardDropped(s0, fault, draw, landed)
    }

    /** The step an action takes from state s0 in a running game. */
    ghost predicate ActionStep(s0: Snapshot, a: Action, fault: bool, draw: Kind)
      requires Fits(s0) && Square(s0.shapes[s0.current.kind]) && Valid()
      reads this`board, this`shapes, this`current, this`next, this`ghostPiece, this`score, this`level,
        this`lines, this`dropInterval, this`gameOver, this`dropCounter
    {
      match a
      case MoveLeft => !fault && MoveStep(s0, -1)
      case MoveRight => !fault && MoveStep(s0, 1)
      case SoftDrop => DropStep(s0, fault, draw)
      case TurnRight => !fault && RotateStep(s0, 1)
      case HardDrop => HardDropStep(s0, fault, draw)
    }

    /** The page's first steps: the initial state, then resetGame. */
    constructor (first: Kind, second: Kind)
      ensures Valid() && GhostFresh()
      ensures board == EmptyBoard() && Session() == Stats(0, 1, 0, 1000) && dropCounter == 0.0
      ensures forall k: Kind :: shapes[k] == Template(k)
      ensures !gameStarted && !gameOver
      ensures current == Spawn(first) && next == Some(second)
    {
      board := EmptyBoard();
      shapes := seq(8, i => if 1 <= i <= 7 then Template(i) else []);
      current := Spawn(first);
      next := None;
      ghostPiece := GhostPiece(first, [], 0, 0);
      score, level, lines, dropInterval := 0, 1, 0, 1000;
      dropCounter := 0.0;
      gameStarted, gameOver := false, false;
      new;
      forall k: Kind ensures WellShaped(shapes[k], k) {
        assert shapes[k] == Template(k);
      }
      ResetGame(first, second);
    }

    /** Starts a new session (resetGame): empty board, initial figures, both
        flags down and a fresh current/next pair. The shape table keeps its
        turned entries and the drop counter is not reset. */
    method ResetGame(first: Kind, second: Kind)
      requires |shapes| == 8 && forall k: Kind :: WellShaped(shapes[k], k)
      modifies this
      ensures Valid() && GhostFresh()
      ensures board == EmptyBoard() && Session() == Stats(0, 1, 0, 1000)
      ensures !gameStarted && !gameOver
      ensures current == Spawn(first) && next == Some(second)
      ensures shapes == old(shapes) && dropCounter == old(dropCounter)
    {
      board := EmptyBoard();
      score, level, lines, dropInterval := 0, 1, 0, 1000;
      gameStarted, gameOver := false, false;
      next := None;
      ResetPiece(first, second);
      SpawnOnBoard(shapes[first], first);
    }

    /** Hands over to a new current piece (resetPiece): the waiting next piece,
        or a fresh draw when there is none, and draws a new next piece. When
        the new piece collides at its spawn position the game is over;
        otherwise its ghost is computed. */
    method ResetPiece(first: Kind, second: Kind)
      requires Core()
      modifies this`current, this`next, this`gameOver, this`ghostPiece
      ensures Valid()
      ensures old(next).None? ==> current == Spawn(first) && next == Some(second)
      ensures old(next).Some? ==> current == Spawn(old(next).value) && next == Some(first)
      ensures gameOver == (old(gameOver) || Collides(board, Shape(), SpawnX, SpawnY))
      ensures !Collides(board, Shape(), SpawnX, SpawnY) ==> GhostFresh()
      ensures Collides(board, Shape(), SpawnX, SpawnY) ==> ghostPiece == old(ghostPiece)
    {
      if next.None? {
        current := Spawn(first);
        next := Some(second);
      } else {
        current := Spawn(next.value);
        next := Some(first);
      }
      SpawnOnBoard(shapes[current.kind], current.kind);
      var hit := Collide(board, shapes[current.kind], current.x, current.y);
      if hit {
        gameOver := true;
      } else {
        UpdateGhost();
      }
    }

    /** Recomputes the ghost (updateGhost): a copy of the current piece moved
        down while it does not collide, then back up one row. */
    method UpdateGhost()
      requires Valid() && !Collides(board, Shape(), current.x, current.y)
      modifies this`ghostPiece
      ensures GhostFresh()
    {
      var gy := Fall(board, shapes[current.kind], current.x, current.y);
      ghostPiece := GhostPiece(current.kind, shapes[current.kind], current.x, gy);
    }

    /** Moves the piece one column (playerMove) in a running game, undoing a
        move that collides. */
    method PlayerMove(dir: int)
      requires Valid()
      modifies this`current, this`ghostPiece
      ensures Valid()
      ensures !old(Running()) ==> Snap() == old(Snap())
      ensures old(Running()) ==> MoveStep(old(Snap()), dir)
    {
      if !Running() {
        return;
      }
      current := current.(x := current.x + dir);
      var hit := Collide(board, shapes[current.kind], current.x, current.y);
      if hit {
        current := current.(x := current.x - dir);
      } else {
        FreeIsOnBoard(board, shapes[current.kind], current.x, current.y);
        UpdateGhost();
      }
    }

    /** Turns the piece with the wall-kick search (playerRotate) in a running
        game: after the turn the piece is shifted by 1, -2, 3, -4, ... columns
        while it collides; once the next offset would exceed the matrix width
        the turn is undone and the column restored. The turn rewrites the
        shape-table entry, so it also turns the next piece when that has the
        same type. */
    method PlayerRotate(dir: int) returns (ghost accepted: bool, ghost kick: nat)
      requires Valid() && (dir == 1 || dir == -1)
      modifies this`shapes, this`current, this`ghostPiece
      ensures Valid()
      ensures !old(Running()) ==> Snap() == old(Snap())
      ensures old(Running()) ==> Turned(old(Snap()), dir, accepted, kick)
    {
      accepted, kick := false, 0;
      if !Running() {
        return;
      }
      var shape, x, ok;
      shape, x, ok, kick := TurnAndKick(board, shapes[current.kind], current.x, current.y, dir);
      accepted := ok;
      if ok {
        RotatedWellShaped(shapes[current.kind], current.kind, dir);
        Accept(shape, x, kick);
      }
      // otherwise the matrix was turned back and the column restored
    }

    /** An accepted turn: the search found column x free for the turned
        matrix after kick colliding shifts. */
    method Accept(shape: Grid, x: int, ghost kick: nat)
      requires Valid() && WellShaped(shape, current.kind) && kick < KickLimit(|Shape()|)
      requires x == current.x + Shift(kick) && !Collides(board, shape, x, current.y)
      requires KicksCollide(board, shape, current.x, current.y, kick)
      modifies this`shapes, this`current, this`ghostPiece
      ensures Valid()
      ensures TurnedTo(old(Snap()), shape, kick)
    {
      FreeIsOnBoard(board, shape, x, current.y);
      Install(shape, x);
    }

    /** Puts an accepted turn in place: the turned matrix into the shape-table
        entry of the current type, the column found into the piece, and a
        fresh ghost. */
    method Install(shape: Grid, x: int)
      requires Valid() && WellShaped(shape, current.kind)
      requires ColumnsInRange(shape, x) && AboveFloor(shape, current.y)
      requires !Collides(board, shape, x, current.y)
      modifies this`shapes, this`current, this`ghostPiece
      ensures Valid() && Installed(old(Snap()), shape, x)
    {
      shapes := shapes[current.kind := shape];
      current := current.(x := x);
      UpdateGhost();
    }

    /** Merges the current piece, hands over to the next one and clears rows
        (the lock in playerDrop and playerHardDrop). */
    method Lock(draw: Kind) returns (fault: bool)
      requires Valid()
      modifies this`board, this`current, this`next, this`ghostPiece, this`gameOver
      modifies this`score, this`level, this`lines, this`dropInterval
      ensures Valid()
      ensures LockedAfter(old(Snap()), fault, draw)
      ensures fault ==> exists r, c :: Covers(old(shapes[current.kind]), r, c) && old(current.y) + r < 0
    {
      var m := shapes[current.kind];
      if !RowsInRange(m, current.y) {
        OffRowsAreAboveTop(m, current.y);
        return true;
      }
      board := Merge(board, m, current.x, current.y);
      MergedInRange(old(board), m, current.x, current.y);
      Settle(draw);
      return false;
    }

    /** What follows a successful merge in the lock: resetPiece, then
        clearLines. */
    method Settle(draw: Kind)
      requires Core() && next.Some?
      modifies this`board, this`current, this`next, this`ghostPiece, this`gameOver
      modifies this`score, this`level, this`lines, this`dropInterval
      ensures Valid()
      ensures SettledAfter(old(board), old(Snap()), draw)
    {
      ResetPiece(draw, draw);
      ClearLines();
    }

    /** Removes the full rows and scores them (clearLines). */
    method ClearLines()
      requires IsBoard(board) && CellsInRange(board) && Consistent(Session())
      modifies this`board, this`score, this`level, this`lines, this`dropInterval
      ensures IsBoard(board) && CellsInRange(board) && Consistent(Session())
      ensures board == Cleared(old(board))
      ensures Session() == AfterClear(old(Session()), FullCount(old(board)))
    {
      ClearedIsBoard(board);
      AfterClearConsistent(Session(), FullCount(board));
      var cleared;
      board, cleared := ClearFullRows(board);
      if cleared > 0 {
        lines := lines + cleared;
        var newLevel := lines / 10 + 1;
        if newLevel > level {
          level := newLevel;
          dropInterval := IntervalFor(level);
        }
        score := score + cleared * 100 * level;
      }
    }

    /** The soft drop (playerDrop). */
    method PlayerDrop(draw: Kind) returns (fault: bool)
      requires Valid()
      modifies this`board, this`current, this`next, this`ghostPiece, this`gameOver,
        this`score, this`level, this`lines, this`dropInterval, this`dropCounter
      ensures Valid()
      ensures !old(Running()) ==> !fault && unchanged(this)
      ensures old(Running()) ==> DropStep(old(Snap()), fault, draw)
      ensures old(Running()) && old(CanFall()) && old(GhostFresh()) ==> GhostFresh()
    {
      if !Running() {
        return false;
      }
      // the script moves the piece down, tests it and moves it back up
      var hit := Collide(board, shapes[current.kind], current.x, current.y + 1);
      if hit {
        fault := LockAndRestart(draw);
      } else {
        StepDown();
        fault := false;
      }
    }

    /** The fall of a soft drop: one row down and the drop counter reset. */
    method StepDown()
      requires Valid() && CanFall()
      modifies this`current, this`dropCounter
      ensures Valid()
      ensures Snap() == old(Snap()).(current := old(current).(y := old(current.y) + 1), dropCounter := 0.0)
      ensures old(GhostFresh()) ==> GhostFresh()
    {
      if GhostFresh() {
        LandingFromLower(board, Shape(), current.x, current.y, current.y + 1, ghostPiece.y);
      }
      FreeIsOnBoard(board, Shape(), current.x, current.y + 1);
      current := current.(y := current.y + 1);
      dropCounter := 0.0;
    }

    /** The lock of a drop, which resets the drop counter unless it faults. */
    method LockAndRestart(draw: Kind) returns (fault: bool)
      requires Valid()
      modifies this`board, this`current, this`next, this`ghostPiece, this`gameOver,
        this`score, this`level, this`lines, this`dropInterval, this`dropCounter
      ensures Valid()
      ensures LockedAfter(old(Snap()), fault, draw)
      ensures dropCounter == if fault then old(dropCounter) else 0.0
    {
      fault := Lock(draw);
      if !fault {
        dropCounter := 0.0;
      }
    }

    /** The hard drop (playerHardDrop): the piece moves down while it does not
        collide, back up one row, and locks there. From a free position that
        is where the fresh ghost shows; a piece that already collides is
        locked one row higher than it was. */
    method PlayerHardDrop(draw: Kind) returns (fault: bool, ghost landed: int)
      requires Valid()
      modifies this`board, this`current, this`next, this`ghostPiece, this`gameOver,
        this`score, this`level, this`lines, this`dropInterval, this`dropCounter
      ensures Valid()
      ensures !old(Running()) ==> !fault && unchanged(this)
      ensures old(Running()) ==> HardDropped(old(Snap()), fault, draw, landed)
      ensures old(Running()) && old(GhostFresh()) ==> landed == old(ghostPiece.y)
    {
      landed := current.y;
      if !Running() {
        return false, landed;
      }
      var m := shapes[current.kind];
      var y := Fall(board, m, current.x, current.y);
      landed := y;
      if old(GhostFresh()) {
        LandingUnique(board, m, current.x, current.y, landed, ghostPiece.y);
      }
      current := current.(y := y);
      fault := LockAndRestart(draw);
    }

    /** One frame of the game loop (update): a running game adds the elapsed
        time to the drop counter and soft-drops once the counter exceeds the
        drop interval. */
    method OnTick(delta: real, draw: Kind) returns (fault: bool)
      requires Valid()
      modifies this`board, this`current, this`next, this`ghostPiece, this`gameOver,
        this`score, this`level, this`lines, this`dropInterval, this`dropCounter
      ensures Valid()
      ensures !old(Running()) ==> !fault && unchanged(this)
      ensures old(Running()) && old(dropCounter) + delta <= old(dropInterval) as real ==>
        !fault && Snap() == old(Snap()).(dropCounter := old(dropCounter) + delta)
      ensures old(Running()) && old(dropCounter) + delta > old(dropInterval) as real ==>
        DropStep(old(Snap()).(dropCounter := old(dropCounter) + delta), fault, draw)
      ensures gameStarted == old(gameStarted)
    {
      fault := false;
      if Running() {
        dropCounter := dropCounter + delta;
        assert Snap() == old(Snap()).(dropCounter := old(dropCounter) + delta);
        if dropCounter > dropInterval as real {
          fault := PlayerDrop(draw);
        }
      }
    }

    /** Performs an action of a running game (the calls in the key and
        button handlers). */
    method Perform(a: Action, draw: Kind) returns (fault: bool)
      requires Valid() && Running()
      modifies this
      ensures Valid() && gameStarted == old(gameStarted)
      ensures ActionStep(old(Snap()), a, fault, draw)
    {
      fault := false;
      match a {
        case MoveLeft => PlayerMove(-1);
        case MoveRight => PlayerMove(1);
        case SoftDrop => fault := PlayerDrop(draw);
        case TurnRight =>
          ghost var accepted, kick := PlayerRotate(1);
        case HardDrop =>
          ghost var landed;
          fault, landed := PlayerHardDrop(draw);
      }
    }

    /** The keyboard handler: nothing once the game is over; an arrow key or
        the space bar starts a game that has not started, and then performs
        its action (left, right, soft drop, turn, hard drop). */
    method HandleKey(key: Key, draw: Kind) returns (fault: bool)
      requires Valid()
      modifies this
      ensures Valid()
      ensures old(gameOver) || key == OtherKey ==> !fault && unchanged(this)
      ensures gameStarted == (old(gameStarted) || (!old(gameOver) && key != OtherKey))
      ensures !old(gameOver) && key != OtherKey ==> ActionStep(old(Snap()), KeyAction(key), fault, draw)
    {
      fault := false;
      if gameOver || key == OtherKey {
        return;
      }
      ghost var s0 := Snap();
      if !gameStarted {
        gameStarted := true;
      }
      assert Snap() == s0;
      fault := Perform(KeyAction(key), draw);
    }

    /** The button handlers: Start only starts a game that is neither running
        nor over; Reset starts a new session; every other button starts such a
        game and then performs its action. */
    method HandleButton(button: Button, first: Kind, second: Kind) returns (fault: bool)
      requires Valid()
      modifies this
      ensures Valid()
      ensures button != ResetButton ==> gameStarted == (old(gameStarted) || !old(gameOver))
      ensures button != ResetButton && old(gameOver) ==> !fault && unchanged(this)
      ensures button == StartButton ==> !fault && Snap() == old(Snap())
      ensures !old(gameOver) && button != StartButton && button != ResetButton ==>
        ActionStep(old(Snap()), ButtonAction(button), fault, first)
      ensures button == ResetButton ==>
        && !fault && board == EmptyBoard() && Session() == Stats(0, 1, 0, 1000)
        && !gameStarted && !gameOver && current == Spawn(first) && next == Some(second) && GhostFresh()
        && shapes == old(shapes) && dropCounter == old(dropCounter)
    {
      fault := false;
      if button == ResetButton {
        ResetGame(first, second);
        return;
      }
      if gameOver {
        return;
      }
      ghost var s0 := Snap();
      if !gameStarted {
        gameStarted := true;
      }
      assert Snap() == s0;
      if button != StartButton {
        fault := Perform(ButtonAction(button), first);
      }
    }
  }
}

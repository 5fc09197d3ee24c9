/** The game rules as the program computes them, by scanning the grid cell
    by cell with counters and flags. Each method is proved to compute the
    corresponding function of module Board. */
module Rules {
  import opened Board

  /** Counts the marks of each player over all nine cells; O is to move when
      X has more marks, otherwise X. */
  method Player(b: Board) returns (p: Player)
    ensures p == NextPlayer(b)
  {
    var xCount, oCount := 0, 0;
    var i := 0;
    while i < 3
      invariant 0 <= i <= 3
      invariant xCount == CountRows(b, i, X) && oCount == CountRows(b, i, O)
    {
      var row := b[i];
      var j := 0;
      while j < 3
        invariant 0 <= j <= 3
        invariant xCount == CountRows(b, i, X) + CountIn(row[..j], X)
        invariant oCount == CountRows(b, i, O) + CountIn(row[..j], O)
      {
        assert row[..j + 1][..j] == row[..j];
        if row[j] == X { xCount := xCount + 1; }
        if row[j] == O { oCount := oCount + 1; }
        j := j + 1;
      }
      assert row[..3] == row;
      i := i + 1;
    }
    if xCount > oCount { return O; }
    return X;
  }

  /** The empty cells met before position (i, j) of a row-major scan. */
  ghost function EmptiesBefore(b: Board, i: int, j: int): set<Move>
  {
    set r, c | 0 <= r < 3 && 0 <= c < 3 && (r < i || (r == i && c < j)) && b[r][c] == Empty :: (r, c)
  }

  /** Collects every empty cell into a set, row by row. */
  method Actions(b: Board) returns (action: set<Move>)
    ensures action == Moves(b)
  {
    action := {};
    var i := 0;
    while i < 3
      invariant 0 <= i <= 3
      invariant action == EmptiesBefore(b, i, 0)
    {
      var j := 0;
      while j < 3
        invariant 0 <= j <= 3
        invariant action == EmptiesBefore(b, i, j)
      {
        if b[i][j] == Empty {
          action := action + {(i, j)};
        }
        assert action == EmptiesBefore(b, i, j + 1);
        j := j + 1;
      }
      assert EmptiesBefore(b, i, 3) == EmptiesBefore(b, i + 1, 0);
      i := i + 1;
    }
    assert EmptiesBefore(b, 3, 0) == Moves(b);
  }

  /** Places the mover's mark on a copy of the board; an occupied cell, or
      one outside the grid, is an invalid move. The input board is a value
      and is left as it was. */
  method Result(b: Board, m: Move) returns (r: MoveResult)
    ensures r == Apply(b, m)
  {
    if !InBounds(m) {
      return InvalidMove;
    }
    var newBoard := b;
    if newBoard[m.0][m.1] != Empty {
      return InvalidMove;
    }
    var turn := Player(b);
    newBoard := newBoard[m.0 := newBoard[m.0][m.1 := turn]];
    return Moved(newBoard);
  }

  /** Walks the three cells of a line, clearing a player's flag at the first
      cell that does not hold that player's mark. */
  method ScanLine(b: Board, l: Line) returns (xFlag: bool, oFlag: bool)
    requires ValidLine(l)
    ensures xFlag == Owns(b, l, X)
    ensures oFlag == Owns(b, l, O)
  {
    xFlag, oFlag := true, true;
    var k := 0;
    while k < 3
      invariant 0 <= k <= 3
      invariant xFlag == forall q | 0 <= q < k :: Get(b, At(l, q)) == X
      invariant oFlag == forall q | 0 <= q < k :: Get(b, At(l, q)) == O
    {
      var (i, j) := At(l, k);
      if b[i][j] != X { xFlag := false; }
      if b[i][j] != O { oFlag := false; }
      k := k + 1;
    }
  }

  /** Scans the rows, then the columns, then the main diagonal, then the
      anti-diagonal; the first line whose flag survives names the winner,
      X being tested before O on each line. */
  method Winner(b: Board) returns (w: Option<Player>)
    ensures w == WinnerOf(b)
  {
    // rows
    var i := 0;
    while i < 3
      invariant 0 <= i <= 3
      invariant forall t | 0 <= t < i :: !Owns(b, LineAt(t), X) && !Owns(b, LineAt(t), O)
    {
      var xFlag, oFlag := ScanLine(b, Row(i));
      assert LineAt(i) == Row(i);
      if xFlag || oFlag {
        WinnerSkip(b, i);
        return if xFlag then Some(X) else Some(O);
      }
      i := i + 1;
    }

    // columns
    i := 0;
    while i < 3
      invariant 0 <= i <= 3
      invariant forall t | 0 <= t < 3 + i :: !Owns(b, LineAt(t), X) && !Owns(b, LineAt(t), O)
    {
      var xFlag, oFlag := ScanLine(b, Col(i));
      assert LineAt(3 + i) == Col(i);
      if xFlag || oFlag {
        WinnerSkip(b, 3 + i);
        return if xFlag then Some(X) else Some(O);
      }
      i := i + 1;
    }

    // main diagonal
    var xFlag, oFlag := ScanLine(b, Diagonal);
    assert LineAt(6) == Diagonal;
    WinnerSkip(b, 6);
    if xFlag || oFlag {
      return if xFlag then Some(X) else Some(O);
    }

    // anti-diagonal
    xFlag, oFlag := ScanLine(b, AntiDiagonal);
    assert LineAt(7) == AntiDiagonal;
    WinnerSkip(b, 7);
    if xFlag || oFlag {
      return if xFlag then Some(X) else Some(O);
    }
    return None;
  }

  /** 1 when X has won, -1 when O has won, 0 otherwise. */
  method Utility(b: Board) returns (u: int)
    ensures u == UtilityOf(b)
    ensures u == 1 <==> WinnerOf(b) == Some(X)
    ensures u == -1 <==> WinnerOf(b) == Some(O)
  {
    var w := Winner(b);
    if w == Some(X) {
      return 1;
    } else if w == Some(O) {
      return -1;
    } else {
      return 0;
    }
  }

  /** The game is over when the utility is non-zero, that is, somebody has
      won, or when the scan finds no empty cell. */
  method Terminal(b: Board) returns (t: bool)
    ensures t == IsTerminal(b)
  {
    var u := Utility(b);
    if u != 0 {
      return true;
    }
    var i := 0;
    while i < 3
      invariant 0 <= i <= 3
      invariant forall r, c | 0 <= r < i && 0 <= c < 3 :: b[r][c] != Empty
    {
      var j := 0;
      while j < 3
        invariant 0 <= j <= 3
        invariant forall r, c | 0 <= r < i && 0 <= c < 3 :: b[r][c] != Empty
        invariant forall c | 0 <= c < j :: b[i][c] != Empty
      {
        if b[i][j] == Empty {
          return false;
        }
        j := j + 1;
      }
      i := i + 1;
    }
    return true;
  }
}

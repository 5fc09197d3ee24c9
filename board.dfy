/** The board model of tic-tac-toe: cells, boards, moves, and the game rules
    (whose turn it is, the legal moves, applying a move, the winner, the end
    of the game and its utility) as functions over immutable board values,
    together with the properties the rules promise. */
module Board {

  datatype Option<+T> = None | Some(value: T)

  /** A cell of the grid: empty, or holding the mark of one player. */
  datatype Cell = Empty | X | O

  /** A player is identified with the mark it places. */
  type Player = c: Cell | c != Empty witness X

  function Other(p: Player): (q: Player)
    ensures q != p
  {
    if p == X then O else X
  }

  /** A 3x3 grid of cells, row-major, rows and columns indexed 0..2. */
  type Board = b: seq<seq<Cell>> | |b| == 3 && forall i | 0 <= i < 3 :: |b[i]| == 3
    witness [[Empty, Empty, Empty], [Empty, Empty, Empty], [Empty, Empty, Empty]]

  /** A move names a cell by (row, column). */
  type Move = (int, int)

  predicate InBounds(m: Move)
  {
    0 <= m.0 < 3 && 0 <= m.1 < 3
  }

  function Get(b: Board, m: Move): Cell
    requires InBounds(m)
  {
    b[m.0][m.1]
  }

  /** The starting position: every cell empty. */
  function InitialState(): (b: Board)
    ensures forall i, j | 0 <= i < 3 && 0 <= j < 3 :: b[i][j] == Empty
  {
    [[Empty, Empty, Empty], [Empty, Empty, Empty], [Empty, Empty, Empty]]
  }

  // ---------------------------------------------------------------------
  // Counting marks

  /** The number of cells of `s` equal to `c`, counted from the left. */
  function CountIn(s: seq<Cell>, c: Cell): nat
  {
    if s == [] then 0 else CountIn(s[..|s| - 1], c) + (if s[|s| - 1] == c then 1 else 0)
  }

  /** The number of cells equal to `c` in the first `n` rows. */
  function CountRows(b: Board, n: nat, c: Cell): nat
    requires n <= 3
  {
    if n == 0 then 0 else CountRows(b, n - 1, c) + CountIn(b[n - 1], c)
  }

  /** The number of cells of the board equal to `c`. */
  function Count(b: Board, c: Cell): nat
  {
    CountRows(b, 3, c)
  }

  /** The number of empty cells; every move lowers it by one. */
  function Empties(b: Board): nat
  {
    Count(b, Empty)
  }

  lemma CountSplit(b: Board, c: Cell)
    ensures Count(b, c) == CountIn(b[0], c) + CountIn(b[1], c) + CountIn(b[2], c)
  {
    assert CountRows(b, 1, c) == CountIn(b[0], c);
    assert CountRows(b, 2, c) == CountIn(b[0], c) + CountIn(b[1], c);
  }

  lemma {:induction false} CountInBound(s: seq<Cell>, c: Cell)
    ensures CountIn(s, c) <= |s|
    ensures CountIn(s, c) == |s| <==> forall k | 0 <= k < |s| :: s[k] == c
    ensures CountIn(s, c) == 0 <==> forall k | 0 <= k < |s| :: s[k] != c
  {
    if s != [] {
      var n := |s| - 1;
      CountInBound(s[..n], c);
      assert forall k | 0 <= k < n :: s[..n][k] == s[k];
    }
  }

  lemma {:induction false} CountInTotal(s: seq<Cell>)
    ensures CountIn(s, X) + CountIn(s, O) + CountIn(s, Empty) == |s|
  {
    if s != [] {
      CountInTotal(s[..|s| - 1]);
    }
  }

  /** Every cell is empty or holds one of the two marks. */
  lemma CountTotal(b: Board)
    ensures Count(b, X) + Count(b, O) + Empties(b) == 9
  {
    CountSplit(b, X);
    CountSplit(b, O);
    CountSplit(b, Empty);
    CountInTotal(b[0]);
    CountInTotal(b[1]);
    CountInTotal(b[2]);
  }

  /** Overwriting one cell moves one unit of count from the old value to the new. */
  lemma {:induction false} CountInUpdate(s: seq<Cell>, k: int, v: Cell, c: Cell)
    requires 0 <= k < |s|
    ensures CountIn(s[k := v], c) == CountIn(s, c) - (if s[k] == c then 1 else 0) + (if v == c then 1 else 0)
  {
    var n := |s| - 1;
    if k < n {
      assert s[k := v][..n] == s[..n][k := v];
      CountInUpdate(s[..n], k, v, c);
    } else {
      assert s[k := v][..n] == s[..n];
    }
  }

  /** The same fact for one cell of the board. */
  lemma CountPlace(b: Board, m: Move, v: Cell, c: Cell)
    requires InBounds(m)
    ensures Count(b[m.0 := b[m.0][m.1 := v]], c)
         == Count(b, c) - (if Get(b, m) == c then 1 else 0) + (if v == c then 1 else 0)
  {
    var b' := b[m.0 := b[m.0][m.1 := v]];
    CountSplit(b, c);
    CountSplit(b', c);
    CountInUpdate(b[m.0], m.1, v, c);
  }

  // ---------------------------------------------------------------------
  // Whose turn it is

  /** O is to move exactly when X has placed more marks than O; otherwise X. */
  function NextPlayer(b: Board): Player
  {
    if Count(b, X) > Count(b, O) then O else X
  }

  /** The positions that alternate play from the initial state can reach:
      X has placed as many marks as O, or one more. */
  predicate Balanced(b: Board)
  {
    Count(b, X) == Count(b, O) || Count(b, X) == Count(b, O) + 1
  }

  /** On a balanced board, X is to move exactly when the counts are equal. */
  lemma NextPlayerBalanced(b: Board)
    requires Balanced(b)
    ensures NextPlayer(b) == X <==> Count(b, X) == Count(b, O)
    ensures NextPlayer(b) == O <==> Count(b, X) == Count(b, O) + 1
  {
  }

  // ---------------------------------------------------------------------
  // Legal moves

  /** The legal moves: exactly the empty cells. */
  function Moves(b: Board): set<Move>
  {
    set i, j | 0 <= i < 3 && 0 <= j < 3 && b[i][j] == Empty :: (i, j)
  }

  lemma MovesMembership(b: Board, m: Move)
    ensures m in Moves(b) <==> InBounds(m) && Get(b, m) == Empty
  {
    if InBounds(m) && Get(b, m) == Empty {
      assert m == (m.0, m.1);
    }
  }

  /** The empty cells of row `r` among its first `n` columns. */
  function RowEmpties(b: Board, r: int, n: int): set<Move>
    requires 0 <= r < 3 && 0 <= n <= 3
  {
    set j | 0 <= j < n && b[r][j] == Empty :: (r, j)
  }

  lemma {:induction false} RowEmptiesCard(b: Board, r: int, n: int)
    requires 0 <= r < 3 && 0 <= n <= 3
    ensures |RowEmpties(b, r, n)| == CountIn(b[r][..n], Empty)
  {
    if n == 0 {
      assert RowEmpties(b, r, 0) == {};
    } else {
      RowEmptiesCard(b, r, n - 1);
      assert b[r][..n][..n - 1] == b[r][..n - 1];
      assert (r, n - 1) !in RowEmpties(b, r, n - 1);
      if b[r][n - 1] == Empty {
        assert RowEmpties(b, r, n) == RowEmpties(b, r, n - 1) + {(r, n - 1)};
      } else {
        assert RowEmpties(b, r, n) == RowEmpties(b, r, n - 1);
      }
    }
  }

  /** The legal moves, row by row. */
  lemma MovesByRow(b: Board)
    ensures Moves(b) == RowEmpties(b, 0, 3) + RowEmpties(b, 1, 3) + RowEmpties(b, 2, 3)
  {
    forall m | m in Moves(b) ensures m in RowEmpties(b, m.0, 3) {
      MovesMembership(b, m);
    }
  }

  /** There is one legal move per empty cell: 9 minus the number of marks. */
  lemma MovesCard(b: Board)
    ensures |Moves(b)| == Empties(b)
    ensures |Moves(b)| == 9 - Count(b, X) - Count(b, O)
  {
    var r0, r1, r2 := RowEmpties(b, 0, 3), RowEmpties(b, 1, 3), RowEmpties(b, 2, 3);
    RowEmptiesCard(b, 0, 3);
    RowEmptiesCard(b, 1, 3);
    RowEmptiesCard(b, 2, 3);
    assert b[0][..3] == b[0] && b[1][..3] == b[1] && b[2][..3] == b[2];
    assert r0 * r1 == {};
    assert (r0 + r1) * r2 == {};
    MovesByRow(b);
    CountSplit(b, Empty);
    CountTotal(b);
  }

  /** No cell is empty. */
  predicate Full(b: Board)
  {
    forall i, j | 0 <= i < 3 && 0 <= j < 3 :: b[i][j] != Empty
  }

  lemma FullNoMoves(b: Board)
    ensures Full(b) <==> Moves(b) == {}
    ensures Full(b) <==> Empties(b) == 0
  {
    if !Full(b) {
      var i, j :| 0 <= i < 3 && 0 <= j < 3 && b[i][j] == Empty;
      assert (i, j) in Moves(b);
    }
    MovesCard(b);
  }

  // ---------------------------------------------------------------------
  // Applying a move

  /** Applying a move either yields the next board or reports an invalid move. */
  datatype MoveResult = Moved(board: Board) | InvalidMove

  /** The mover's mark is placed on the named cell; a cell that is occupied,
      or that is not on the board, is an invalid move. */
  function Apply(b: Board, m: Move): (r: MoveResult)
    ensures r.Moved? <==> m in Moves(b)
    ensures r.Moved? ==> Empties(r.board) == Empties(b) - 1
  {
    MovesMembership(b, m);
    if !InBounds(m) || Get(b, m) != Empty then InvalidMove
    else
      CountPlace(b, m, NextPlayer(b), Empty);
      Moved(b[m.0 := b[m.0][m.1 := NextPlayer(b)]])
  }

  /** The board after a legal move. */
  function Child(b: Board, m: Move): (c: Board)
    requires m in Moves(b)
    ensures Empties(c) == Empties(b) - 1
  {
    Apply(b, m).board
  }

  /** A legal move changes exactly the named cell, which then holds the mark
      of the player whose turn it was. */
  lemma ApplyChangesOneCell(b: Board, m: Move)
    requires m in Moves(b)
    ensures forall i, j | 0 <= i < 3 && 0 <= j < 3 ::
              Child(b, m)[i][j] == if (i, j) == m then NextPlayer(b) else b[i][j]
  {
  }

  /** The mover gains one mark, the other player none, and one empty cell is used up. */
  lemma ApplyCounts(b: Board, m: Move)
    requires m in Moves(b)
    ensures Count(Child(b, m), NextPlayer(b)) == Count(b, NextPlayer(b)) + 1
    ensures Count(Child(b, m), Other(NextPlayer(b))) == Count(b, Other(NextPlayer(b)))
    ensures Empties(Child(b, m)) == Empties(b) - 1
  {
    MovesMembership(b, m);
    CountPlace(b, m, NextPlayer(b), NextPlayer(b));
    CountPlace(b, m, NextPlayer(b), Other(NextPlayer(b)));
  }

  /** On a balanced board a move hands the turn to the other player and
      keeps the board balanced. */
  lemma ApplyAlternates(b: Board, m: Move)
    requires Balanced(b) && m in Moves(b)
    ensures NextPlayer(Child(b, m)) == Other(NextPlayer(b))
    ensures Balanced(Child(b, m))
  {
    ApplyCounts(b, m);
  }

  /** A played cell is no longer a legal move; nothing else changes in the move set. */
  lemma ApplyRemovesMove(b: Board, m: Move)
    requires m in Moves(b)
    ensures m !in Moves(Child(b, m))
    ensures Moves(Child(b, m)) == Moves(b) - {m}
  {
    var c := Child(b, m);
    forall q ensures q in Moves(c) <==> q in Moves(b) - {m} {
      MovesMembership(b, q);
      MovesMembership(c, q);
    }
  }

  /** Playing the same cell twice fails the second time. */
  lemma ApplyTwiceFails(b: Board, m: Move)
    requires Apply(b, m).Moved?
    ensures Apply(Apply(b, m).board, m) == InvalidMove
  {
    ApplyRemovesMove(b, m);
  }

  /** The result of playing the moves of `ms` in order; the first invalid move
      ends the game with an error. */
  function Play(b: Board, ms: seq<Move>): MoveResult
    decreases ms
  {
    if ms == [] then Moved(b)
    else match Apply(b, ms[0])
      case InvalidMove => InvalidMove
      case Moved(c) => Play(c, ms[1..])
  }

  /** Along any sequence of valid moves from a balanced board, the turn
      alternates move by move, every move adds one mark, and the board stays
      balanced. */
  lemma {:induction false} PlayAlternates(b: Board, ms: seq<Move>)
    requires Balanced(b) && Play(b, ms).Moved?
    ensures Balanced(Play(b, ms).board)
    ensures NextPlayer(Play(b, ms).board) == if |ms| % 2 == 0 then NextPlayer(b) else Other(NextPlayer(b))
    ensures Empties(Play(b, ms).board) == Empties(b) - |ms|
    decreases ms
  {
    if ms != [] {
      var c := Apply(b, ms[0]).board;
      ApplyAlternates(b, ms[0]);
      PlayAlternates(c, ms[1..]);
    }
  }

  /** The initial state holds no mark. */
  lemma InitialCounts()
    ensures Count(InitialState(), X) == 0 && Count(InitialState(), O) == 0
    ensures Empties(InitialState()) == 9
  {
    var b := InitialState();
    CountSplit(b, X);
    CountSplit(b, O);
    CountSplit(b, Empty);
    forall i, c | 0 <= i < 3
      ensures CountIn(b[i], c) == if c == Empty then 3 else 0
    {
      CountInBound(b[i], c);
    }
  }

  /** From the initial state, X moves after an even number of moves and O
      after an odd number, and 9 minus the number of moves played remain legal. */
  lemma PlayFromInitial(ms: seq<Move>)
    requires Play(InitialState(), ms).Moved?
    ensures NextPlayer(Play(InitialState(), ms).board) == if |ms| % 2 == 0 then X else O
    ensures |Moves(Play(InitialState(), ms).board)| == 9 - |ms|
  {
    InitialCounts();
    PlayAlternates(InitialState(), ms);
    MovesCard(Play(InitialState(), ms).board);
  }

  /** The initial state has X to move and nine legal moves. */
  lemma InitialStateFacts()
    ensures NextPlayer(InitialState()) == X
    ensures |Moves(InitialState())| == 9
    ensures Balanced(InitialState())
  {
    InitialCounts();
    MovesCard(InitialState());
  }

  // ---------------------------------------------------------------------
  // Lines and the winner

  /** The eight lines of three cells: three rows, three columns, two diagonals. */
  datatype Line = Row(r: int) | Col(c: int) | Diagonal | AntiDiagonal

  predicate ValidLine(l: Line)
  {
    match l
    case Row(r) => 0 <= r < 3
    case Col(c) => 0 <= c < 3
    case _ => true
  }

  /** The `k`-th cell of a line; the anti-diagonal runs from (0, 2) to (2, 0). */
  function At(l: Line, k: int): (m: Move)
    requires ValidLine(l) && 0 <= k < 3
    ensures InBounds(m)
  {
    match l
    case Row(r) => (r, k)
    case Col(c) => (k, c)
    case Diagonal => (k, k)
    case AntiDiagonal => (k, 2 - k)
  }

  /** The lines in the order they are scanned: rows, then columns, then the
      main diagonal, then the anti-diagonal. */
  function LineAt(k: int): (l: Line)
    requires 0 <= k < 8
    ensures ValidLine(l)
  {
    if k < 3 then Row(k) else if k < 6 then Col(k - 3) else if k == 6 then Diagonal else AntiDiagonal
  }

  /** Every cell of the line holds `p`. */
  predicate Owns(b: Board, l: Line, p: Player)
    requires ValidLine(l)
  {
    Get(b, At(l, 0)) == p && Get(b, At(l, 1)) == p && Get(b, At(l, 2)) == p
  }

  /** The first line, from the `k`-th on in scanning order, that one player
      owns names the winner; within a line X is tested before O. */
  function WinnerFrom(b: Board, k: int): Option<Player>
    requires 0 <= k <= 8
    decreases 8 - k
  {
    if k == 8 then None
    else if Owns(b, LineAt(k), X) then Option<Player>.Some(X)
    else if Owns(b, LineAt(k), O) then Option<Player>.Some(O)
    else WinnerFrom(b, k + 1)
  }

  function WinnerOf(b: Board): Option<Player>
  {
    WinnerFrom(b, 0)
  }

  /** Reference definition of a win, independent of the scanning order: some
      row, column or diagonal is entirely `p`. */
  ghost predicate ThreeInARow(b: Board, p: Player)
  {
    || (exists i | 0 <= i < 3 :: b[i][0] == p && b[i][1] == p && b[i][2] == p)
    || (exists j | 0 <= j < 3 :: b[0][j] == p && b[1][j] == p && b[2][j] == p)
    || (b[0][0] == p && b[1][1] == p && b[2][2] == p)
    || (b[0][2] == p && b[1][1] == p && b[2][0] == p)
  }

  /** Lines skipped because neither player owns them do not change the winner:
      the scan reaches the `k`-th line with the same answer. */
  lemma {:induction false} WinnerSkip(b: Board, k: int)
    requires 0 <= k <= 8
    requires forall t | 0 <= t < k :: !Owns(b, LineAt(t), X) && !Owns(b, LineAt(t), O)
    ensures WinnerOf(b) == WinnerFrom(b, k)
  {
    if k > 0 {
      WinnerSkip(b, k - 1);
    }
  }

  lemma {:induction false} WinnerFromSound(b: Board, k: int)
    requires 0 <= k <= 8
    ensures WinnerFrom(b, k).Some? ==>
              exists t | k <= t < 8 :: Owns(b, LineAt(t), WinnerFrom(b, k).value)
    ensures WinnerFrom(b, k).None? ==>
              forall t | k <= t < 8 :: !Owns(b, LineAt(t), X) && !Owns(b, LineAt(t), O)
    decreases 8 - k
  {
    if k < 8 {
      var w := WinnerFrom(b, k);
      if Owns(b, LineAt(k), X) {
        assert w == Some(X);
      } else if Owns(b, LineAt(k), O) {
        assert w == Some(O);
      } else {
        assert w == WinnerFrom(b, k + 1);
        WinnerFromSound(b, k + 1);
        if w.Some? {
          var t :| k + 1 <= t < 8 && Owns(b, LineAt(t), w.value);
        }
      }
    }
  }

  /** Owning the `t`-th scanned line is one of the cases of three in a row. */
  lemma LineOwnedThree(b: Board, p: Player, t: int)
    requires 0 <= t < 8 && Owns(b, LineAt(t), p)
    ensures ThreeInARow(b, p)
  {
    var l := LineAt(t);
    assert Get(b, At(l, 0)) == p && Get(b, At(l, 1)) == p && Get(b, At(l, 2)) == p;
    if t < 3 {
      assert b[t][0] == p && b[t][1] == p && b[t][2] == p;
    } else if t < 6 {
      assert b[0][t - 3] == p && b[1][t - 3] == p && b[2][t - 3] == p;
    }
  }

  /** Three in a row is owning one of the scanned lines. */
  lemma ThreeLineOwned(b: Board, p: Player) returns (t: int)
    requires ThreeInARow(b, p)
    ensures 0 <= t < 8 && Owns(b, LineAt(t), p)
  {
    if exists i | 0 <= i < 3 :: b[i][0] == p && b[i][1] == p && b[i][2] == p {
      var i :| 0 <= i < 3 && b[i][0] == p && b[i][1] == p && b[i][2] == p;
      t := i;
    } else if exists j | 0 <= j < 3 :: b[0][j] == p && b[1][j] == p && b[2][j] == p {
      var j :| 0 <= j < 3 && b[0][j] == p && b[1][j] == p && b[2][j] == p;
      t := 3 + j;
    } else if b[0][0] == p && b[1][1] == p && b[2][2] == p {
      t := 6;
    } else {
      t := 7;
    }
    assert forall k | 0 <= k < 3 :: Get(b, At(LineAt(t), k)) == p by {
      forall k | 0 <= k < 3 ensures Get(b, At(LineAt(t), k)) == p {
        assert k == 0 || k == 1 || k == 2;
      }
    }
  }

  /** Owning one of the eight scanned lines is the same as three in a row. */
  lemma SomeLineOwned(b: Board, p: Player)
    ensures (exists t | 0 <= t < 8 :: Owns(b, LineAt(t), p)) <==> ThreeInARow(b, p)
  {
    if exists t | 0 <= t < 8 :: Owns(b, LineAt(t), p) {
      var t :| 0 <= t < 8 && Owns(b, LineAt(t), p);
      LineOwnedThree(b, p, t);
    }
    if ThreeInARow(b, p) {
      var t := ThreeLineOwned(b, p);
    }
  }

  /** A reported winner has three in a row. */
  lemma WinnerSound(b: Board)
    ensures WinnerOf(b).Some? ==> ThreeInARow(b, WinnerOf(b).value)
  {
    WinnerFromSound(b, 0);
    if WinnerOf(b).Some? {
      SomeLineOwned(b, WinnerOf(b).value);
    }
  }

  /** There is no winner exactly when neither player has three in a row. */
  lemma WinnerNone(b: Board)
    ensures WinnerOf(b).None? <==> !ThreeInARow(b, X) && !ThreeInARow(b, O)
  {
    WinnerFromSound(b, 0);
    SomeLineOwned(b, X);
    SomeLineOwned(b, O);
    WinnerSound(b);
  }

  /** When only one player has three in a row, that player is the winner. */
  lemma WinnerUnique(b: Board, p: Player)
    requires ThreeInARow(b, p) && !ThreeInARow(b, Other(p))
    ensures WinnerOf(b) == Some(p)
  {
    WinnerNone(b);
    WinnerSound(b);
  }

  // ---------------------------------------------------------------------
  // End of the game and utility

  /** The game is over when somebody has won or no cell is empty. */
  predicate IsTerminal(b: Board)
  {
    WinnerOf(b).Some? || Full(b)
  }

  /** A board with three in a row is terminal even when cells remain empty;
      a non-terminal board has a legal move. */
  lemma TerminalCases(b: Board)
    ensures (ThreeInARow(b, X) || ThreeInARow(b, O)) ==> IsTerminal(b)
    ensures IsTerminal(b) <==> WinnerOf(b).Some? || Moves(b) == {}
    ensures !IsTerminal(b) ==> Moves(b) != {}
  {
    WinnerNone(b);
    FullNoMoves(b);
  }

  /** 1 when X has won, -1 when O has won, 0 otherwise. */
  function UtilityOf(b: Board): (u: int)
    ensures -1 <= u <= 1
    ensures u == 1 <==> WinnerOf(b) == Some(X)
    ensures u == -1 <==> WinnerOf(b) == Some(O)
    ensures u == 0 <==> WinnerOf(b).None?
  {
    match WinnerOf(b)
    case Some(w) => if w == X then 1 else -1
    case None => 0
  }

  /** Utility read through the reference definition of a win. */
  lemma UtilityLines(b: Board)
    ensures UtilityOf(b) == 1 ==> ThreeInARow(b, X)
    ensures UtilityOf(b) == -1 ==> ThreeInARow(b, O)
    ensures UtilityOf(b) == 0 <==> !ThreeInARow(b, X) && !ThreeInARow(b, O)
  {
    WinnerSound(b);
    WinnerNone(b);
  }
}

/** Minimax search. The value of a position is defined by full minimax over
    the legal moves; the search methods evaluate it recursively, stopping a
    scan early once the best possible value is reached, and pick the move
    that attains it for the player to move. */
module Search {
  import opened Board
  import opened Rules

  /** Out-of-range bounds that stand in for minus and plus infinity: every
      value of a position lies strictly between them. */
  const NegInf: int := -2
  const PosInf: int := 2

  function Max(a: int, b: int): int { if a >= b then a else b }

  function Min(a: int, b: int): int { if a <= b then a else b }

  /** The legal moves of row `i` from column `j` on, left to right. */
  function RowMoves(b: Board, i: int, j: int): (ms: seq<Move>)
    requires 0 <= i < 3 && 0 <= j <= 3
    ensures forall m :: m in ms <==> m.0 == i && j <= m.1 < 3 && b[i][m.1] == Empty
    decreases 3 - j
  {
    if j == 3 then [] else (if b[i][j] == Empty then [(i, j)] else []) + RowMoves(b, i, j + 1)
  }

  /** The legal moves in row-major order. */
  function MoveList(b: Board): (ms: seq<Move>)
    ensures forall m :: m in ms <==> m in Moves(b)
  {
    forall m ensures m in Moves(b) <==> InBounds(m) && Get(b, m) == Empty {
      MovesMembership(b, m);
    }
    RowMoves(b, 0, 0) + RowMoves(b, 1, 0) + RowMoves(b, 2, 0)
  }

  /** The game value when X is to move: the utility of a finished game,
      otherwise the best value for X over the legal moves. */
  function MaxValueOf(b: Board): int
    decreases Empties(b), 1, 0
  {
    if IsTerminal(b) then UtilityOf(b) else MaxOver(b, MoveList(b))
  }

  /** The game value when O is to move. */
  function MinValueOf(b: Board): int
    decreases Empties(b), 1, 0
  {
    if IsTerminal(b) then UtilityOf(b) else MinOver(b, MoveList(b))
  }

  /** The largest value O can be held to after X plays one of `ms`; NegInf
      when `ms` is empty. */
  function MaxOver(b: Board, ms: seq<Move>): int
    requires forall m :: m in ms ==> m in Moves(b)
    decreases Empties(b), 0, |ms|
  {
    if ms == [] then NegInf else Max(MinValueOf(Child(b, ms[0])), MaxOver(b, ms[1..]))
  }

  /** The smallest value X can be held to after O plays one of `ms`; PosInf
      when `ms` is empty. */
  function MinOver(b: Board, ms: seq<Move>): int
    requires forall m :: m in ms ==> m in Moves(b)
    decreases Empties(b), 0, |ms|
  {
    if ms == [] then PosInf else Min(MaxValueOf(Child(b, ms[0])), MinOver(b, ms[1..]))
  }

  lemma {:induction false} MaxOverChar(b: Board, ms: seq<Move>)
    requires forall m :: m in ms ==> m in Moves(b)
    ensures forall m :: m in ms ==> MinValueOf(Child(b, m)) <= MaxOver(b, ms)
    ensures ms != [] ==> exists m :: m in ms && MinValueOf(Child(b, m)) == MaxOver(b, ms)
    decreases Empties(b), 0, |ms|
  {
    if ms != [] {
      var rest := ms[1..];
      MaxOverChar(b, rest);
      var first := MinValueOf(Child(b, ms[0]));
      ValueRange(Child(b, ms[0]));
      assert MaxOver(b, ms) == Max(first, MaxOver(b, rest));
      forall m | m in ms ensures MinValueOf(Child(b, m)) <= MaxOver(b, ms) {
        if m != ms[0] {
          assert m in rest;
        }
      }
      if rest != [] && MaxOver(b, rest) > first {
        var m :| m in rest && MinValueOf(Child(b, m)) == MaxOver(b, rest);
        assert m in ms && MinValueOf(Child(b, m)) == MaxOver(b, ms);
      } else {
        assert ms[0] in ms && MinValueOf(Child(b, ms[0])) == MaxOver(b, ms);
      }
    }
  }

  lemma {:induction false} MinOverChar(b: Board, ms: seq<Move>)
    requires forall m :: m in ms ==> m in Moves(b)
    ensures forall m :: m in ms ==> MinOver(b, ms) <= MaxValueOf(Child(b, m))
    ensures ms != [] ==> exists m :: m in ms && MaxValueOf(Child(b, m)) == MinOver(b, ms)
    decreases Empties(b), 0, |ms|
  {
    if ms != [] {
      var rest := ms[1..];
      MinOverChar(b, rest);
      var first := MaxValueOf(Child(b, ms[0]));
      ValueRange(Child(b, ms[0]));
      assert MinOver(b, ms) == Min(first, MinOver(b, rest));
      forall m | m in ms ensures MinOver(b, ms) <= MaxValueOf(Child(b, m)) {
        if m != ms[0] {
          assert m in rest;
        }
      }
      if rest != [] && MinOver(b, rest) < first {
        var m :| m in rest && MaxValueOf(Child(b, m)) == MinOver(b, rest);
        assert m in ms && MaxValueOf(Child(b, m)) == MinOver(b, ms);
      } else {
        assert ms[0] in ms && MaxValueOf(Child(b, ms[0])) == MinOver(b, ms);
      }
    }
  }

  /** Every game value is a utility: -1, 0 or 1. */
  lemma {:induction false} ValueRange(b: Board)
    ensures -1 <= MaxValueOf(b) <= 1
    ensures -1 <= MinValueOf(b) <= 1
    decreases Empties(b), 1, 0
  {
    if !IsTerminal(b) {
      TerminalCases(b);
      var ms := MoveList(b);
      assert ms != [] by {
        var m :| m in Moves(b);
        assert m in ms;
      }
      forall m | m in ms ensures -1 <= MinValueOf(Child(b, m)) <= 1 && -1 <= MaxValueOf(Child(b, m)) <= 1 {
        ValueRange(Child(b, m));
      }
      MaxOverChar(b, ms);
      MinOverChar(b, ms);
    }
  }

  /** On a board that is not finished, MaxValueOf is the best value for X
      over the legal moves: no move does better and some move attains it. */
  lemma MaxValueChar(b: Board)
    requires !IsTerminal(b)
    ensures forall m :: m in Moves(b) ==> MinValueOf(Child(b, m)) <= MaxValueOf(b)
    ensures exists m :: m in Moves(b) && MinValueOf(Child(b, m)) == MaxValueOf(b)
  {
    TerminalCases(b);
    var ms := MoveList(b);
    var m :| m in Moves(b);
    assert m in ms;
    MaxOverChar(b, ms);
  }

  /** On a board that is not finished, MinValueOf is the best value for O
      over the legal moves. */
  lemma MinValueChar(b: Board)
    requires !IsTerminal(b)
    ensures forall m :: m in Moves(b) ==> MinValueOf(b) <= MaxValueOf(Child(b, m))
    ensures exists m :: m in Moves(b) && MaxValueOf(Child(b, m)) == MinValueOf(b)
  {
    TerminalCases(b);
    var ms := MoveList(b);
    var m :| m in Moves(b);
    assert m in ms;
    MinOverChar(b, ms);
  }

  /** The value of a position for the player to move. */
  function Optimal(b: Board): int
  {
    if NextPlayer(b) == X then MaxValueOf(b) else MinValueOf(b)
  }

  /** The value of the position a legal move leads to, as the search scores
      it: a move of X is scored by the value with O to move next, and the
      other way round. */
  function Score(b: Board, m: Move): int
    requires m in Moves(b)
  {
    if NextPlayer(b) == X then MinValueOf(Child(b, m)) else MaxValueOf(Child(b, m))
  }

  /** `s` is at least as good as `t` for player `p`: X maximizes, O minimizes. */
  predicate AtLeastAsGood(p: Player, s: int, t: int)
  {
    if p == X then s >= t else s <= t
  }

  /** A value that bounds every move of X and that some move attains is the
      value with X to move; in particular a move reaching 1 settles it. */
  lemma MaxValueAttained(b: Board, best: Move, v: int)
    requires !IsTerminal(b) && best in Moves(b) && MinValueOf(Child(b, best)) == v
    requires v == 1 || forall m :: m in Moves(b) ==> MinValueOf(Child(b, m)) <= v
    ensures v == MaxValueOf(b) && -1 <= v <= 1
  {
    MaxValueChar(b);
    ValueRange(b);
  }

  /** The same for O: a value that bounds every move of O from below and that
      some move attains, or a move reaching -1, is the value with O to move. */
  lemma MinValueAttained(b: Board, best: Move, v: int)
    requires !IsTerminal(b) && best in Moves(b) && MaxValueOf(Child(b, best)) == v
    requires v == -1 || forall m :: m in Moves(b) ==> v <= MaxValueOf(Child(b, m))
    ensures v == MinValueOf(b) && -1 <= v <= 1
  {
    MinValueChar(b);
    ValueRange(b);
  }

  /** When X, to move, has a move that completes three in a row, the value
      of the position is a win for X. */
  lemma WinningMoveForX(b: Board, m: Move)
    requires !IsTerminal(b) && m in Moves(b) && WinnerOf(Child(b, m)) == Some(X)
    ensures MaxValueOf(b) == 1
  {
    assert MinValueOf(Child(b, m)) == 1;
    MaxValueAttained(b, m, 1);
  }

  /** When O, to move, has a move that completes three in a row, the value
      of the position is a win for O. */
  lemma WinningMoveForO(b: Board, m: Move)
    requires !IsTerminal(b) && m in Moves(b) && WinnerOf(Child(b, m)) == Some(O)
    ensures MinValueOf(b) == -1
  {
    assert MaxValueOf(Child(b, m)) == -1;
    MinValueAttained(b, m, -1);
  }

  /** Evaluates a position with X to move: the utility of a finished game;
      otherwise the maximum over the legal moves, taken in whatever order
      the move set yields them, of the value with O to move, returning as
      soon as a move reaches 1, the best value there is. */
  method MaxValue(b: Board) returns (v: int)
    ensures v == MaxValueOf(b)
    ensures -1 <= v <= 1
    decreases Empties(b)
  {
    var t := Terminal(b);
    if t {
      v := Utility(b);
      return;
    }
    var actions := Actions(b);
    v := NegInf;
    var rest := actions;
    ghost var best: Move := (0, 0);
    while rest != {}
      invariant rest <= actions
      invariant NegInf <= v <= 0
      invariant v != NegInf ==> best in actions && best !in rest && MinValueOf(Child(b, best)) == v
      invariant forall m :: m in actions && m !in rest ==> MinValueOf(Child(b, m)) <= v
      decreases rest
    {
      var m :| m in rest;
      rest := rest - {m};
      var r := Result(b, m);
      assert r.board == Child(b, m);
      var s := MinValue(r.board);
      if Max(v, s) != v {
        best := m;
      }
      v := Max(v, s);
      if v == 1 {
        MaxValueAttained(b, m, v);
        return 1;
      }
    }
    TerminalCases(b);
    var m :| m in actions;
    ValueRange(Child(b, m));
    MaxValueAttained(b, best, v);
  }

  /** Evaluates a position with O to move, symmetrically: the minimum over
      the legal moves of the value with X to move, returning as soon as a
      move reaches -1. */
  method MinValue(b: Board) returns (v: int)
    ensures v == MinValueOf(b)
    ensures -1 <= v <= 1
    decreases Empties(b)
  {
    var t := Terminal(b);
    if t {
      v := Utility(b);
      return;
    }
    var actions := Actions(b);
    v := PosInf;
    var rest := actions;
    ghost var best: Move := (0, 0);
    while rest != {}
      invariant rest <= actions
      invariant 0 <= v <= PosInf
      invariant v != PosInf ==> best in actions && best !in rest && MaxValueOf(Child(b, best)) == v
      invariant forall m :: m in actions && m !in rest ==> v <= MaxValueOf(Child(b, m))
      decreases rest
    {
      var m :| m in rest;
      rest := rest - {m};
      var r := Result(b, m);
      assert r.board == Child(b, m);
      var s := MaxValue(r.board);
      if Min(v, s) != v {
        best := m;
      }
      v := Min(v, s);
      if v == -1 {
        MinValueAttained(b, m, v);
        return -1;
      }
    }
    TerminalCases(b);
    var m :| m in actions;
    ValueRange(Child(b, m));
    MinValueAttained(b, best, v);
  }


  /** `s` is strictly better than `t` for player `p`. */
  predicate Better(p: Player, s: int, t: int)
  {
    if p == X then s > t else s < t
  }

  /** `order` lists the moves of `done`, each exactly once. */
  ghost predicate Enumerates(order: seq<Move>, done: set<Move>)
  {
    && (forall i, j :: 0 <= i < j < |order| ==> order[i] != order[j])
    && (forall m :: m in order <==> m in done)
  }

  lemma EnumeratesStep(order: seq<Move>, done: set<Move>, m: Move)
    requires Enumerates(order, done) && m !in done
    ensures Enumerates(order + [m], done + {m})
  {
  }

  /** `scores[t]` is the score of the legal move `order[t]`. */
  ghost predicate Scored(b: Board, order: seq<Move>, scores: seq<int>)
  {
    && |scores| == |order|
    && (forall t :: 0 <= t < |order| ==> order[t] in Moves(b))
    && (forall t :: 0 <= t < |order| ==> scores[t] == Score(b, order[t]))
  }

  lemma ScoredStep(b: Board, order: seq<Move>, scores: seq<int>, m: Move, s: int)
    requires Scored(b, order, scores) && m in Moves(b) && s == Score(b, m)
    ensures Scored(b, order + [m], scores + [s])
  {
  }

  /** Position `k` holds the first score that no score of `scores` beats
      for player `p`, and that score is `best`. */
  ghost predicate FirstBest(p: Player, scores: seq<int>, k: int, best: int)
  {
    && 0 <= k < |scores| && scores[k] == best
    && (forall t :: 0 <= t < k ==> Better(p, best, scores[t]))
    && (forall t :: 0 <= t < |scores| ==> AtLeastAsGood(p, best, scores[t]))
  }

  /** Keeping a new score only when it is strictly better keeps the first best. */
  lemma FirstBestStep(p: Player, scores: seq<int>, k: int, best: int, s: int)
    requires FirstBest(p, scores, k, best)
    ensures Better(p, s, best) ==> FirstBest(p, scores + [s], |scores|, s)
    ensures !Better(p, s, best) ==> FirstBest(p, scores + [s], k, best)
  {
  }

  /** An optimal move for the player to move: it is legal, it attains the
      value of the position for that player, and no move scores better. */
  predicate OptimalMove(b: Board, move: Move)
  {
    && move in Moves(b)
    && Score(b, move) == Optimal(b)
    && (forall m :: m in Moves(b) ==> AtLeastAsGood(NextPlayer(b), Score(b, move), Score(b, m)))
  }

  /** The tie-break: `order` enumerates the legal moves, and `move` is the
      first of them that attains the value of the position. */
  ghost predicate FirstOptimal(b: Board, move: Move, order: seq<Move>)
  {
    && Enumerates(order, Moves(b))
    && (exists k :: 0 <= k < |order| && order[k] == move &&
                    forall t :: 0 <= t < k ==> order[t] in Moves(b) && Score(b, order[t]) != Optimal(b))
  }

  /** From the bookkeeping of a finished scan to the promise of the choice. */
  lemma ChosenFromScan(b: Board, order: seq<Move>, scores: seq<int>, k: int, best: int)
    requires !IsTerminal(b)
    requires Enumerates(order, Moves(b)) && Scored(b, order, scores)
    requires FirstBest(NextPlayer(b), scores, k, best)
    ensures OptimalMove(b, order[k]) && FirstOptimal(b, order[k], order)
  {
    var p := NextPlayer(b);
    forall m | m in Moves(b) ensures AtLeastAsGood(p, best, Score(b, m)) {
      var t :| 0 <= t < |order| && order[t] == m;
    }
    if p == X {
      MaxValueAttained(b, order[k], best);
    } else {
      MinValueAttained(b, order[k], best);
    }
  }

  /** The state of a scan for player `p` over the legal moves `actions`:
      `rest` is still to be taken, `order` and `scores` record the moves taken
      and their scores, and the kept move is the first of them with the best
      score (none, with the sentinel score, before any move is taken). */
  ghost predicate Scan(b: Board, p: Player, actions: set<Move>, rest: set<Move>, order: seq<Move>,
                       scores: seq<int>, bestMove: Option<Move>, bestScore: int, bestIndex: int)
  {
    && actions == Moves(b)
    && rest <= actions
    && Enumerates(order, actions - rest)
    && Scored(b, order, scores)
    && (bestMove.None? <==> order == [])
    && (bestMove.None? ==> bestScore == if p == X then NegInf else PosInf)
    && (bestMove.Some? ==> FirstBest(p, scores, bestIndex, bestScore) && order[bestIndex] == bestMove.value)
  }

  /** Taking one more move and keeping it only when its score is strictly
      better preserves the scan state. */
  lemma ScanStep(b: Board, p: Player, actions: set<Move>, rest: set<Move>, order: seq<Move>,
                 scores: seq<int>, bestMove: Option<Move>, bestScore: int, bestIndex: int,
                 action: Move, score: int)
    requires Scan(b, p, actions, rest, order, scores, bestMove, bestScore, bestIndex)
    requires action in rest && score == Score(b, action)
    ensures var better := Better(p, score, bestScore);
            Scan(b, p, actions, rest - {action}, order + [action], scores + [score],
                 if better then Some(action) else bestMove,
                 if better then score else bestScore,
                 if better then |order| else bestIndex)
  {
    ValueRange(Child(b, action));
    EnumeratesStep(order, actions - rest, action);
    assert (actions - rest) + {action} == actions - (rest - {action});
    ScoredStep(b, order, scores, action, score);
    if bestMove.Some? {
      FirstBestStep(p, scores, bestIndex, bestScore, score);
    }
  }

  /** A finished scan of an unfinished board for the player to move has kept
      a move, and that move is the chosen one. */
  lemma ScanDone(b: Board, p: Player, actions: set<Move>, order: seq<Move>,
                 scores: seq<int>, bestMove: Option<Move>, bestScore: int, bestIndex: int)
    requires !IsTerminal(b) && NextPlayer(b) == p
    requires Scan(b, p, actions, {}, order, scores, bestMove, bestScore, bestIndex)
    ensures bestMove.Some? && OptimalMove(b, bestMove.value) && FirstOptimal(b, bestMove.value, order)
  {
    TerminalCases(b);
    assert actions - {} == Moves(b);
    var m :| m in Moves(b);
    assert m in order;
    ChosenFromScan(b, order, scores, bestIndex, bestScore);
  }

  /** Chooses a move for X on a board that is not finished: every legal
      move, taken in whatever order the move set yields them, is scored by
      MinValueOf of the board it leads to, and a move replaces the kept one only
      when its score is strictly better. `order` records the order in which
      the moves were taken. */
  method BestMoveForX(b: Board) returns (move: Move, ghost order: seq<Move>)
    requires !IsTerminal(b) && NextPlayer(b) == X
    ensures OptimalMove(b, move)
    ensures FirstOptimal(b, move, order)
  {
    var actions := Actions(b);
    var bestScore := NegInf;
    var bestMove: Option<Move> := None;
    var rest := actions;
    ghost var bestIndex := 0;
    ghost var scores: seq<int> := [];
    order := [];
    while rest != {}
      invariant Scan(b, X, actions, rest, order, scores, bestMove, bestScore, bestIndex)
      decreases rest
    {
      var action :| action in rest;
      var r := Result(b, action);
      var score := MinValue(r.board);
      ScanStep(b, X, actions, rest, order, scores, bestMove, bestScore, bestIndex, action, score);
      rest := rest - {action};
      order, scores := order + [action], scores + [score];
      if score > bestScore {
        bestScore := score;
        bestMove := Some(action);
        bestIndex := |order| - 1;
      }
    }
    ScanDone(b, X, actions, order, scores, bestMove, bestScore, bestIndex);
    move := bestMove.value;
  }

  /** Chooses a move for O on a board that is not finished: every legal
      move, taken in whatever order the move set yields them, is scored by
      MaxValueOf of the board it leads to, and a move replaces the kept one only
      when its score is strictly better. `order` records the order in which
      the moves were taken. */
  method BestMoveForO(b: Board) returns (move: Move, ghost order: seq<Move>)
    requires !IsTerminal(b) && NextPlayer(b) == O
    ensures OptimalMove(b, move)
    ensures FirstOptimal(b, move, order)
  {
    var actions := Actions(b);
    var bestScore := PosInf;
    var bestMove: Option<Move> := None;
    var rest := actions;
    ghost var bestIndex := 0;
    ghost var scores: seq<int> := [];
    order := [];
    while rest != {}
      invariant Scan(b, O, actions, rest, order, scores, bestMove, bestScore, bestIndex)
      decreases rest
    {
      var action :| action in rest;
      var r := Result(b, action);
      var score := MaxValue(r.board);
      ScanStep(b, O, actions, rest, order, scores, bestMove, bestScore, bestIndex, action, score);
      rest := rest - {action};
      order, scores := order + [action], scores + [score];
      if score < bestScore {
        bestScore := score;
        bestMove := Some(action);
        bestIndex := |order| - 1;
      }
    }
    ScanDone(b, O, actions, order, scores, bestMove, bestScore, bestIndex);
    move := bestMove.value;
  }

  /** The move the search recommends: none on a finished board; otherwise a
      legal move whose resulting value is the value of the position for the
      player to move (the maximum for X, the minimum for O), namely the
      first move, in the order the moves were taken, that reaches it. */
  method Minimax(b: Board) returns (move: Option<Move>, ghost order: seq<Move>)
    ensures move.None? <==> IsTerminal(b)
    ensures move.Some? ==> OptimalMove(b, move.value)
    ensures move.Some? ==> FirstOptimal(b, move.value, order)
  {
    order := [];
    var t := Terminal(b);
    if t {
      return None, order;
    }
    var p := Rules.Player(b);
    var m;
    if p == X {
      m, order := BestMoveForX(b);
    } else {
      m, order := BestMoveForO(b);
    }
    move := Some(m);
  }
}

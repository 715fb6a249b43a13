/**
 The turn/history state machine of the `Game` component.

 The state is the list of board snapshots played so far and the index of the
 one on display. Each of the three handlers -- a square click, a history-button
 click and the restart button -- is one atomic state-to-state function. Whose
 turn it is is never stored: it is the parity of that index.
 */
module GameState {
  import opened WinEvaluator

  /** `history` (the boards, oldest first) and `currentMove` (the one shown). */
  datatype Game = Game(history: seq<Board>, currentMove: nat)

  /** `currentMove` names an existing snapshot, so there is a current board. */
  predicate InRange(g: Game) {
    g.currentMove < |g.history|
  }

  /** `currentSquares`: the board `currentMove` designates. */
  function CurrentSquares(g: Game): Board
    requires InRange(g)
  {
    g.history[g.currentMove]
  }

  /** The mark placed from snapshot `move` (`xIsNext`): `X` on even moves, `O` on odd ones. */
  function ToMove(move: nat): Player {
    if move % 2 == 0 then X else O
  }

  /** A click on square `i` is accepted: the square is empty and nobody has won. */
  predicate IsLegal(g: Game, i: Square)
    requires InRange(g)
  {
    CurrentSquares(g)[i] == Empty && CalculateWinner(CurrentSquares(g)).None?
  }

  /** The state the game opens with, and the one `restart` returns to. */
  function Start(): Game {
    Game([EmptyBoard], 0)
  }

  /** `X` opens the game and the turn passes to the other player with every move. */
  lemma TurnsAlternate(move: nat)
    ensures ToMove(0) == X
    ensures ToMove(move + 1) == ToMove(move).Other()
    ensures ToMove(move + 2) == ToMove(move)
  {
  }

  /**
   `handleClick(i)`. An illegal click changes nothing. A legal one keeps the
   snapshots up to the current one, drops the later ones, appends a copy of the
   current board with square `i` set to the mark whose turn it is, and points
   at the appended board.
   */
  function HandleClick(g: Game, i: Square): (g': Game)
    requires InRange(g)
    ensures InRange(g')
    ensures !IsLegal(g, i) ==> g' == g
    ensures IsLegal(g, i) ==>
      && |g'.history| == g.currentMove + 2
      && g'.currentMove == |g'.history| - 1
      && (forall k :: 0 <= k <= g.currentMove ==> g'.history[k] == g.history[k])
      && CurrentSquares(g')[i] == Mark(ToMove(g.currentMove))
      && (forall j: Square :: j != i ==> CurrentSquares(g')[j] == CurrentSquares(g)[j])
  {
    if !IsLegal(g, i) then
      g
    else
      var nextSquares := CurrentSquares(g)[i := Mark(ToMove(g.currentMove))];
      var nextHistory := g.history[..g.currentMove + 1] + [nextSquares];
      Game(nextHistory, |nextHistory| - 1)
  }

  /** `restart()`: back to the single empty board, whatever the state was. */
  function Restart(g: Game): (g': Game)
    ensures |g'.history| == 1 && g'.history[0] == EmptyBoard && g'.currentMove == 0
  {
    Start()
  }

  /** `jumpTo(move)`: only `currentMove` changes. The buttons exist only for existing snapshots. */
  function JumpTo(g: Game, move: nat): (g': Game)
    requires move < |g.history|
    ensures InRange(g')
    ensures g'.history == g.history && g'.currentMove == move
    ensures CurrentSquares(g') == g.history[move]
  {
    g.(currentMove := move)
  }

  /** `after` is `before` with one empty square marked by the player to move at snapshot `n`, and `before` had no winner. */
  predicate IsMove(before: Board, after: Board, n: nat) {
    && CalculateWinner(before).None?
    && exists i: Square :: before[i] == Empty && after == before[i := Mark(ToMove(n))]
  }

  /**
   The invariant of every reachable state: the history is non-empty, starts
   at the empty board, `currentMove` is in range, and each snapshot is its
   predecessor plus one legal move.
   */
  predicate Valid(g: Game) {
    && 0 < |g.history|
    && g.currentMove < |g.history|
    && g.history[0] == EmptyBoard
    && forall k :: 0 <= k < |g.history| - 1 ==> IsMove(g.history[k], g.history[k + 1], k)
  }

  /** The opening state satisfies the invariant. */
  lemma StartValid()
    ensures Valid(Start())
  {
  }

  /** A click, legal or not, preserves the invariant. */
  lemma HandleClickPreservesValid(g: Game, i: Square)
    requires Valid(g)
    ensures Valid(HandleClick(g, i))
  {
    if IsLegal(g, i) {
      var g' := HandleClick(g, i);
      var n := g.currentMove;
      assert g'.history[n + 1] == g.history[n][i := Mark(ToMove(n))];
      assert IsMove(g'.history[n], g'.history[n + 1], n);
    }
  }

  /** The guard decides exactly whether a click changes the state: a legal click always changes it, an illegal one never does. */
  lemma LegalIffClickChanges(g: Game, i: Square)
    requires InRange(g)
    ensures IsLegal(g, i) <==> HandleClick(g, i) != g
  {
    if IsLegal(g, i) {
      assert HandleClick(g, i).currentMove == g.currentMove + 1;
    }
  }

  /** Restart preserves the invariant (it establishes it from any state). */
  lemma RestartPreservesValid(g: Game)
    ensures Valid(Restart(g))
  {
  }

  /** A jump to an existing snapshot preserves the invariant. */
  lemma JumpToPreservesValid(g: Game, move: nat)
    requires Valid(g) && move < |g.history|
    ensures Valid(JumpTo(g, move))
  {
  }

  /**
   Snapshot `k` of a valid history holds exactly `k` marks: `(k + 1) / 2`
   crosses and `k / 2` noughts.
   */
  lemma {:induction false} SnapshotCounts(g: Game, k: nat)
    requires Valid(g) && k < |g.history|
    ensures Count(g.history[k], Empty) == 9 - k
    ensures Count(g.history[k], Mark(X)) == (k + 1) / 2
    ensures Count(g.history[k], Mark(O)) == k / 2
  {
    if k == 0 {
      EmptyBoardCounts();
    } else {
      SnapshotCounts(g, k - 1);
      var before := g.history[k - 1];
      assert IsMove(before, g.history[k], k - 1);
      var i: Square :| before[i] == Empty && g.history[k] == before[i := Mark(ToMove(k - 1))];
      PlaceCounts(before, i, ToMove(k - 1));
    }
  }

  /** Consecutive snapshots of a valid history differ in exactly one square, which went from empty to a mark. */
  lemma SnapshotsDifferInOneSquare(g: Game, k: nat)
    requires Valid(g) && 0 < k < |g.history|
    ensures exists i: Square ::
      && g.history[k - 1][i] == Empty
      && g.history[k][i] != Empty
      && forall j: Square :: j != i ==> g.history[k][j] == g.history[k - 1][j]
  {
    var before := g.history[k - 1];
    assert IsMove(before, g.history[k], k - 1);
    var i: Square :| before[i] == Empty && g.history[k] == before[i := Mark(ToMove(k - 1))];
    assert g.history[k][i] != Empty;
  }

  /** A valid history has at most ten snapshots: nine moves fill the board. */
  lemma HistoryBounded(g: Game)
    requires Valid(g)
    ensures |g.history| <= 10
  {
    SnapshotCounts(g, |g.history| - 1);
  }

  /**
   In a valid history only the player who made the last move can own a line,
   so no snapshot holds lines for both players.
   */
  lemma OnlyLastMoverHasLine(g: Game, k: nat, q: Player)
    requires Valid(g) && k < |g.history|
    requires HasLine(g.history[k], q)
    ensures 0 < k && q == ToMove(k - 1)
  {
    if k == 0 {
      EmptyBoardHasNoWinner();
    } else {
      var before := g.history[k - 1];
      assert IsMove(before, g.history[k], k - 1);
      var i: Square :| before[i] == Empty && g.history[k] == before[i := Mark(ToMove(k - 1))];
      var j :| 0 <= j < |Lines| && CompletedBy(g.history[k], Lines[j], q);
      NewLineThroughMove(before, i, ToMove(k - 1), Lines[j], q);
    }
  }

  /**
   On every snapshot of a valid history the evaluator's answer is exact:
   it returns `p` iff `p` has three in a row.
   */
  lemma WinnerExactOnValidHistory(g: Game, k: nat, p: Player)
    requires Valid(g) && k < |g.history|
    ensures CalculateWinner(g.history[k]) == Some(p) <==> HasLine(g.history[k], p)
  {
    if HasLine(g.history[k], X) && HasLine(g.history[k], O) {
      OnlyLastMoverHasLine(g, k, X);
      OnlyLastMoverHasLine(g, k, O);
    }
    WinnerIffLine(g.history[k], p);
  }

  /** The move number the status line reports (`Next player`) agrees with the marks on the board. */
  lemma TurnMatchesBoard(g: Game)
    requires Valid(g)
    ensures ToMove(g.currentMove) == X <==> Count(CurrentSquares(g), Mark(X)) == Count(CurrentSquares(g), Mark(O))
    ensures ToMove(g.currentMove) == O <==> Count(CurrentSquares(g), Mark(X)) == Count(CurrentSquares(g), Mark(O)) + 1
  {
    SnapshotCounts(g, g.currentMove);
  }

  /**
   Branch-on-edit: after jumping to snapshot `k`, a legal click keeps
   snapshots `0..k`, discards the rest, and appends one board.
   */
  lemma JumpThenClickTruncates(g: Game, k: nat, i: Square)
    requires k < |g.history|
    requires IsLegal(JumpTo(g, k), i)
    ensures |HandleClick(JumpTo(g, k), i).history| == k + 2
    ensures HandleClick(JumpTo(g, k), i).history[..k + 1] == g.history[..k + 1]
    ensures HandleClick(JumpTo(g, k), i).currentMove == k + 1
  {
    var g' := HandleClick(JumpTo(g, k), i);
    assert forall m :: 0 <= m <= k ==> g'.history[m] == g.history[m];
  }

  /** Jumping back one step after a legal click shows the board the click was made on (undo). */
  lemma ClickThenJumpBackUndoes(g: Game, i: Square)
    requires InRange(g) && IsLegal(g, i)
    ensures CurrentSquares(JumpTo(HandleClick(g, i), g.currentMove)) == CurrentSquares(g)
  {
  }
}

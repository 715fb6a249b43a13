/**
 The status line shown above the board: the winner if there is one, else a
 draw ("Cat's game") when every square is taken, else whose turn it is.
 */
module GameStatus {
  import opened WinEvaluator
  import opened GameState

  /** What the status line announces; the display text itself is not modelled. */
  datatype Status = Winner(player: Player) | Draw | Next(player: Player)

  /**
   The status of the displayed board. It announces a next player exactly when
   some click would be accepted, and that player is the one whose mark the
   click would place.
   */
  function StatusOf(g: Game): (s: Status)
    requires InRange(g)
    ensures s.Next? <==> exists i: Square :: IsLegal(g, i)
    ensures s.Next? ==> s.player == ToMove(g.currentMove)
    ensures s.Draw? ==> Full(CurrentSquares(g)) && CalculateWinner(CurrentSquares(g)).None?
    ensures s.Winner? <==> CalculateWinner(CurrentSquares(g)).Some?
    ensures s.Winner? ==> CalculateWinner(CurrentSquares(g)) == Some(s.player)
    ensures s.Winner? ==> HasLine(CurrentSquares(g), s.player)
    ensures Full(CurrentSquares(g)) && CalculateWinner(CurrentSquares(g)).None? ==> s.Draw?
  {
    var b := CurrentSquares(g);
    var winner := CalculateWinner(b);
    if winner.Some? then Winner(winner.value)
    else if Full(b) then Draw
    else
      assert exists i: Square :: IsLegal(g, i) by {
        var i: Square :| b[i] == Empty;
        assert IsLegal(g, i);
      }
      Next(ToMove(g.currentMove))
  }

  /** The opening state shows the empty board and announces `X` as the next player. */
  lemma OpeningAnnouncesX()
    ensures InRange(Start()) && CurrentSquares(Start()) == EmptyBoard
    ensures StatusOf(Start()) == Next(X)
  {
    EmptyBoardHasNoWinner();
    assert IsLegal(Start(), 0);
  }

  /** Once the status is a win or a draw, every click is ignored. */
  lemma GameOverFreezes(g: Game, i: Square)
    requires InRange(g) && !StatusOf(g).Next?
    ensures HandleClick(g, i) == g
  {
  }

  /** A legal click places the mark of the player the status line names. */
  lemma ClickPlacesAnnouncedMark(g: Game, i: Square)
    requires InRange(g) && IsLegal(g, i)
    ensures StatusOf(g).Next?
    ensures CurrentSquares(HandleClick(g, i))[i] == Mark(StatusOf(g).player)
  {
  }

  /** In a reachable state, a win is announced only for the player who just moved, and not before move five. */
  lemma WinnerIsLastMover(g: Game)
    requires Valid(g) && StatusOf(g).Winner?
    ensures 5 <= g.currentMove
    ensures StatusOf(g).player == ToMove(g.currentMove - 1)
  {
    var p := StatusOf(g).player;
    OnlyLastMoverHasLine(g, g.currentMove, p);
    LineNeedsThreeMarks(CurrentSquares(g), p);
    SnapshotCounts(g, g.currentMove);
  }

  /** In a reachable state the status names `p` as winner exactly when `p` has three in a row. */
  lemma StatusWinnerIffLine(g: Game, p: Player)
    requires Valid(g)
    ensures StatusOf(g) == Winner(p) <==> HasLine(CurrentSquares(g), p)
  {
    WinnerExactOnValidHistory(g, g.currentMove, p);
  }

  /** In a reachable state, a draw is announced exactly when nine moves were made and nobody won. */
  lemma DrawIffNineMovesNoWinner(g: Game)
    requires Valid(g)
    ensures StatusOf(g).Draw? <==> g.currentMove == 9 && !StatusOf(g).Winner?
  {
    SnapshotCounts(g, g.currentMove);
    FullIffNoEmpty(CurrentSquares(g));
  }
}

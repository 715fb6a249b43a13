/**
 Games as sequences of square clicks: every state reached from the opening
 state satisfies the invariant, and two complete games end as the rules say.

 The concrete games take their click sequence as a parameter pinned by a
 `requires`, so that the solver replays them through `ReplayScript` instead
 of unfolding `Play` on literal arguments.
 */
module Scenarios {
  import opened WinEvaluator
  import opened GameState
  import opened GameStatus

  /** The state after clicking the given squares in order. */
  function Play(g: Game, clicks: seq<Square>): (g': Game)
    requires InRange(g)
    ensures InRange(g')
    ensures |g'.history| <= |g.history| + |clicks|
    decreases |clicks|
  {
    if |clicks| == 0 then g else Play(HandleClick(g, clicks[0]), clicks[1..])
  }

  /** Any sequence of clicks from a valid state leads to a valid state. */
  lemma {:induction false} PlayPreservesValid(g: Game, clicks: seq<Square>)
    requires Valid(g)
    ensures Valid(Play(g, clicks))
    decreases |clicks|
  {
    if |clicks| > 0 {
      HandleClickPreservesValid(g, clicks[0]);
      PlayPreservesValid(HandleClick(g, clicks[0]), clicks[1..]);
    }
  }

  /** Every board reachable from the opening state by clicks. */
  lemma ReachableIsValid(clicks: seq<Square>)
    ensures Valid(Play(Start(), clicks))
  {
    StartValid();
    PlayPreservesValid(Start(), clicks);
  }

  /** No line of `b` is completed, spelled out line by line. */
  predicate NoCompletedLine(b: Board) {
    && !Completed(b, Lines[0]) && !Completed(b, Lines[1]) && !Completed(b, Lines[2])
    && !Completed(b, Lines[3]) && !Completed(b, Lines[4]) && !Completed(b, Lines[5])
    && !Completed(b, Lines[6]) && !Completed(b, Lines[7])
  }

  /** A board with no completed line has no winner. */
  lemma NoWinner(b: Board)
    requires NoCompletedLine(b)
    ensures CalculateWinner(b) == None
  {
  }

  /** Clicking `i` on `before`, snapshot `k`, is accepted and yields `after`. */
  predicate AcceptedStep(before: Board, i: Square, after: Board, k: nat) {
    && before[i] == Empty
    && NoCompletedLine(before)
    && after == before[i := Mark(ToMove(k))]
  }

  /** `h` is a game script: from the empty board, each click of `clicks` is accepted and yields the next board. */
  predicate Scripted(h: seq<Board>, clicks: seq<Square>) {
    && |h| == |clicks| + 1
    && h[0] == EmptyBoard
    && forall k :: 0 <= k < |clicks| ==> AcceptedStep(h[k], clicks[k], h[k + 1], k)
  }

  /** Replaying the clicks of a script from snapshot `k` ends with the whole scripted history, at its last board. */
  lemma {:induction false} ReplayScript(h: seq<Board>, clicks: seq<Square>, k: nat)
    requires Scripted(h, clicks) && k <= |clicks|
    ensures Play(Game(h[..k + 1], k), clicks[k..]) == Game(h, |clicks|)
    decreases |clicks| - k
  {
    if k == |clicks| {
      assert h[..k + 1] == h;
      assert clicks[k..] == [];
    } else {
      var g := Game(h[..k + 1], k);
      assert AcceptedStep(h[k], clicks[k], h[k + 1], k);
      NoWinner(h[k]);
      assert CurrentSquares(g) == h[k];
      assert h[..k + 1][..k + 1] + [h[k + 1]] == h[..k + 2];
      assert HandleClick(g, clicks[k]) == Game(h[..k + 2], k + 1);
      assert clicks[k..][1..] == clicks[k + 1..];
      ReplayScript(h, clicks, k + 1);
    }
  }

  // The top-row game: X at 0, O at 4, X at 1, O at 3, X at 2.
  const TopRowHistory: seq<Board> := [
    EmptyBoard,
    [Mark(X), Empty, Empty, Empty, Empty, Empty, Empty, Empty, Empty],
    [Mark(X), Empty, Empty, Empty, Mark(O), Empty, Empty, Empty, Empty],
    [Mark(X), Mark(X), Empty, Empty, Mark(O), Empty, Empty, Empty, Empty],
    [Mark(X), Mark(X), Empty, Mark(O), Mark(O), Empty, Empty, Empty, Empty],
    [Mark(X), Mark(X), Mark(X), Mark(O), Mark(O), Empty, Empty, Empty, Empty]
  ]

  /** Each click of the top-row game lands on an empty square of a board without a winner. */
  lemma TopRowSteps()
    ensures AcceptedStep(TopRowHistory[0], 0, TopRowHistory[1], 0)
    ensures AcceptedStep(TopRowHistory[1], 4, TopRowHistory[2], 1)
    ensures AcceptedStep(TopRowHistory[2], 1, TopRowHistory[3], 2)
    ensures AcceptedStep(TopRowHistory[3], 3, TopRowHistory[4], 3)
    ensures AcceptedStep(TopRowHistory[4], 2, TopRowHistory[5], 4)
  {
  }

  /** Playing the top-row game from the start yields exactly its six snapshots. */
  lemma TopRowMoves(clicks: seq<Square>)
    requires clicks == [0, 4, 1, 3, 2]
    ensures Play(Start(), clicks) == Game(TopRowHistory, 5)
  {
    TopRowSteps();
    assert Scripted(TopRowHistory, clicks);
    ReplayScript(TopRowHistory, clicks, 0);
    assert Start() == Game(TopRowHistory[..1], 0);
  }

  /**
   Squares 0, 4, 1, 3, 2: `X` completes the top row on its third move, the
   status names `X`, and a further click on square 5 is ignored.
   */
  lemma TopRowWinForX(clicks: seq<Square>)
    requires clicks == [0, 4, 1, 3, 2]
    ensures CompletedBy(CurrentSquares(Play(Start(), clicks)), Lines[0], X)
    ensures StatusOf(Play(Start(), clicks)) == Winner(X)
    ensures HandleClick(Play(Start(), clicks), 5) == Play(Start(), clicks)
  {
    TopRowMoves(clicks);
    var g := Game(TopRowHistory, 5);
    assert FirstCompleted(CurrentSquares(g), 0);
    GameOverFreezes(g, 5);
  }

  // The drawn game: squares 0, 1, 2, 4, 3, 5, 7, 6, 8 alternately.
  const DrawHistory: seq<Board> := [
    EmptyBoard,
    [Mark(X), Empty, Empty, Empty, Empty, Empty, Empty, Empty, Empty],
    [Mark(X), Mark(O), Empty, Empty, Empty, Empty, Empty, Empty, Empty],
    [Mark(X), Mark(O), Mark(X), Empty, Empty, Empty, Empty, Empty, Empty],
    [Mark(X), Mark(O), Mark(X), Empty, Mark(O), Empty, Empty, Empty, Empty],
    [Mark(X), Mark(O), Mark(X), Mark(X), Mark(O), Empty, Empty, Empty, Empty],
    [Mark(X), Mark(O), Mark(X), Mark(X), Mark(O), Mark(O), Empty, Empty, Empty],
    [Mark(X), Mark(O), Mark(X), Mark(X), Mark(O), Mark(O), Empty, Mark(X), Empty],
    [Mark(X), Mark(O), Mark(X), Mark(X), Mark(O), Mark(O), Mark(O), Mark(X), Empty],
    [Mark(X), Mark(O), Mark(X), Mark(X), Mark(O), Mark(O), Mark(O), Mark(X), Mark(X)]
  ]

  /** The first five clicks of the drawn game are accepted. */
  lemma DrawOpening()
    ensures AcceptedStep(DrawHistory[0], 0, DrawHistory[1], 0)
    ensures AcceptedStep(DrawHistory[1], 1, DrawHistory[2], 1)
    ensures AcceptedStep(DrawHistory[2], 2, DrawHistory[3], 2)
    ensures AcceptedStep(DrawHistory[3], 4, DrawHistory[4], 3)
    ensures AcceptedStep(DrawHistory[4], 3, DrawHistory[5], 4)
  {
  }

  /** The last four clicks of the drawn game are accepted. */
  lemma DrawEnding()
    ensures AcceptedStep(DrawHistory[5], 5, DrawHistory[6], 5)
    ensures AcceptedStep(DrawHistory[6], 7, DrawHistory[7], 6)
    ensures AcceptedStep(DrawHistory[7], 6, DrawHistory[8], 7)
    ensures AcceptedStep(DrawHistory[8], 8, DrawHistory[9], 8)
  {
  }

  /** The drawn game is a script of accepted clicks. */
  lemma DrawScript(clicks: seq<Square>)
    requires clicks == [0, 1, 2, 4, 3, 5, 7, 6, 8]
    ensures Scripted(DrawHistory, clicks)
  {
    DrawOpening();
    DrawEnding();
  }

  /** Playing the drawn game from the start yields exactly its ten snapshots. */
  lemma DrawMoves(clicks: seq<Square>)
    requires clicks == [0, 1, 2, 4, 3, 5, 7, 6, 8]
    ensures Play(Start(), clicks) == Game(DrawHistory, 9)
  {
    DrawScript(clicks);
    ReplayScript(DrawHistory, clicks, 0);
    assert Start() == Game(DrawHistory[..1], 0);
  }

  /**
   Squares 0, 1, 2, 4, 3, 5, 7, 6, 8: all nine squares are filled with no
   line for either player, and the status is a draw.
   */
  lemma CatsGame(clicks: seq<Square>)
    requires clicks == [0, 1, 2, 4, 3, 5, 7, 6, 8]
    ensures StatusOf(Play(Start(), clicks)) == Draw
  {
    DrawMoves(clicks);
    var g := Game(DrawHistory, 9);
    NoWinner(CurrentSquares(g));
  }
}

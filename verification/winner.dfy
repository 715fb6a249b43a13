/**
 The board of the tic-tac-toe game and its winner evaluator (`calculateWinner`).

 A board is nine cells in row-major order; a cell is empty (`null` in the
 application) or holds one of the two marks. The evaluator scans eight fixed
 index triples -- three rows, three columns, two diagonals, in that order --
 and reports the mark of the first triple whose three cells hold the same mark.
 */
module WinEvaluator {

  /** The two marks; `X` always moves first. */
  datatype Player = X | O {
    function Other(): Player {
      if this == X then O else X
    }
  }

  /** One square of the board: empty, or holding a mark. */
  datatype Cell = Empty | Mark(player: Player)

  /** The evaluator's answer: a winning mark, or none (`null`). */
  datatype Option<T> = None | Some(value: T)

  /** An index into a board, 0 to 8, row-major. */
  type Square = i: int | 0 <= i < 9

  /** A board snapshot: exactly nine cells. */
  type Board = b: seq<Cell> | |b| == 9
    witness [Empty, Empty, Empty, Empty, Empty, Empty, Empty, Empty, Empty]

  /** The board every game starts from (`Array(9).fill(null)`). */
  const EmptyBoard: Board := [Empty, Empty, Empty, Empty, Empty, Empty, Empty, Empty, Empty]

  /** A triple of squares that wins when all three hold the same mark. */
  datatype Line = Line(a: Square, b: Square, c: Square) {
    predicate Contains(i: Square) {
      i == a || i == b || i == c
    }
  }

  /** The eight lines in the order they are scanned: rows, columns, diagonals. */
  const Lines: seq<Line> := [
    Line(0, 1, 2),
    Line(3, 4, 5),
    Line(6, 7, 8),
    Line(0, 3, 6),
    Line(1, 4, 7),
    Line(2, 5, 8),
    Line(0, 4, 8),
    Line(2, 4, 6)
  ]

  /** The scan's test for one line: the first cell is marked and the other two equal it. */
  predicate Completed(b: Board, l: Line) {
    b[l.a] != Empty && b[l.a] == b[l.b] && b[l.a] == b[l.c]
  }

  /** All three cells of `l` hold `p`'s mark. */
  predicate CompletedBy(b: Board, l: Line, p: Player) {
    b[l.a] == Mark(p) && b[l.b] == Mark(p) && b[l.c] == Mark(p)
  }

  /** `p` owns at least one of the eight lines of `b` (the reference notion of "has three in a row"). */
  predicate HasLine(b: Board, p: Player) {
    exists j :: 0 <= j < |Lines| && CompletedBy(b, Lines[j], p)
  }

  /** Line `j` is completed and no line before it in scan order is. */
  predicate FirstCompleted(b: Board, j: int) {
    && 0 <= j < |Lines|
    && Completed(b, Lines[j])
    && forall j' :: 0 <= j' < j ==> !Completed(b, Lines[j'])
  }

  /** The scan loop from line `k` onwards: the mark of the first completed line at index >= k. */
  function ScanFrom(b: Board, k: nat): (r: Option<Player>)
    requires k <= |Lines|
    ensures r.None? <==> forall j :: k <= j < |Lines| ==> !Completed(b, Lines[j])
    ensures r.Some? ==> exists j :: k <= j < |Lines| && CompletedBy(b, Lines[j], r.value)
                                    && forall j' :: k <= j' < j ==> !Completed(b, Lines[j'])
    decreases |Lines| - k
  {
    if k == |Lines| then None
    else if Completed(b, Lines[k]) then Some(b[Lines[k].a].player)
    else ScanFrom(b, k + 1)
  }

  /**
   `calculateWinner`: none exactly when no line is completed; otherwise the mark
   that completes the first completed line in scan order.
   */
  function CalculateWinner(b: Board): (r: Option<Player>)
    ensures r.None? <==> forall j :: 0 <= j < |Lines| ==> !Completed(b, Lines[j])
    ensures r.None? <==> !HasLine(b, X) && !HasLine(b, O)
    ensures r.Some? ==> HasLine(b, r.value)
    ensures forall j, p :: FirstCompleted(b, j) && CompletedBy(b, Lines[j], p) ==> r == Some(p)
  {
    var r := ScanFrom(b, 0);
    NoCompletedLineIffNoLine(b);
    if r.Some? then
      var j :| 0 <= j < |Lines| && CompletedBy(b, Lines[j], r.value)
               && forall j' :: 0 <= j' < j ==> !Completed(b, Lines[j']);
      FirstCompletedUnique(b, j);
      r
    else
      r
  }

  /** No line is completed exactly when neither player has three in a row. */
  lemma NoCompletedLineIffNoLine(b: Board)
    ensures (forall j :: 0 <= j < |Lines| ==> !Completed(b, Lines[j])) <==> !HasLine(b, X) && !HasLine(b, O)
  {
    forall j, p | 0 <= j < |Lines| && CompletedBy(b, Lines[j], p)
      ensures Completed(b, Lines[j])
    {
    }
    forall j | 0 <= j < |Lines| && Completed(b, Lines[j])
      ensures HasLine(b, X) || HasLine(b, O)
    {
      var p := b[Lines[j].a].player;
      assert CompletedBy(b, Lines[j], p);
      if p == X {
        assert HasLine(b, X);
      } else {
        assert HasLine(b, O);
      }
    }
  }

  /** At most one line is the first completed one. */
  lemma FirstCompletedUnique(b: Board, j: int)
    requires FirstCompleted(b, j)
    ensures forall j' :: FirstCompleted(b, j') ==> j' == j
  {
  }

  /**
   When the board does not hold lines for both players, the evaluator names
   exactly the player who has a line: `CalculateWinner(b) == Some(p)` iff `p`
   has three in a row.
   */
  lemma WinnerIffLine(b: Board, p: Player)
    requires !(HasLine(b, X) && HasLine(b, O))
    ensures CalculateWinner(b) == Some(p) <==> HasLine(b, p)
  {
    var w := CalculateWinner(b);
    if HasLine(b, p) {
      var j :| 0 <= j < |Lines| && CompletedBy(b, Lines[j], p);
      assert Completed(b, Lines[j]);
      assert HasLine(b, w.value);
      assert w.value == p || w.value == p.Other();
    }
  }

  /** The empty board has no completed line, so the evaluator reports no winner. */
  lemma EmptyBoardHasNoWinner()
    ensures CalculateWinner(EmptyBoard) == None
    ensures !HasLine(EmptyBoard, X) && !HasLine(EmptyBoard, O)
  {
    var b := EmptyBoard;
    assert forall i: Square :: b[i] == Empty;
    assert forall j :: 0 <= j < |Lines| ==> !Completed(b, Lines[j]);
  }

  /** Squares of `b` holding `c`. */
  function CellsWith(b: Board, c: Cell): set<Square> {
    set i: Square | b[i] == c
  }

  /** The number of squares of `b` holding `c`. */
  function Count(b: Board, c: Cell): nat {
    |CellsWith(b, c)|
  }

  /** Every square holds a mark (`squares.every(Boolean)`). */
  predicate Full(b: Board) {
    forall i: Square :: b[i] != Empty
  }

  /** The empty board holds nine empty squares and no marks. */
  lemma EmptyBoardCounts()
    ensures Count(EmptyBoard, Empty) == 9
    ensures Count(EmptyBoard, Mark(X)) == 0 && Count(EmptyBoard, Mark(O)) == 0
  {
    var b := EmptyBoard;
    assert forall i: Square :: b[i] == Empty;
    var all: set<Square> := {0, 1, 2, 3, 4, 5, 6, 7, 8};
    assert |all| == 9;
    assert CellsWith(b, Empty) == all;
    assert CellsWith(b, Mark(X)) == {};
    assert CellsWith(b, Mark(O)) == {};
  }

  /** Marking an empty square moves exactly one square from the empty count to the mark's count. */
  lemma PlaceCounts(b: Board, i: Square, p: Player)
    requires b[i] == Empty
    ensures Count(b[i := Mark(p)], Empty) == Count(b, Empty) - 1
    ensures Count(b[i := Mark(p)], Mark(p)) == Count(b, Mark(p)) + 1
    ensures Count(b[i := Mark(p)], Mark(p.Other())) == Count(b, Mark(p.Other()))
  {
    var b' := b[i := Mark(p)];
    assert CellsWith(b', Empty) == CellsWith(b, Empty) - {i};
    assert CellsWith(b', Mark(p)) == CellsWith(b, Mark(p)) + {i};
    assert CellsWith(b', Mark(p.Other())) == CellsWith(b, Mark(p.Other()));
  }

  /** The board is full exactly when no square is empty. */
  lemma FullIffNoEmpty(b: Board)
    ensures Full(b) <==> Count(b, Empty) == 0
  {
    if !Full(b) {
      var i: Square :| b[i] == Empty;
      assert i in CellsWith(b, Empty);
    }
  }

  /** A player who owns a line has at least three marks on the board. */
  lemma LineNeedsThreeMarks(b: Board, p: Player)
    requires HasLine(b, p)
    ensures Count(b, Mark(p)) >= 3
  {
    var j :| 0 <= j < |Lines| && CompletedBy(b, Lines[j], p);
    var l := Lines[j];
    assert l.a != l.b && l.a != l.c && l.b != l.c;
    assert {l.a, l.b, l.c} <= CellsWith(b, Mark(p));
    assert |{l.a, l.b, l.c}| == 3;
    SubsetSize({l.a, l.b, l.c}, CellsWith(b, Mark(p)));
  }

  lemma SubsetSize(s: set<Square>, t: set<Square>)
    requires s <= t
    ensures |s| <= |t|
  {
    assert t == s + (t - s);
  }

  /**
   A line that is completed after marking square `i` but was not completed
   before passes through `i`, and is completed by the mark just placed.
   */
  lemma NewLineThroughMove(b: Board, i: Square, p: Player, l: Line, q: Player)
    requires b[i] == Empty
    requires CompletedBy(b[i := Mark(p)], l, q)
    requires !Completed(b, l)
    ensures l.Contains(i) && q == p
  {
  }
}

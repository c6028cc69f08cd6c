/** The `Board` component's game state: the nine squares and whose turn it is,
    the single transition `handleClick`, and the status line derived from them. */
module Game {
  import opened Squares
  import opened WinEvaluator

  /** The status line: "Winner: w" once the evaluator reports `w`, otherwise
      "Next player: X" or "Next player: O" according to the turn flag. There is
      no draw message. */
  function StatusText(winner: Option<Mark>, xIsNext: bool): (s: string)
    ensures |s| > 8
    ensures s[..8] == "Winner: " <==> winner.Some?
    ensures winner.Some? ==> s[8..] == MarkText(winner.value)
    ensures winner.None? ==> |s| > 13 && s[..13] == "Next player: " && s[13..] == MarkText(ActiveMark(xIsNext))
  {
    if winner.Some? then "Winner: " + MarkText(winner.value)
    else
      var s := "Next player: " + MarkText(ActiveMark(xIsNext));
      assert s[..8] != "Winner: " by { assert s[0] == 'N'; }
      s
  }

  /** The status line determines the winner and, while there is none, whose turn it is. */
  lemma StatusDetermines(w1: Option<Mark>, x1: bool, w2: Option<Mark>, x2: bool)
    requires StatusText(w1, x1) == StatusText(w2, x2)
    ensures w1 == w2
    ensures w1.None? ==> x1 == x2
  {
    var s := StatusText(w1, x1);
    if w1.Some? {
      assert MarkText(w1.value) == s[8..] == MarkText(w2.value);
    } else {
      assert MarkText(ActiveMark(x1)) == s[13..] == MarkText(ActiveMark(x2));
    }
  }

  /** What every state that play reaches from the initial one satisfies: 'X'
      has made as many moves as 'O' or one more, `xIsNext` holds exactly when
      the counts are equal, and a winner, if any, is the player who made the
      last move. Some boards satisfy it that play never reaches (both marks
      owning a line, for one). */
  predicate Consistent(b: seq<Cell>, xIsNext: bool)
  {
    && |b| == Size
    && var nx, no := Count(b, Some(X)), Count(b, Some(O));
    && (nx == no || nx == no + 1)
    && (xIsNext <==> nx == no)
    && (Winner(b).Some? ==> Winner(b) == Some(ActiveMark(!xIsNext)))
  }

  /** The initial state (empty board, 'X' to move) is consistent. */
  lemma InitialConsistent()
    ensures Consistent(InitialBoard(), true)
  {
    InitialBoardCounts();
    InitialBoardNoWinner();
  }

  /** A completed line that was not complete before a write into cell `i`
      passes through `i`, so it holds the mark just written. */
  lemma NewLineHoldsMove(b: seq<Cell>, i: nat, m: Mark, k: nat, w: Mark)
    requires |b| == Size && i < Size && k < |Lines|
    requires Owns(b[i := Some(m)], k, w) && !Owns(b, k, w)
    ensures w == m
  {
    LinesInRange();
  }

  /** An accepted click keeps the state consistent: the counts stay balanced
      with the flipped turn, and a line completed by the move belongs to the mover. */
  lemma MoveKeepsConsistent(b: seq<Cell>, xIsNext: bool, i: nat)
    requires Consistent(b, xIsNext) && i < Size
    requires Winner(b).None? && b[i].None?
    ensures Consistent(b[i := Some(ActiveMark(xIsNext))], !xIsNext)
  {
    var m := ActiveMark(xIsNext);
    var b' := b[i := Some(m)];
    CountUpdate(b, i, Some(m), Some(X));
    CountUpdate(b, i, Some(m), Some(O));
    WinnerSound(b');
    WinnerExists(b);
    if Winner(b').Some? {
      var w := Winner(b').value;
      var k :| 0 <= k < |Lines| && Owns(b', k, w);
      assert !HasLine(b, w);
      NewLineHoldsMove(b, i, m, k, w);
    }
  }

  /** A full board without a winner is a draw the status line does not report:
      'X' has made five moves and 'O' four, so it reads "Next player: O". */
  lemma FullBoardShowsNextPlayer(b: seq<Cell>, xIsNext: bool)
    requires Consistent(b, xIsNext) && Count(b, None) == 0 && Winner(b).None?
    ensures !xIsNext
    ensures StatusText(Winner(b), xIsNext) == "Next player: O"
  {
    CountPartition(b);
  }

  /** Once the game is won, the status line names the player who moved last. */
  lemma StatusNamesLastMover(b: seq<Cell>, xIsNext: bool)
    requires Consistent(b, xIsNext) && Winner(b).Some?
    ensures StatusText(Winner(b), xIsNext) == "Winner: " + MarkText(ActiveMark(!xIsNext))
  {
  }

  /** The `Board` component's state, as two fields updated together by each click. */
  class Board {
    var squares: array<Cell>
    var xIsNext: bool

    ghost predicate Valid()
      reads this, squares
    {
      squares.Length == Size && Consistent(squares[..], xIsNext)
    }

    /** A new game: the empty board, with 'X' to move. */
    constructor ()
      ensures Valid() && fresh(squares)
      ensures squares[..] == InitialBoard() && xIsNext
    {
      squares := new Cell[Size](_ => None);
      xIsNext := true;
      new;
      assert squares[..] == InitialBoard();
      InitialConsistent();
    }

    /** `handleClick(i)`: ignored when the game is already won or cell `i` is
        filled; otherwise a copy of the board gets the active mark in cell `i`,
        becomes the new board, and the turn passes to the other player. The
        board that was replaced is never written. */
    method HandleClick(i: nat)
      requires Valid() && i < Size
      modifies this
      ensures Valid()
      ensures old(squares)[..] == old(squares[..])
      ensures Winner(old(squares[..])).Some? || old(squares[i]).Some? ==>
                squares == old(squares) && xIsNext == old(xIsNext)
      ensures Winner(old(squares[..])).None? && old(squares[i]).None? ==>
                && fresh(squares)
                && squares[..] == old(squares[..])[i := Some(ActiveMark(old(xIsNext)))]
                && xIsNext == !old(xIsNext)
                && Count(squares[..], None) == Count(old(squares[..]), None) - 1
      ensures forall j :: 0 <= j < Size && old(squares[j]).Some? ==> squares[j] == old(squares[j])
    {
      var winner := CalculateWinner(squares);
      var current := squares;
      var newSquares := new Cell[Size](j requires 0 <= j < Size reads current => current[j]);
      assert newSquares[..] == current[..];
      if winner.Some? || newSquares[i].Some? {
        return;
      }
      newSquares[i] := Some(ActiveMark(xIsNext));
      MoveKeepsConsistent(squares[..], xIsNext, i);
      CountUpdate(squares[..], i, Some(ActiveMark(xIsNext)), None);
      squares := newSquares;
      xIsNext := !xIsNext;
    }
  }
}

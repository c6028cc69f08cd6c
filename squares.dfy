/** The squares of a tic-tac-toe board: each of the 9 cells is empty (`null` in
    the source) or holds the mark of one of the two players ('X' or 'O'). */
module Squares {

  datatype Option<+T> = None | Some(value: T)

  /** A player's mark, as written into a cell. */
  datatype Mark = X | O

  /** One cell of the board; `None` stands for the source's `null`. */
  type Cell = Option<Mark>

  /** Number of cells on the board. */
  const Size: nat := 9

  /** The board every game starts from: nine empty cells. */
  function InitialBoard(): (b: seq<Cell>)
    ensures |b| == Size
    ensures forall j :: 0 <= j < |b| ==> b[j].None?
  {
    seq(Size, _ => None)
  }

  /** The mark of the player whose turn it is: 'X' exactly when `xIsNext`
      holds, 'O' otherwise; flipping the flag hands the turn to the other mark. */
  function ActiveMark(xIsNext: bool): (m: Mark)
    ensures m == X <==> xIsNext
    ensures m == O <==> !xIsNext
  {
    if xIsNext then X else O
  }

  /** The mark as it is displayed: "X" or "O". */
  function MarkText(m: Mark): (s: string)
    ensures |s| == 1
    ensures m == X <==> s == "X"
    ensures m == O <==> s == "O"
  {
    match m
    case X => "X"
    case O => "O"
  }

  /** How many cells of `b` hold exactly `c`. */
  function Count(b: seq<Cell>, c: Cell): (n: nat)
    ensures n <= |b|
  {
    if b == [] then 0 else (if b[0] == c then 1 else 0) + Count(b[1..], c)
  }

  /** Writing `v` into cell `i` moves one occurrence from `b[i]`'s value to `v`. */
  lemma {:induction false} CountUpdate(b: seq<Cell>, i: nat, v: Cell, c: Cell)
    requires i < |b|
    ensures Count(b[i := v], c) == Count(b, c) - (if b[i] == c then 1 else 0) + (if v == c then 1 else 0)
  {
    if i == 0 {
      assert b[i := v][1..] == b[1..];
    } else {
      assert b[i := v][1..] == b[1..][i - 1 := v];
      CountUpdate(b[1..], i - 1, v, c);
    }
  }

  /** Every cell is empty, an 'X' or an 'O': the three counts add up to the board size. */
  lemma {:induction false} CountPartition(b: seq<Cell>)
    ensures Count(b, Some(X)) + Count(b, Some(O)) + Count(b, None) == |b|
  {
    if b != [] {
      CountPartition(b[1..]);
      match b[0]
      case None =>
      case Some(m) => assert m == X || m == O;
    }
  }

  /** A value that occurs in no cell has count zero. */
  lemma {:induction false} CountAbsent(b: seq<Cell>, c: Cell)
    requires forall j :: 0 <= j < |b| ==> b[j] != c
    ensures Count(b, c) == 0
  {
    if b != [] {
      CountAbsent(b[1..], c);
    }
  }

  /** The initial board has no marks and nine empty cells. */
  lemma InitialBoardCounts()
    ensures |InitialBoard()| == Size
    ensures Count(InitialBoard(), Some(X)) == 0 && Count(InitialBoard(), Some(O)) == 0
    ensures Count(InitialBoard(), None) == Size
  {
    CountAbsent(InitialBoard(), Some(X));
    CountAbsent(InitialBoard(), Some(O));
    CountPartition(InitialBoard());
  }
}

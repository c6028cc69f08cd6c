/** The win evaluator: `calculateWinner` scans eight fixed index triples (the
    three rows, the three columns, the two diagonals, in that order) and yields
    the mark of the first triple whose cells are equal and non-empty. */
module WinEvaluator {
  import opened Squares

  /** The eight winning triples, in the order the evaluator scans them. */
  const Lines: seq<(nat, nat, nat)> := [
    (0, 1, 2), (3, 4, 5), (6, 7, 8),
    (0, 3, 6), (1, 4, 7), (2, 5, 8),
    (0, 4, 8), (2, 4, 6)
  ]

  /** Every triple names cells of a 9-cell board. */
  lemma LinesInRange()
    ensures |Lines| == 8
    ensures forall k :: 0 <= k < |Lines| ==> Lines[k].0 < Size && Lines[k].1 < Size && Lines[k].2 < Size
  {
  }

  /** A filled cell holds one of the two marks. */
  lemma MarkCases(c: Cell)
    ensures c.Some? ==> c == Some(X) || c == Some(O)
  {
    match c
    case None =>
    case Some(m) => assert m == X || m == O;
  }

  /** The test the evaluator applies to triple `k`: the first cell is filled
      and the other two hold the same value. It holds exactly when one of the
      two marks fills all three cells. */
  predicate Complete(b: seq<Cell>, k: nat)
    requires |b| == Size && k < |Lines|
    ensures Complete(b, k) <==> Owns(b, k, X) || Owns(b, k, O)
  {
    LinesInRange();
    var (p, q, r) := Lines[k];
    MarkCases(b[p]);
    b[p].Some? && b[p] == b[q] && b[p] == b[r]
  }

  /** Reference notion of a win: all three cells of triple `k` hold `m`. */
  predicate Owns(b: seq<Cell>, k: nat, m: Mark)
    requires |b| == Size && k < |Lines|
  {
    LinesInRange();
    var (p, q, r) := Lines[k];
    b[p] == Some(m) && b[q] == Some(m) && b[r] == Some(m)
  }

  /** `m` occupies some whole row, column or diagonal of `b`. */
  predicate HasLine(b: seq<Cell>, m: Mark)
    requires |b| == Size
  {
    exists k :: 0 <= k < |Lines| && Owns(b, k, m)
  }

  /** Triple `j` is the first complete one at or after position `k` of the list. */
  predicate FirstComplete(b: seq<Cell>, k: nat, j: nat)
    requires |b| == Size
  {
    k <= j < |Lines| && Complete(b, j) && forall j' :: k <= j' < j ==> !Complete(b, j')
  }

  /** Skipping an incomplete triple keeps the first complete one after it. */
  lemma FirstCompleteSkip(b: seq<Cell>, k: nat)
    requires |b| == Size && k < |Lines| && !Complete(b, k)
    ensures forall j :: FirstComplete(b, k + 1, j) ==> FirstComplete(b, k, j)
  {
  }

  /** The result of scanning the triples from position `k` on: the mark of the
      first complete triple at or after `k`, and nothing exactly when there is none. */
  function WinnerFrom(b: seq<Cell>, k: nat): (r: Option<Mark>)
    requires |b| == Size && k <= |Lines|
    ensures r.None? <==> forall j :: k <= j < |Lines| ==> !Complete(b, j)
    ensures r.Some? ==> exists j: nat :: FirstComplete(b, k, j) && r == b[Lines[j].0]
    decreases |Lines| - k
  {
    if k == |Lines| then None
    else if Complete(b, k) then
      assert FirstComplete(b, k, k);
      b[Lines[k].0]
    else
      FirstCompleteSkip(b, k);
      WinnerFrom(b, k + 1)
  }

  /** What `calculateWinner` returns for board `b`: the mark in the first
      complete triple of the scan order, or nothing when no triple is complete. */
  function Winner(b: seq<Cell>): (r: Option<Mark>)
    requires |b| == Size
    ensures r.None? <==> forall j :: 0 <= j < |Lines| ==> !Complete(b, j)
    ensures r.Some? ==> exists j: nat :: FirstComplete(b, 0, j) && r == b[Lines[j].0]
  {
    WinnerFrom(b, 0)
  }

  /** A mark returned by the evaluator fills some row, column or diagonal. */
  lemma WinnerSound(b: seq<Cell>)
    requires |b| == Size
    ensures Winner(b).Some? ==> HasLine(b, Winner(b).value)
  {
    if Winner(b).Some? {
      var j: nat :| FirstComplete(b, 0, j) && Winner(b) == b[Lines[j].0];
      assert Owns(b, j, Winner(b).value);
    }
  }

  /** The evaluator finds a winner exactly when some mark fills a whole line;
      in particular it yields nothing when no line is filled. */
  lemma WinnerExists(b: seq<Cell>)
    requires |b| == Size
    ensures Winner(b).Some? <==> HasLine(b, X) || HasLine(b, O)
  {
    WinnerSound(b);
    if Winner(b).Some? {
      assert Winner(b).value == X || Winner(b).value == O;
    }
    if HasLine(b, X) || HasLine(b, O) {
      var m := if HasLine(b, X) then X else O;
      var k :| 0 <= k < |Lines| && Owns(b, k, m);
      assert Complete(b, k);
    }
  }

  /** When several triples are complete, the earliest in the scan order decides. */
  lemma WinnerEarliest(b: seq<Cell>, k: nat)
    requires |b| == Size && k < |Lines| && Complete(b, k)
    requires forall j :: 0 <= j < k ==> !Complete(b, j)
    ensures Winner(b) == b[Lines[k].0]
  {
    var j: nat :| FirstComplete(b, 0, j) && Winner(b) == b[Lines[j].0];
    assert FirstComplete(b, 0, j);
    assert j == k;
  }

  /** The empty starting board has no winner. */
  lemma InitialBoardNoWinner()
    ensures Winner(InitialBoard()) == None
  {
    LinesInRange();
  }

  /** A full top row of 'X' wins for 'X'. */
  lemma TopRowWins()
    ensures Winner([Some(X), Some(X), Some(X), None, None, None, None, None, None]) == Some(X)
  {
  }

  /** With the top row all 'X' and the middle row all 'O', the top row is
      scanned first, so 'X' is reported. */
  lemma FirstRowDecides()
    ensures Winner([Some(X), Some(X), Some(X), Some(O), Some(O), Some(O), None, None, None]) == Some(X)
  {
  }

  /** `calculateWinner`: the early-returning scan over the eight triples. */
  method CalculateWinner(squares: array<Cell>) returns (w: Option<Mark>)
    requires squares.Length == Size
    ensures w == Winner(squares[..])
    ensures w.Some? ==> HasLine(squares[..], w.value)
    ensures w.None? <==> !HasLine(squares[..], X) && !HasLine(squares[..], O)
  {
    ghost var board := squares[..];
    WinnerSound(board);
    WinnerExists(board);
    LinesInRange();
    var i := 0;
    while i < |Lines|
      invariant 0 <= i <= |Lines|
      invariant WinnerFrom(board, i) == Winner(board)
    {
      var (a, b, c) := Lines[i];
      if squares[a].Some? && squares[a] == squares[b] && squares[a] == squares[c] {
        return squares[a];
      }
      i := i + 1;
    }
    return None;
  }
}

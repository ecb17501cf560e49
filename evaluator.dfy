/**
  The material evaluator (`evaluate_board`): a weighted count of the pieces on
  the board, White's counted positive and Black's negative. Kings carry no
  weight, and there is no term for checkmate, draws, mobility or position.
 */
module Evaluator {
  import opened Chess

  /** The piece-value table in its iteration order: pawn, knight, bishop, rook, queen. */
  const PieceValues: seq<(PieceType, int)> :=
    [(Pawn, 1), (Knight, 3), (Bishop, 3), (Rook, 5), (Queen, 9)]

  /** How many pieces of each type and colour stand on the board. */
  type Counts = (PieceType, Color) -> nat

  function CountsAt(rules: Rules, h: History): Counts {
    (t: PieceType, c: Color) => rules.pieces(h, t, c)
  }

  /** White's count of a piece type minus Black's. */
  function Balance(count: Counts, t: PieceType): int {
    count(t, White) - count(t, Black)
  }

  /** The evaluation after the first `i` entries of the table have been added up. */
  function MaterialUpTo(count: Counts, i: nat): int
    requires i <= |PieceValues|
  {
    if i == 0 then 0
    else MaterialUpTo(count, i - 1) + PieceValues[i - 1].1 * Balance(count, PieceValues[i - 1].0)
  }

  /** The material score of a position with these piece counts. */
  function Material(count: Counts): int {
    MaterialUpTo(count, |PieceValues|)
  }

  /** The score the engine gives the position reached by history `h`. */
  function Evaluate(rules: Rules, h: History): int {
    Material(CountsAt(rules, h))
  }

  /** The same counts with the colours exchanged. */
  function Swapped(count: Counts): Counts {
    (t: PieceType, c: Color) => count(t, if c == White then Black else White)
  }

  /** `evaluate_board`: adds up the table entry by entry. */
  method EvaluateBoard(board: Board) returns (eval: int)
    ensures eval == Evaluate(board.rules, board.moveStack)
  {
    eval := 0;
    for i := 0 to |PieceValues|
      invariant eval == MaterialUpTo(CountsAt(board.rules, board.moveStack), i)
    {
      var (pieceType, value) := PieceValues[i];
      eval := eval + board.PieceCount(pieceType, White) * value;
      eval := eval - board.PieceCount(pieceType, Black) * value;
    }
  }

  /** The score is 1·pawns + 3·knights + 3·bishops + 5·rooks + 9·queens, each as White minus Black. */
  lemma MaterialWeights(count: Counts)
    ensures Material(count) ==
      Balance(count, Pawn) + 3 * Balance(count, Knight) + 3 * Balance(count, Bishop)
      + 5 * Balance(count, Rook) + 9 * Balance(count, Queen)
  {
    assert MaterialUpTo(count, 1) == Balance(count, Pawn);
    assert MaterialUpTo(count, 3) == MaterialUpTo(count, 2) + 3 * Balance(count, Bishop);
  }

  /** Kings contribute nothing: counts that differ only in kings score the same. */
  lemma KingsIgnored(count1: Counts, count2: Counts)
    requires forall t, c :: t != King ==> count1(t, c) == count2(t, c)
    ensures Material(count1) == Material(count2)
  {
    MaterialWeights(count1);
    MaterialWeights(count2);
  }

  lemma {:induction false} MaterialUpToSwapped(count: Counts, i: nat)
    requires i <= |PieceValues|
    ensures MaterialUpTo(Swapped(count), i) == -MaterialUpTo(count, i)
  {
    if i > 0 {
      MaterialUpToSwapped(count, i - 1);
    }
  }

  /** Exchanging the colours negates the score. */
  lemma MaterialAntisymmetric(count: Counts)
    ensures Material(Swapped(count)) == -Material(count)
  {
    MaterialUpToSwapped(count, |PieceValues|);
  }

  lemma {:induction false} MaterialUpToBalanced(count: Counts, i: nat)
    requires i <= |PieceValues|
    requires forall t :: count(t, White) == count(t, Black)
    ensures MaterialUpTo(count, i) == 0
  {
    if i > 0 {
      MaterialUpToBalanced(count, i - 1);
    }
  }

  /** Equal material for both sides, as in the initial position, scores 0. */
  lemma BalancedMaterialIsZero(count: Counts)
    requires forall t :: count(t, White) == count(t, Black)
    ensures Material(count) == 0
  {
    MaterialUpToBalanced(count, |PieceValues|);
  }
}

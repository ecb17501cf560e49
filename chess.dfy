/**
  The part of the chess-rules library that the engine uses: legal-move
  enumeration, the game-over test, piece counts, and a board whose moves are
  applied with `Push` and undone with `Pop`. The rules themselves are not
  modelled: a position is the sequence of moves played from the initial
  position, and `Rules` gives, for each such history, what the library would
  report about it.
 */
module Chess {
  import opened Wrappers

  datatype Color = White | Black

  datatype PieceType = Pawn | Knight | Bishop | Rook | Queen | King

  type Square = s: int | 0 <= s < 64

  /** A move as the library represents it: origin, destination and an optional promotion piece. */
  datatype Move = Move(from: Square, to: Square, promotion: Option<PieceType>)

  /** A position, identified with the moves played from the initial position. */
  type History = seq<Move>

  /** What the rules library reports about a position. */
  datatype Rules = Rules(
    legalMoves: History -> seq<Move>,            // `board.legal_moves`, in the library's order
    isGameOver: History -> bool,                 // `board.is_game_over()`
    pieces: (History, PieceType, Color) -> nat)  // `len(board.pieces(type, color))`

  /**
    The library's game-over test covers checkmate and stalemate, so a position
    without legal moves is always over.
   */
  ghost predicate WellFormed(rules: Rules) {
    forall h :: rules.legalMoves(h) == [] ==> rules.isGameOver(h)
  }

  /** The mutable board: a move stack that `Push` appends to and `Pop` removes from. */
  class Board {
    const rules: Rules
    var moveStack: History
    /** Every position reached by `Push`, in order; a record for the specification only. */
    ghost var pushed: seq<History>

    /** `chess.Board()`: the initial position, with no move played. */
    constructor (rules: Rules)
      ensures this.rules == rules && moveStack == [] && pushed == []
    {
      this.rules := rules;
      moveStack := [];
      pushed := [];
    }

    function LegalMoves(): seq<Move>
      reads this
    {
      rules.legalMoves(moveStack)
    }

    predicate IsGameOver()
      reads this
    {
      rules.isGameOver(moveStack)
    }

    function PieceCount(t: PieceType, c: Color): nat
      reads this
    {
      rules.pieces(moveStack, t, c)
    }

    /** `board.push(move)`: plays the move, without a legality check. */
    method Push(m: Move)
      modifies this
      ensures moveStack == old(moveStack) + [m]
      ensures pushed == old(pushed) + [moveStack]
    {
      moveStack := moveStack + [m];
      pushed := pushed + [moveStack];
    }

    /** `board.pop()`: takes back the last move played and returns it. */
    method Pop() returns (m: Move)
      requires moveStack != []
      modifies this
      ensures moveStack == old(moveStack)[..|old(moveStack)| - 1]
      ensures m == old(moveStack)[|old(moveStack)| - 1]
      ensures pushed == old(pushed)
    {
      m := moveStack[|moveStack| - 1];
      moveStack := moveStack[..|moveStack| - 1];
    }
  }
}

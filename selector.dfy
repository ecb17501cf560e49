/**
  The root move selector (`get_best_move_alpha_beta`) and the computer's turn
  (`ai_move`). The root tries every legal move, scores the position it leads
  to with a full-window search one ply shallower in which the minimising side
  moves next, and keeps the first move whose score is strictly greater than
  the best so far. The root always maximises White's score, whichever side is
  to move.
 */
module MoveSelector {
  import opened Wrappers
  import opened Scores
  import opened Chess
  import opened Search

  /** The score the root gives each legal move, in the rules library's order. */
  function RootScores(rules: Rules, h: History, depth: nat): seq<Score>
    requires 1 <= depth
  {
    var ms := rules.legalMoves(h);
    seq(|ms|, i requires 0 <= i < |ms| => Minimax(rules, h + [ms[i]], depth - 1, false))
  }

  /** The selector's variables `best_move` (as an index) and `best_move_value`. */
  datatype Leader = Leader(index: Option<nat>, value: Score)

  /** The selector's state after the first `i` scores: a move replaces the leader only if strictly better. */
  function Leading(s: seq<Score>, i: nat): (r: Leader)
    requires i <= |s|
    ensures r.index.Some? ==> r.index.value < i
  {
    if i == 0 then Leader(None, NegInf)
    else
      var l := Leading(s, i - 1);
      if Lt(l.value, s[i - 1]) then Leader(Some(i - 1), s[i - 1]) else l
  }

  /** `k` holds the greatest score of `s`, and every earlier score is strictly smaller. */
  predicate FirstBest(s: seq<Score>, k: nat) {
    && k < |s|
    && (forall j | 0 <= j < |s| :: Le(s[j], s[k]))
    && (forall j | 0 <= j < k :: Lt(s[j], s[k]))
  }

  /** The position in the legal-move list of the move the selector returns, if any. */
  function ChosenIndex(rules: Rules, h: History, depth: nat): (r: Option<nat>)
    requires 1 <= depth
    ensures r.Some? ==> r.value < |rules.legalMoves(h)|
  {
    var s := RootScores(rules, h, depth);
    Leading(s, |s|).index
  }

  /** The move `get_best_move_alpha_beta` returns, or `None`. */
  function ChosenMove(rules: Rules, h: History, depth: nat): (r: Option<Move>)
    requires 1 <= depth
    ensures r.Some? ==> r.value in rules.legalMoves(h)
  {
    var ms := rules.legalMoves(h);
    match ChosenIndex(rules, h, depth)
    case None => None
    case Some(k) => Some(ms[k])
  }

  /** Every position the selector pushes while it scores the first `i` legal moves. */
  ghost function RootPushes(rules: Rules, h: History, depth: nat, i: nat): seq<History>
    requires 1 <= depth && i <= |rules.legalMoves(h)|
  {
    if i == 0 then []
    else
      var child := h + [rules.legalMoves(h)[i - 1]];
      RootPushes(rules, h, depth, i - 1) + [child] + Pushes(rules, child, depth - 1, NegInf, PosInf, false)
  }

  /**
    The leader after `i` scores is the earliest strict maximum among them, and
    there is none exactly when every one of them is minus infinity.
   */
  lemma {:induction false} LeadingIsFirstBest(s: seq<Score>, i: nat)
    requires i <= |s|
    ensures var r := Leading(s, i);
      && (r.index.None? <==> forall j | 0 <= j < i :: s[j] == NegInf)
      && (r.index.None? ==> r.value == NegInf)
      && (r.index.Some? ==> r.value == s[r.index.value] && FirstBest(s[..i], r.index.value))
  {
    if i > 0 {
      LeadingIsFirstBest(s, i - 1);
      var r := Leading(s, i - 1);
      if r.index.Some? {
        assert FirstBest(s[..i - 1], r.index.value);
        assert forall j | 0 <= j < i - 1 :: s[..i][j] == s[..i - 1][j];
      }
    }
  }

  /**
    The selector returns the first legal move whose score is the greatest, and
    `None` exactly when every move scores minus infinity (in particular when
    there is no legal move).
   */
  lemma RootChoiceIsFirstBest(rules: Rules, h: History, depth: nat)
    requires 1 <= depth
    ensures var s := RootScores(rules, h, depth);
      var c := ChosenIndex(rules, h, depth);
      && (c.None? <==> forall j | 0 <= j < |s| :: s[j] == NegInf)
      && (c.Some? ==> FirstBest(s, c.value) && s[c.value] != NegInf)
  {
    var s := RootScores(rules, h, depth);
    LeadingIsFirstBest(s, |s|);
    assert s[..|s|] == s;
  }

  lemma {:induction false} LeadingValueIsBest(rules: Rules, h: History, depth: nat, i: nat)
    requires 1 <= depth && i <= |rules.legalMoves(h)|
    ensures Leading(RootScores(rules, h, depth), i).value == Best(rules, h, rules.legalMoves(h), depth, true, i)
  {
    if i > 0 {
      LeadingValueIsBest(rules, h, depth, i - 1);
    }
  }

  /**
    Unless the root position is already over, the value of the chosen move is
    the root's minimax value with White maximising.
   */
  lemma RootValueIsMinimax(rules: Rules, h: History, depth: nat)
    requires 1 <= depth && !rules.isGameOver(h)
    ensures var s := RootScores(rules, h, depth);
      var c := ChosenIndex(rules, h, depth);
      && (c.Some? ==> s[c.value] == Minimax(rules, h, depth, true))
      && (c.None? ==> Minimax(rules, h, depth, true) == NegInf)
  {
    var s := RootScores(rules, h, depth);
    LeadingValueIsBest(rules, h, depth, |s|);
    LeadingIsFirstBest(s, |s|);
  }

  /** With well-formed rules and at least one legal move, the selector returns a legal move. */
  lemma BestMoveExists(rules: Rules, h: History, depth: nat)
    requires 1 <= depth && WellFormed(rules) && rules.legalMoves(h) != []
    ensures ChosenMove(rules, h, depth).Some?
    ensures ChosenMove(rules, h, depth).value in rules.legalMoves(h)
  {
    var ms := rules.legalMoves(h);
    MinimaxFinite(rules, h + [ms[0]], depth - 1, false);
    RootChoiceIsFirstBest(rules, h, depth);
    assert RootScores(rules, h, depth)[0] != NegInf;
  }

  /**
    `get_best_move_alpha_beta`: scores each legal move with a full-window
    search and returns the first best one, leaving the board as it found it.
   */
  method GetBestMoveAlphaBeta(board: Board, depth: nat) returns (bestMove: Option<Move>)
    requires 1 <= depth
    modifies board
    ensures board.moveStack == old(board.moveStack)
    ensures board.pushed == old(board.pushed) + RootPushes(board.rules, old(board.moveStack), depth, |board.LegalMoves()|)
    ensures bestMove == ChosenMove(board.rules, old(board.moveStack), depth)
  {
    ghost var rules, h, log := board.rules, board.moveStack, board.pushed;
    ghost var scores := RootScores(rules, h, depth);
    ghost var bestIndex: Option<nat> := None;
    var moves := board.LegalMoves();
    bestMove := None;
    var bestMoveValue := NegInf;
    for i := 0 to |moves|
      invariant board.moveStack == h
      invariant Leading(scores, i) == Leader(bestIndex, bestMoveValue)
      invariant bestMove == match bestIndex case None => None case Some(k) => Some(moves[k])
      invariant board.pushed == log + RootPushes(rules, h, depth, i)
    {
      ghost var done := RootPushes(rules, h, depth, i);
      var boardValue := ScoreMove(board, moves[i], depth - 1);
      AppendAssoc(log, done, [h + [moves[i]]] + Pushes(rules, h + [moves[i]], depth - 1, NegInf, PosInf, false));
      AppendAssoc(done, [h + [moves[i]]], Pushes(rules, h + [moves[i]], depth - 1, NegInf, PosInf, false));
      if Lt(bestMoveValue, boardValue) {
        bestMoveValue := boardValue;
        bestMove := Some(moves[i]);
        bestIndex := Some(i);
      }
    }
  }

  /**
    One root iteration: pushes `m`, searches the resulting position with the
    full window (the root's `alpha` and `beta`, which it never narrows) for the
    minimising side, and pops `m`.
   */
  method ScoreMove(board: Board, m: Move, depth: nat) returns (boardValue: Score)
    modifies board
    ensures board.moveStack == old(board.moveStack)
    ensures board.pushed ==
      old(board.pushed) + ([old(board.moveStack) + [m]] + Pushes(board.rules, old(board.moveStack) + [m], depth, NegInf, PosInf, false))
    ensures boardValue == Minimax(board.rules, old(board.moveStack) + [m], depth, false)
  {
    ghost var log := board.pushed;
    board.Push(m);
    boardValue := MinimaxAlphaBeta(board, depth, NegInf, PosInf, false);
    var _ := board.Pop();
    AppendAssoc(log, [old(board.moveStack) + [m]], Pushes(board.rules, old(board.moveStack) + [m], depth, NegInf, PosInf, false));
    AlphaBetaFullWindow(board.rules, old(board.moveStack) + [m], depth, false);
  }

  /** `ai_move`: plays the selector's move on the board. */
  method AiMove(board: Board, depth: nat := 2)
    requires 1 <= depth && WellFormed(board.rules) && !board.IsGameOver()
    modifies board
    ensures var chosen := ChosenMove(board.rules, old(board.moveStack), depth);
      chosen.Some? && board.moveStack == old(board.moveStack) + [chosen.value]
    ensures board.pushed ==
      old(board.pushed) + RootPushes(board.rules, old(board.moveStack), depth, |old(board.LegalMoves())|) + [board.moveStack]
  {
    BestMoveExists(board.rules, board.moveStack, depth);
    var bestMove := GetBestMoveAlphaBeta(board, depth);
    board.Push(bestMove.value);
  }
}

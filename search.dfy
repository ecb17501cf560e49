/**
  The search driver (`minimax_alpha_beta`): depth-bounded minimax with
  alpha-beta pruning over the positions the rules library generates. Scores
  are always from White's side: the maximising player wants them high, the
  minimising player low.

  `Minimax` is the unpruned reference value. `AlphaBeta` is the value the
  pruned search returns, defined step by step as the move loop computes it:
  `Scan` is the loop state after a number of moves and `Examined` is how many
  moves the loop looks at before the cutoff `beta <= alpha` stops it.
  `Pushes` lists every position the search pushes, in order.
 */
module Search {
  import opened Scores
  import opened Chess
  import opened Evaluator

  // ---------------------------------------------------------------------------
  // The unpruned reference

  /** The minimax value of the position `h` searched `depth` plies deep. */
  function Minimax(rules: Rules, h: History, depth: nat, maximizing: bool): Score
    decreases depth, 1, 0
  {
    if depth == 0 || rules.isGameOver(h) then Fin(Evaluate(rules, h))
    else Best(rules, h, rules.legalMoves(h), depth, maximizing, |rules.legalMoves(h)|)
  }

  /** The best minimax value among the first `i` children of `h` for the player to move. */
  function Best(rules: Rules, h: History, ms: seq<Move>, depth: nat, maximizing: bool, i: nat): Score
    requires 1 <= depth && i <= |ms|
    decreases depth, 0, i
  {
    if i == 0 then (if maximizing then NegInf else PosInf)
    else
      var e := Minimax(rules, h + [ms[i - 1]], depth - 1, !maximizing);
      if maximizing then Max(Best(rules, h, ms, depth, maximizing, i - 1), e)
      else Min(Best(rules, h, ms, depth, maximizing, i - 1), e)
  }

  // ---------------------------------------------------------------------------
  // The pruned search, as the move loop runs it

  /** The loop's variables: the best value so far (`max_eval` or `min_eval`), `alpha` and `beta`. */
  datatype Window = Window(best: Score, alpha: Score, beta: Score)

  /** The pruning test `beta <= alpha`. */
  predicate Cut(w: Window) {
    Le(w.beta, w.alpha)
  }

  /**
    One loop iteration after the child returned `e`: the window only narrows,
    and the side to move raises (or lowers) its best value and bound to `e`.
   */
  function Update(w: Window, e: Score, maximizing: bool): (r: Window)
    ensures Le(w.alpha, r.alpha) && Le(r.beta, w.beta)
    ensures maximizing ==> r.beta == w.beta && Le(w.best, r.best) && Le(e, r.best) && Le(e, r.alpha)
    ensures !maximizing ==> r.alpha == w.alpha && Le(r.best, w.best) && Le(r.best, e) && Le(r.beta, e)
  {
    if maximizing then Window(Max(w.best, e), Max(w.alpha, e), w.beta)
    else Window(Min(w.best, e), w.alpha, Min(w.beta, e))
  }

  /** The value `minimax_alpha_beta(h, depth, alpha, beta, maximizing)` returns. */
  function AlphaBeta(rules: Rules, h: History, depth: nat, alpha: Score, beta: Score, maximizing: bool): Score
    decreases depth, 2, 0
  {
    if depth == 0 || rules.isGameOver(h) then Fin(Evaluate(rules, h))
    else
      var ms := rules.legalMoves(h);
      Scan(rules, h, ms, depth, alpha, beta, maximizing, Examined(rules, h, ms, depth, alpha, beta, maximizing, 0)).best
  }

  /** The loop state after the first `i` moves of `ms`, had none of them triggered the cutoff. */
  function Scan(rules: Rules, h: History, ms: seq<Move>, depth: nat, alpha: Score, beta: Score,
                maximizing: bool, i: nat): (r: Window)
    requires 1 <= depth && i <= |ms|
    ensures maximizing ==> r.beta == beta && Le(alpha, r.alpha)
    ensures !maximizing ==> r.alpha == alpha && Le(r.beta, beta)
    decreases depth, 0, i
  {
    if i == 0 then Window(if maximizing then NegInf else PosInf, alpha, beta)
    else
      var w := Scan(rules, h, ms, depth, alpha, beta, maximizing, i - 1);
      var e := AlphaBeta(rules, h + [ms[i - 1]], depth - 1, w.alpha, w.beta, !maximizing);
      Update(w, e, maximizing)
  }

  /**
    How many moves the loop looks at, counting on from move `i`: it stops right
    after the first move whose iteration ends in a cutoff, or at the end of `ms`.
   */
  function Examined(rules: Rules, h: History, ms: seq<Move>, depth: nat, alpha: Score, beta: Score,
                    maximizing: bool, i: nat): (k: nat)
    requires 1 <= depth && i <= |ms|
    ensures i <= k <= |ms|
    ensures i < |ms| ==> i < k
    decreases depth, 1, |ms| - i
  {
    if i == |ms| then i
    else if Cut(Scan(rules, h, ms, depth, alpha, beta, maximizing, i + 1)) then i + 1
    else Examined(rules, h, ms, depth, alpha, beta, maximizing, i + 1)
  }

  /** Every position the search of `h` pushes, in the order it pushes them. */
  ghost function Pushes(rules: Rules, h: History, depth: nat, alpha: Score, beta: Score, maximizing: bool): seq<History>
    decreases depth, 1, 0
  {
    if depth == 0 || rules.isGameOver(h) then []
    else
      var ms := rules.legalMoves(h);
      PushScan(rules, h, ms, depth, alpha, beta, maximizing, Examined(rules, h, ms, depth, alpha, beta, maximizing, 0))
  }

  /** The positions pushed while the loop handles the first `i` moves of `ms`. */
  ghost function PushScan(rules: Rules, h: History, ms: seq<Move>, depth: nat, alpha: Score, beta: Score,
                          maximizing: bool, i: nat): seq<History>
    requires 1 <= depth && i <= |ms|
    decreases depth, 0, i
  {
    if i == 0 then []
    else
      var w := Scan(rules, h, ms, depth, alpha, beta, maximizing, i - 1);
      PushScan(rules, h, ms, depth, alpha, beta, maximizing, i - 1)
      + [h + [ms[i - 1]]]
      + Pushes(rules, h + [ms[i - 1]], depth - 1, w.alpha, w.beta, !maximizing)
  }

  /**
    Fail-soft alpha-beta: a value at or below `alpha` bounds the true value from
    above, one at or above `beta` bounds it from below, one strictly inside the
    window is exact.
   */
  predicate FailSoft(v: Score, m: Score, alpha: Score, beta: Score) {
    && (Le(v, alpha) ==> Le(m, v))
    && (Le(beta, v) ==> Le(v, m))
    && (Lt(alpha, v) && Lt(v, beta) ==> v == m)
  }

  // ---------------------------------------------------------------------------
  // Pruned search against the reference

  /** Looking at more children never makes the best value worse for the player to move. */
  lemma {:induction false} BestMonotone(rules: Rules, h: History, ms: seq<Move>, depth: nat, maximizing: bool, i: nat, j: nat)
    requires 1 <= depth && i <= j <= |ms|
    ensures maximizing ==> Le(Best(rules, h, ms, depth, maximizing, i), Best(rules, h, ms, depth, maximizing, j))
    ensures !maximizing ==> Le(Best(rules, h, ms, depth, maximizing, j), Best(rules, h, ms, depth, maximizing, i))
    decreases j
  {
    if i < j {
      BestMonotone(rules, h, ms, depth, maximizing, i, j - 1);
    }
  }

  /**
    `Examined` stops at the first cutoff: no iteration before the last one
    examined ended in a cutoff, and if moves remain, the last one did.
   */
  lemma {:induction false} ExaminedIsFirstCutoff(rules: Rules, h: History, ms: seq<Move>, depth: nat, alpha: Score, beta: Score,
                                                 maximizing: bool, i: nat)
    requires 1 <= depth && i <= |ms|
    ensures var k := Examined(rules, h, ms, depth, alpha, beta, maximizing, i);
      && (forall j | i < j < k :: !Cut(Scan(rules, h, ms, depth, alpha, beta, maximizing, j)))
      && (k < |ms| ==> Cut(Scan(rules, h, ms, depth, alpha, beta, maximizing, k)))
    decreases |ms| - i
  {
    if i < |ms| && !Cut(Scan(rules, h, ms, depth, alpha, beta, maximizing, i + 1)) {
      ExaminedIsFirstCutoff(rules, h, ms, depth, alpha, beta, maximizing, i + 1);
    }
  }

  /**
    What a maximising node's best value so far, `best`, says about the true
    best value `m` of the same moves: below `beta` it never undershoots `m`,
    and it is exact once above `alpha`; at or above `beta` it bounds `m` from below.
   */
  predicate MaxProgress(alpha: Score, beta: Score, best: Score, m: Score) {
    && (Lt(best, beta) ==> Le(m, best) && (Lt(alpha, best) ==> Le(best, m)))
    && (Le(beta, best) ==> Le(best, m))
  }

  /** The mirror image of `MaxProgress` for a minimising node. */
  predicate MinProgress(alpha: Score, beta: Score, best: Score, m: Score) {
    && (Lt(alpha, best) ==> Le(best, m) && (Lt(best, beta) ==> Le(m, best)))
    && (Le(best, alpha) ==> Le(m, best))
  }

  /** One iteration of a maximising node keeps `MaxProgress`, given that the child's search is fail-soft. */
  lemma MaxProgressStep(alpha: Score, beta: Score, best: Score, m: Score, e: Score, em: Score)
    requires Lt(Max(alpha, best), beta) && MaxProgress(alpha, beta, best, m)
    requires FailSoft(e, em, Max(alpha, best), beta)
    ensures MaxProgress(alpha, beta, Max(best, e), Max(m, em))
  {
  }

  /** One iteration of a minimising node keeps `MinProgress`, given that the child's search is fail-soft. */
  lemma MinProgressStep(alpha: Score, beta: Score, best: Score, m: Score, e: Score, em: Score)
    requires Lt(alpha, Min(beta, best)) && MinProgress(alpha, beta, best, m)
    requires FailSoft(e, em, alpha, Min(beta, best))
    ensures MinProgress(alpha, beta, Min(best, e), Min(m, em))
  {
  }

  /** The loop invariant of a maximising node, relating its state after `i` moves to the true values. */
  lemma {:induction false} ScanMaximizing(rules: Rules, h: History, ms: seq<Move>, depth: nat, alpha: Score, beta: Score, i: nat)
    requires 1 <= depth && i <= |ms| && Lt(alpha, beta)
    requires forall j | 1 <= j < i :: !Cut(Scan(rules, h, ms, depth, alpha, beta, true, j))
    ensures var w := Scan(rules, h, ms, depth, alpha, beta, true, i);
      && w.beta == beta && w.alpha == Max(alpha, w.best)
      && MaxProgress(alpha, beta, w.best, Best(rules, h, ms, depth, true, i))
    decreases depth, 0, i
  {
    if i > 0 {
      ScanMaximizing(rules, h, ms, depth, alpha, beta, i - 1);
      var w := Scan(rules, h, ms, depth, alpha, beta, true, i - 1);
      var child := h + [ms[i - 1]];
      assert i - 1 >= 1 ==> !Cut(w);
      AlphaBetaFailSoft(rules, child, depth - 1, w.alpha, w.beta, false);
      MaxProgressStep(alpha, beta, w.best, Best(rules, h, ms, depth, true, i - 1),
                      AlphaBeta(rules, child, depth - 1, w.alpha, w.beta, false), Minimax(rules, child, depth - 1, false));
    }
  }

  /** The loop invariant of a minimising node, the mirror image of `ScanMaximizing`. */
  lemma {:induction false} ScanMinimizing(rules: Rules, h: History, ms: seq<Move>, depth: nat, alpha: Score, beta: Score, i: nat)
    requires 1 <= depth && i <= |ms| && Lt(alpha, beta)
    requires forall j | 1 <= j < i :: !Cut(Scan(rules, h, ms, depth, alpha, beta, false, j))
    ensures var w := Scan(rules, h, ms, depth, alpha, beta, false, i);
      && w.alpha == alpha && w.beta == Min(beta, w.best)
      && MinProgress(alpha, beta, w.best, Best(rules, h, ms, depth, false, i))
    decreases depth, 0, i
  {
    if i > 0 {
      ScanMinimizing(rules, h, ms, depth, alpha, beta, i - 1);
      var w := Scan(rules, h, ms, depth, alpha, beta, false, i - 1);
      var child := h + [ms[i - 1]];
      assert i - 1 >= 1 ==> !Cut(w);
      AlphaBetaFailSoft(rules, child, depth - 1, w.alpha, w.beta, true);
      MinProgressStep(alpha, beta, w.best, Best(rules, h, ms, depth, false, i - 1),
                      AlphaBeta(rules, child, depth - 1, w.alpha, w.beta, true), Minimax(rules, child, depth - 1, true));
    }
  }

  /** Alpha-beta is fail-soft with respect to minimax in every window with `alpha < beta`. */
  lemma {:induction false} AlphaBetaFailSoft(rules: Rules, h: History, depth: nat, alpha: Score, beta: Score, maximizing: bool)
    requires Lt(alpha, beta)
    ensures FailSoft(AlphaBeta(rules, h, depth, alpha, beta, maximizing), Minimax(rules, h, depth, maximizing), alpha, beta)
    decreases depth, 1, 0
  {
    if depth != 0 && !rules.isGameOver(h) {
      var ms := rules.legalMoves(h);
      var k := Examined(rules, h, ms, depth, alpha, beta, maximizing, 0);
      ExaminedIsFirstCutoff(rules, h, ms, depth, alpha, beta, maximizing, 0);
      BestMonotone(rules, h, ms, depth, maximizing, k, |ms|);
      if maximizing {
        ScanMaximizing(rules, h, ms, depth, alpha, beta, k);
      } else {
        ScanMinimizing(rules, h, ms, depth, alpha, beta, k);
      }
    }
  }

  /** Searched with the full window, the pruned search returns exactly the minimax value. */
  lemma AlphaBetaFullWindow(rules: Rules, h: History, depth: nat, maximizing: bool)
    ensures AlphaBeta(rules, h, depth, NegInf, PosInf, maximizing) == Minimax(rules, h, depth, maximizing)
  {
    AlphaBetaFailSoft(rules, h, depth, NegInf, PosInf, maximizing);
  }

  /**
    When the rules are well formed (a position without legal moves is over),
    every minimax value is finite: the infinite sentinels never survive.
   */
  lemma {:induction false} MinimaxFinite(rules: Rules, h: History, depth: nat, maximizing: bool)
    requires WellFormed(rules)
    ensures Minimax(rules, h, depth, maximizing).Fin?
    decreases depth, 1, 0
  {
    if depth != 0 && !rules.isGameOver(h) {
      var ms := rules.legalMoves(h);
      BestFinite(rules, h, ms, depth, maximizing, |ms|);
    }
  }

  lemma {:induction false} BestFinite(rules: Rules, h: History, ms: seq<Move>, depth: nat, maximizing: bool, i: nat)
    requires WellFormed(rules) && 1 <= depth && 1 <= i <= |ms|
    ensures Best(rules, h, ms, depth, maximizing, i).Fin?
    decreases depth, 0, i
  {
    MinimaxFinite(rules, h + [ms[i - 1]], depth - 1, !maximizing);
    if i > 1 {
      BestFinite(rules, h, ms, depth, maximizing, i - 1);
    }
  }

  // ---------------------------------------------------------------------------
  // What the search pushes

  /** The entries of `log` that are exactly `n` moves long, in order. */
  function AtPly(log: seq<History>, n: nat): seq<History> {
    if log == [] then []
    else (if |log[0]| == n then [log[0]] else []) + AtPly(log[1..], n)
  }

  /** The positions reached from `h` by each of the moves `ms`, in order. */
  function Extend(h: History, ms: seq<Move>): seq<History> {
    if ms == [] then [] else Extend(h, ms[..|ms| - 1]) + [h + [ms[|ms| - 1]]]
  }

  lemma {:induction false} AtPlyAppend(a: seq<History>, b: seq<History>, n: nat)
    ensures AtPly(a + b, n) == AtPly(a, n) + AtPly(b, n)
    decreases |a|
  {
    if a != [] {
      assert (a + b)[1..] == a[1..] + b;
      AtPlyAppend(a[1..], b, n);
    } else {
      assert a + b == b;
    }
  }

  lemma ExtendPrefix(h: History, ms: seq<Move>, i: nat)
    requires 0 < i <= |ms|
    ensures Extend(h, ms[..i]) == Extend(h, ms[..i - 1]) + [h + [ms[i - 1]]]
  {
    assert ms[..i][..i - 1] == ms[..i - 1];
  }

  lemma AtPlySingle(p: History, n: nat)
    ensures AtPly([p], n) == if |p| == n then [p] else []
  {
    assert [p][1..] == [];
  }

  lemma {:induction false} AtPlyDeeper(log: seq<History>, n: nat)
    requires forall p | p in log :: |p| > n
    ensures AtPly(log, n) == []
    decreases |log|
  {
    if log != [] {
      AtPlyDeeper(log[1..], n);
    }
  }

  /** The search of `h` only pushes positions that extend `h` by at most `depth` moves. */
  lemma {:induction false} PushesWithin(rules: Rules, h: History, depth: nat, alpha: Score, beta: Score, maximizing: bool)
    ensures forall p | p in Pushes(rules, h, depth, alpha, beta, maximizing) :: h < p && |p| <= |h| + depth
    decreases depth, 1, 0
  {
    if depth != 0 && !rules.isGameOver(h) {
      var ms := rules.legalMoves(h);
      PushScanWithin(rules, h, ms, depth, alpha, beta, maximizing,
                     Examined(rules, h, ms, depth, alpha, beta, maximizing, 0));
    }
  }

  lemma {:induction false} PushScanWithin(rules: Rules, h: History, ms: seq<Move>, depth: nat, alpha: Score, beta: Score,
                                          maximizing: bool, i: nat)
    requires 1 <= depth && i <= |ms|
    ensures forall p | p in PushScan(rules, h, ms, depth, alpha, beta, maximizing, i) :: h < p && |p| <= |h| + depth
    decreases depth, 0, i
  {
    if i > 0 {
      var w := Scan(rules, h, ms, depth, alpha, beta, maximizing, i - 1);
      var child := h + [ms[i - 1]];
      PushScanWithin(rules, h, ms, depth, alpha, beta, maximizing, i - 1);
      PushesWithin(rules, child, depth - 1, w.alpha, w.beta, !maximizing);
    }
  }

  lemma {:induction false} PushScanChildren(rules: Rules, h: History, ms: seq<Move>, depth: nat, alpha: Score, beta: Score,
                                            maximizing: bool, i: nat)
    requires 1 <= depth && i <= |ms|
    ensures AtPly(PushScan(rules, h, ms, depth, alpha, beta, maximizing, i), |h| + 1) == Extend(h, ms[..i])
    decreases i
  {
    if i > 0 {
      var w := Scan(rules, h, ms, depth, alpha, beta, maximizing, i - 1);
      var child := h + [ms[i - 1]];
      var deeper := Pushes(rules, child, depth - 1, w.alpha, w.beta, !maximizing);
      var before := PushScan(rules, h, ms, depth, alpha, beta, maximizing, i - 1);
      var n := |h| + 1;
      PushScanChildren(rules, h, ms, depth, alpha, beta, maximizing, i - 1);
      PushesWithin(rules, child, depth - 1, w.alpha, w.beta, !maximizing);
      AtPlyDeeper(deeper, n);
      AtPlyAppend(before, [child], n);
      AtPlyAppend(before + [child], deeper, n);
      calc {
        AtPly(PushScan(rules, h, ms, depth, alpha, beta, maximizing, i), n);
        AtPly(before + [child], n) + AtPly(deeper, n);
        { assert AtPly(before + [child], n) + [] == AtPly(before + [child], n); }
        AtPly(before, n) + AtPly([child], n);
        { AtPlySingle(child, n); }
        Extend(h, ms[..i - 1]) + [child];
        { ExtendPrefix(h, ms, i); }
        Extend(h, ms[..i]);
      }
    }
  }

  /**
    A node visits its moves in the order the rules library lists them and
    pushes no move after the first cutoff: the positions one move deeper
    that it pushes are those of the first `k` moves, where the `k`-th is the
    first whose iteration ends with `beta <= alpha` (or the last move).
   */
  lemma VisitOrder(rules: Rules, h: History, depth: nat, alpha: Score, beta: Score, maximizing: bool)
    requires 1 <= depth && !rules.isGameOver(h)
    ensures var ms := rules.legalMoves(h);
      var k := Examined(rules, h, ms, depth, alpha, beta, maximizing, 0);
      && AtPly(Pushes(rules, h, depth, alpha, beta, maximizing), |h| + 1) == Extend(h, ms[..k])
      && (forall j | 1 <= j < k :: !Cut(Scan(rules, h, ms, depth, alpha, beta, maximizing, j)))
      && (k < |ms| ==> Cut(Scan(rules, h, ms, depth, alpha, beta, maximizing, k)))
  {
    var ms := rules.legalMoves(h);
    var k := Examined(rules, h, ms, depth, alpha, beta, maximizing, 0);
    PushScanChildren(rules, h, ms, depth, alpha, beta, maximizing, k);
    ExaminedIsFirstCutoff(rules, h, ms, depth, alpha, beta, maximizing, 0);
  }

  lemma AppendAssoc<T>(a: seq<T>, b: seq<T>, c: seq<T>)
    ensures a + b + c == a + (b + c)
  {
  }

  // ---------------------------------------------------------------------------
  // The search method

  /**
    `minimax_alpha_beta`: searches the board's position in place, pushing and
    popping each move it tries, and leaves the board as it found it.
   */
  method MinimaxAlphaBeta(board: Board, depth: nat, alpha: Score, beta: Score, maximizing: bool)
    returns (v: Score)
    modifies board
    decreases depth, 1
    ensures board.moveStack == old(board.moveStack)
    ensures board.pushed == old(board.pushed) + Pushes(board.rules, old(board.moveStack), depth, alpha, beta, maximizing)
    ensures v == AlphaBeta(board.rules, old(board.moveStack), depth, alpha, beta, maximizing)
    ensures depth == 0 || board.rules.isGameOver(old(board.moveStack)) ==>
      v == Fin(Evaluate(board.rules, old(board.moveStack))) && board.pushed == old(board.pushed)
    ensures Lt(alpha, beta) ==>
      FailSoft(v, Minimax(board.rules, old(board.moveStack), depth, maximizing), alpha, beta)
  {
    if depth == 0 || board.IsGameOver() {
      var eval := EvaluateBoard(board);
      v := Fin(eval);
    } else if maximizing {
      v := MaximizingMoves(board, depth, alpha, beta);
    } else {
      v := MinimizingMoves(board, depth, alpha, beta);
    }
    if Lt(alpha, beta) {
      AlphaBetaFailSoft(board.rules, board.moveStack, depth, alpha, beta, maximizing);
    }
  }

  /** The maximising branch of `minimax_alpha_beta`: raises `max_eval` and `alpha` move by move and stops once `beta <= alpha`. */
  method MaximizingMoves(board: Board, depth: nat, alpha: Score, beta: Score) returns (maxEval: Score)
    requires 1 <= depth && !board.IsGameOver()
    modifies board
    decreases depth, 0
    ensures board.moveStack == old(board.moveStack)
    ensures board.pushed == old(board.pushed) + Pushes(board.rules, old(board.moveStack), depth, alpha, beta, true)
    ensures maxEval == AlphaBeta(board.rules, old(board.moveStack), depth, alpha, beta, true)
  {
    ghost var rules, h, log := board.rules, board.moveStack, board.pushed;
    var moves := board.LegalMoves();
    ghost var k := Examined(rules, h, moves, depth, alpha, beta, true, 0);
    var a := alpha;
    maxEval := NegInf;
    var i := 0;
    while i < |moves|
      invariant i <= |moves|
      invariant board.moveStack == h
      invariant Scan(rules, h, moves, depth, alpha, beta, true, i) == Window(maxEval, a, beta)
      invariant Examined(rules, h, moves, depth, alpha, beta, true, i) == k
      invariant board.pushed == log + PushScan(rules, h, moves, depth, alpha, beta, true, i)
    {
      ghost var done := PushScan(rules, h, moves, depth, alpha, beta, true, i);
      board.Push(moves[i]);
      var e := MinimaxAlphaBeta(board, depth - 1, a, beta, false);
      var _ := board.Pop();
      AppendAssoc(log, done, [h + [moves[i]]]);
      AppendAssoc(log, done + [h + [moves[i]]], Pushes(rules, h + [moves[i]], depth - 1, a, beta, false));
      maxEval := Max(maxEval, e);
      a := Max(a, e);
      i := i + 1;
      if Le(beta, a) {
        assert i == k;
        break;
      }
    }
  }

  /** The minimising branch of `minimax_alpha_beta`: lowers `min_eval` and `beta` move by move and stops once `beta <= alpha`. */
  method MinimizingMoves(board: Board, depth: nat, alpha: Score, beta: Score) returns (minEval: Score)
    requires 1 <= depth && !board.IsGameOver()
    modifies board
    decreases depth, 0
    ensures board.moveStack == old(board.moveStack)
    ensures board.pushed == old(board.pushed) + Pushes(board.rules, old(board.moveStack), depth, alpha, beta, false)
    ensures minEval == AlphaBeta(board.rules, old(board.moveStack), depth, alpha, beta, false)
  {
    ghost var rules, h, log := board.rules, board.moveStack, board.pushed;
    var moves := board.LegalMoves();
    ghost var k := Examined(rules, h, moves, depth, alpha, beta, false, 0);
    var b := beta;
    minEval := PosInf;
    var i := 0;
    while i < |moves|
      invariant i <= |moves|
      invariant board.moveStack == h
      invariant Scan(rules, h, moves, depth, alpha, beta, false, i) == Window(minEval, alpha, b)
      invariant Examined(rules, h, moves, depth, alpha, beta, false, i) == k
      invariant board.pushed == log + PushScan(rules, h, moves, depth, alpha, beta, false, i)
    {
      ghost var done := PushScan(rules, h, moves, depth, alpha, beta, false, i);
      board.Push(moves[i]);
      var e := MinimaxAlphaBeta(board, depth - 1, alpha, b, true);
      var _ := board.Pop();
      AppendAssoc(log, done, [h + [moves[i]]]);
      AppendAssoc(log, done + [h + [moves[i]]], Pushes(rules, h + [moves[i]], depth - 1, alpha, b, true));
      minEval := Min(minEval, e);
      b := Min(b, e);
      i := i + 1;
      if Le(b, alpha) {
        assert i == k;
        break;
      }
    }
  }
}

/** Adversarial search over the rules engine: the store-difference utility,
    fixed-depth minimax and fixed-depth alpha-beta, both scoring every leaf
    from the point of view of the player who started the search.

    `MaxValueOf`/`MinValueOf` define the minimax value of a position as
    functions; the methods `MaxValue`/`MinValue` (plain minimax) and
    `AbMax`/`AbMin` (alpha-beta, fail-soft) compute it with loops over the
    legal moves, and the two policies pick a move from their results. */
module Search {
  import opened Board
  import opened Rules

  // ---------------------------------------------------------------------
  // Scores extended with the two infinities

  /** An integer score, or one of the infinite bounds a search starts from. */
  datatype Ext = NegInf | Fin(n: int) | PosInf

  predicate Le(a: Ext, b: Ext) {
    a.NegInf? || b.PosInf? || (a.Fin? && b.Fin? && a.n <= b.n)
  }

  predicate Lt(a: Ext, b: Ext) {
    !Le(b, a)
  }

  /** The larger of the two; the first when they are equal. */
  function ExtMax(a: Ext, b: Ext): (r: Ext)
    ensures Le(a, r) && Le(b, r) && (r == a || r == b)
  {
    if Lt(a, b) then b else a
  }

  /** The smaller of the two; the first when they are equal. */
  function ExtMin(a: Ext, b: Ext): (r: Ext)
    ensures Le(r, a) && Le(r, b) && (r == a || r == b)
  {
    if Lt(b, a) then b else a
  }

  // ---------------------------------------------------------------------
  // Utility

  /** Stones in the scoring player's store minus stones in the other store.
      On a board without negative slots it never exceeds the stones on the
      board in either direction. */
  function Utility(s: State, maxPlayer: Player): (r: int)
    ensures NonNegative(s.pits) ==> -Total(s.pits) <= r <= Total(s.pits)
  {
    var diff := s.pits[MancalaIndex(maxPlayer)] - s.pits[MancalaIndex(1 - maxPlayer)];
    TotalByParts(s.pits);
    if NonNegative(s.pits) then
      SumZeroIffEmpty(s.pits, 0, 6);
      SumZeroIffEmpty(s.pits, 7, 13);
      diff
    else diff
  }

  /** The game is zero-sum: the two players' utilities are always opposite. */
  lemma UtilityZeroSum(s: State, maxPlayer: Player)
    ensures Utility(s, maxPlayer) == -Utility(s, 1 - maxPlayer)
  {
  }

  /** When both rows are empty, the utility is twice the scoring player's
      store less every stone on the board: positive exactly when that
      player holds more than half of them. The two players' utilities are
      always opposite. */
  lemma UtilityAtGameEnd(s: State, maxPlayer: Player)
    requires forall i :: InSide(i, 0) || InSide(i, 1) ==> s.pits[i] == 0
    ensures Utility(s, maxPlayer) == 2 * s.pits[MancalaIndex(maxPlayer)] - Total(s.pits)
    ensures Utility(s, maxPlayer) == -Utility(s, 1 - maxPlayer)
  {
    TotalByParts(s.pits);
    SumZeroIffEmpty(s.pits, 0, 6);
    SumZeroIffEmpty(s.pits, 7, 13);
  }

  // ---------------------------------------------------------------------
  // The game tree

  /** The search stops at a finished game or when no depth is left. */
  predicate TerminalOrDepth(s: State, depth: nat) {
    s.gameOver || depth == 0
  }

  /** At a finished game, or with no depth left, both evaluators score the
      position by its utility. */
  lemma TerminalScoresUtility(s: State, depth: nat, maxPlayer: Player)
    requires NonNegative(s.pits) && (depth == 0 || Live(s))
    ensures TerminalOrDepth(s, depth) ==>
              MaxValueOf(s, depth, maxPlayer) == Utility(s, maxPlayer)
              && MinValueOf(s, depth, maxPlayer) == Utility(s, maxPlayer)
  {
  }

  /** A running board with both rows empty (the opening with no stones, for
      one) has no move for either side, so it is not `Live`; a depth-0
      search still scores it by its utility, without passing the turn. */
  lemma EmptyRowsAtDepthZero(s: State, maxPlayer: Player)
    requires NonNegative(s.pits) && RowSum(s.pits, 0) == 0 && RowSum(s.pits, 1) == 0
    ensures LegalMoves(s, 0) == [] && LegalMoves(s, 1) == []
    ensures !s.gameOver ==> !Live(s)
    ensures MaxValueOf(s, 0, maxPlayer) == Utility(s, maxPlayer)
    ensures MinValueOf(s, 0, maxPlayer) == Utility(s, maxPlayer)
  {
    HasMovesIffRowNonEmpty(s, 0);
    HasMovesIffRowNonEmpty(s, 1);
  }

  /** The position is finished or someone can move. Every position a move
      produces satisfies this (see `Child`), and it is what makes passing
      the turn terminate: a side without moves hands over to one with moves. */
  predicate Live(s: State) {
    s.gameOver || LegalMoves(s, 0) != [] || LegalMoves(s, 1) != []
  }

  /** 1 when the side to move must pass, 0 otherwise. */
  function PassMeasure(s: State): nat {
    if LegalMoves(s, s.playerToMove) == [] then 1 else 0
  }

  /** In a running game, a side without moves hands the turn to a side that
      has one, so the search never passes twice in a row. */
  lemma PassHandsOver(s: State)
    requires Live(s) && !s.gameOver && LegalMoves(s, s.playerToMove) == []
    ensures var t := s.(playerToMove := 1 - s.playerToMove);
      Live(t) && LegalMoves(t, t.playerToMove) != [] && PassMeasure(t) < PassMeasure(s)
  {
  }

  /** The position a legal move leads to inside the search (the continuation
      rule is off there). */
  function Child(s: State, m: int): (c: State)
    requires NonNegative(s.pits) && IsLegal(s, m)
    ensures NonNegative(c.pits) && Live(c)
  {
    StepKeepsNonNegative(s, m, false);
    StepOverOrBothCanMove(s, m, false);
    Step(s, m, false).value
  }

  /** Largest of the first `n` elements, scanning left to right. */
  function MaxOf(xs: seq<int>, n: int): (m: int)
    requires 0 < n <= |xs|
    ensures exists k :: 0 <= k < n && xs[k] == m
    ensures forall i :: 0 <= i < n ==> xs[i] <= m
  {
    if n == 1 then xs[0]
    else if MaxOf(xs, n - 1) < xs[n - 1] then xs[n - 1]
    else MaxOf(xs, n - 1)
  }

  /** Smallest of the first `n` elements, scanning left to right. */
  function MinOf(xs: seq<int>, n: int): (m: int)
    requires 0 < n <= |xs|
    ensures exists k :: 0 <= k < n && xs[k] == m
    ensures forall i :: 0 <= i < n ==> m <= xs[i]
  {
    if n == 1 then xs[0]
    else if xs[n - 1] < MinOf(xs, n - 1) then xs[n - 1]
    else MinOf(xs, n - 1)
  }

  /** Index of the first largest of the first `n` elements: scanning left to
      right, the candidate is replaced only by a strictly larger value. */
  function FirstArgMax(xs: seq<int>, n: int): (k: int)
    requires 0 < n <= |xs|
    ensures 0 <= k < n
    ensures forall i :: 0 <= i < n ==> xs[i] <= xs[k]
    ensures forall i :: 0 <= i < k ==> xs[i] < xs[k]
  {
    if n == 1 then 0
    else if xs[n - 1] > xs[FirstArgMax(xs, n - 1)] then n - 1
    else FirstArgMax(xs, n - 1)
  }

  /** A left-to-right scan for the first largest element has looked at the
      first `i` elements: it holds no score yet, or the score and index of
      `FirstArgMax` of what it has seen. */
  predicate ArgMaxScan(xs: seq<int>, i: int, best: Ext, k: int) {
    && 0 <= i <= |xs| && 0 <= k < |xs|
    && (i == 0 ==> best == NegInf && k == 0)
    && (i > 0 ==> k == FirstArgMax(xs, i) && best == Fin(xs[k]))
  }

  /** One more element: the scan takes it exactly when it beats the score so
      far, which keeps the scan in step with `FirstArgMax`. */
  lemma ArgMaxScanStep(xs: seq<int>, i: int, best: Ext, k: int)
    requires ArgMaxScan(xs, i, best, k) && i < |xs|
    ensures Lt(best, Fin(xs[i])) ==> ArgMaxScan(xs, i + 1, Fin(xs[i]), i)
    ensures !Lt(best, Fin(xs[i])) ==> ArgMaxScan(xs, i + 1, best, k)
  {
  }

  /** Minimax value of a position where the scoring player chooses. */
  function MaxValueOf(s: State, depth: nat, maxPlayer: Player): int
    requires NonNegative(s.pits) && (depth == 0 || Live(s))
    decreases depth, 1 + PassMeasure(s), 0
  {
    if TerminalOrDepth(s, depth) then Utility(s, maxPlayer)
    else
      var legal := LegalMoves(s, s.playerToMove);
      if legal == [] then MinValueOf(s.(playerToMove := 1 - s.playerToMove), depth, maxPlayer)
      else MaxOverChildren(s, legal, depth - 1, maxPlayer)
  }

  /** Minimax value of a position where the opponent of the scoring player chooses. */
  function MinValueOf(s: State, depth: nat, maxPlayer: Player): int
    requires NonNegative(s.pits) && (depth == 0 || Live(s))
    decreases depth, 1 + PassMeasure(s), 0
  {
    if TerminalOrDepth(s, depth) then Utility(s, maxPlayer)
    else
      var legal := LegalMoves(s, s.playerToMove);
      if legal == [] then MaxValueOf(s.(playerToMove := 1 - s.playerToMove), depth, maxPlayer)
      else MinOverChildren(s, legal, depth - 1, maxPlayer)
  }

  // `MaxOverChildren`, `MinOverChildren` and `NthChildValue` only name
  // expressions over `ChildValues`; the methods' contracts use these names so
  // that the verifier does not unfold the whole game tree at every call.

  /** The largest value among the positions the moves lead to. */
  function MaxOverChildren(s: State, moves: seq<int>, depth: nat, maxPlayer: Player): int
    requires NonNegative(s.pits)
    requires |moves| > 0 && forall i :: 0 <= i < |moves| ==> IsLegal(s, moves[i])
    decreases depth + 1, 0, |moves| + 1
  {
    var vals := ChildValues(s, moves, depth, maxPlayer, false);
    MaxOf(vals, |vals|)
  }

  /** The smallest value among the positions the moves lead to. */
  function MinOverChildren(s: State, moves: seq<int>, depth: nat, maxPlayer: Player): int
    requires NonNegative(s.pits)
    requires |moves| > 0 && forall i :: 0 <= i < |moves| ==> IsLegal(s, moves[i])
    decreases depth + 1, 0, |moves| + 1
  {
    var vals := ChildValues(s, moves, depth, maxPlayer, true);
    MinOf(vals, |vals|)
  }

  /** The value of the position move `m` leads to, searched `depth` levels
      deep by the scoring player (`maximizing`) or by the opponent. */
  function ValueAfter(s: State, m: int, depth: nat, maxPlayer: Player, maximizing: bool): int
    requires NonNegative(s.pits) && IsLegal(s, m)
    decreases depth + 1, 0, 0
  {
    var c := Child(s, m);
    if maximizing then MaxValueOf(c, depth, maxPlayer) else MinValueOf(c, depth, maxPlayer)
  }

  /** The values of the positions the moves lead to, in the order of the moves. */
  function ChildValues(s: State, moves: seq<int>, depth: nat, maxPlayer: Player, maximizing: bool): (vs: seq<int>)
    requires NonNegative(s.pits)
    requires forall i :: 0 <= i < |moves| ==> IsLegal(s, moves[i])
    ensures |vs| == |moves|
    decreases depth + 1, 0, |moves|
  {
    if moves == [] then []
    else [ValueAfter(s, moves[0], depth, maxPlayer, maximizing)] + ChildValues(s, moves[1..], depth, maxPlayer, maximizing)
  }

  /** Entry `i` of `ChildValues` is the value of the position move `i` leads to. */
  lemma {:induction false} ChildValueAt(s: State, moves: seq<int>, depth: nat, maxPlayer: Player, maximizing: bool, i: int)
    requires NonNegative(s.pits)
    requires forall i :: 0 <= i < |moves| ==> IsLegal(s, moves[i])
    requires 0 <= i < |moves|
    ensures ChildValues(s, moves, depth, maxPlayer, maximizing)[i] == ValueAfter(s, moves[i], depth, maxPlayer, maximizing)
    decreases i
  {
    if i > 0 {
      ChildValueAt(s, moves[1..], depth, maxPlayer, maximizing, i - 1);
    }
  }

  /** Entry `i` of `ChildValues`. */
  function NthChildValue(s: State, moves: seq<int>, i: int, depth: nat, maxPlayer: Player, maximizing: bool): int
    requires NonNegative(s.pits)
    requires forall j :: 0 <= j < |moves| ==> IsLegal(s, moves[j])
    requires 0 <= i < |moves|
  {
    ChildValues(s, moves, depth, maxPlayer, maximizing)[i]
  }

  /** The move a depth-`depth` search picks among `legalMoves`: the first
      whose resulting position has the largest value. */
  function BestMove(s: State, legalMoves: seq<int>, depth: nat, player: Player): int
    requires depth >= 1 && NonNegative(s.pits)
    requires |legalMoves| > 0 && forall i :: 0 <= i < |legalMoves| ==> IsLegal(s, legalMoves[i])
  {
    var vals := ChildValues(s, legalMoves, depth - 1, player, false);
    legalMoves[FirstArgMax(vals, |vals|)]
  }

  // ---------------------------------------------------------------------
  // Minimax

  /** The value of the position move `i` leads to: the move is played on a
      copy of the position and the result searched one level shallower. */
  method ChildValue(s: State, moves: seq<int>, i: int, depth: nat, maxPlayer: Player, maximizing: bool)
    returns (c: int)
    requires NonNegative(s.pits)
    requires forall j :: 0 <= j < |moves| ==> IsLegal(s, moves[j])
    requires 0 <= i < |moves|
    ensures c == NthChildValue(s, moves, i, depth, maxPlayer, maximizing)
    decreases depth + 1, 0, 0
  {
    ChildValueAt(s, moves, depth, maxPlayer, maximizing, i);
    var r := ApplyMove(s, moves[i], false);
    if maximizing {
      c := MaxValue(r.value, depth, maxPlayer);
    } else {
      c := MinValue(r.value, depth, maxPlayer);
    }
  }

  /** Value of a max node: the largest value among the children. */
  method MaxValue(s: State, depth: nat, maxPlayer: Player) returns (v: int)
    requires NonNegative(s.pits) && (depth == 0 || Live(s))
    ensures v == MaxValueOf(s, depth, maxPlayer)
    decreases depth, PassMeasure(s), 2
  {
    if TerminalOrDepth(s, depth) {
      assert MaxValueOf(s, depth, maxPlayer) == Utility(s, maxPlayer);
      return Utility(s, maxPlayer);
    }
    var legal := LegalMoves(s, s.playerToMove);
    if legal == [] {
      var passed := s.(playerToMove := 1 - s.playerToMove);
      PassHandsOver(s);
      assert MaxValueOf(s, depth, maxPlayer) == MinValueOf(passed, depth, maxPlayer);
      v := MinValue(passed, depth, maxPlayer);
      return;
    }
    assert MaxValueOf(s, depth, maxPlayer) == MaxOverChildren(s, legal, depth - 1, maxPlayer);
    v := MaxOverMoves(s, legal, depth - 1, maxPlayer);
  }

  /** The loop of a max node: the largest of the values the moves lead to. */
  method MaxOverMoves(s: State, moves: seq<int>, depth: nat, maxPlayer: Player) returns (v: int)
    requires NonNegative(s.pits)
    requires |moves| > 0 && forall j :: 0 <= j < |moves| ==> IsLegal(s, moves[j])
    ensures v == MaxOverChildren(s, moves, depth, maxPlayer)
    decreases depth + 1, 0, 1
  {
    ghost var vals := ChildValues(s, moves, depth, maxPlayer, false);
    var best := NegInf;
    for i := 0 to |moves|
      invariant best == if i == 0 then NegInf else Fin(MaxOf(vals, i))
    {
      var c := ChildValue(s, moves, i, depth, maxPlayer, false);
      best := ExtMax(best, Fin(c));
    }
    v := best.n;
  }

  /** Value of a min node: the smallest value among the children. */
  method MinValue(s: State, depth: nat, maxPlayer: Player) returns (v: int)
    requires NonNegative(s.pits) && (depth == 0 || Live(s))
    ensures v == MinValueOf(s, depth, maxPlayer)
    decreases depth, PassMeasure(s), 2
  {
    if TerminalOrDepth(s, depth) {
      assert MinValueOf(s, depth, maxPlayer) == Utility(s, maxPlayer);
      return Utility(s, maxPlayer);
    }
    var legal := LegalMoves(s, s.playerToMove);
    if legal == [] {
      var passed := s.(playerToMove := 1 - s.playerToMove);
      PassHandsOver(s);
      assert MinValueOf(s, depth, maxPlayer) == MaxValueOf(passed, depth, maxPlayer);
      v := MaxValue(passed, depth, maxPlayer);
      return;
    }
    assert MinValueOf(s, depth, maxPlayer) == MinOverChildren(s, legal, depth - 1, maxPlayer);
    v := MinOverMoves(s, legal, depth - 1, maxPlayer);
  }

  /** The loop of a min node: the smallest of the values the moves lead to. */
  method MinOverMoves(s: State, moves: seq<int>, depth: nat, maxPlayer: Player) returns (v: int)
    requires NonNegative(s.pits)
    requires |moves| > 0 && forall j :: 0 <= j < |moves| ==> IsLegal(s, moves[j])
    ensures v == MinOverChildren(s, moves, depth, maxPlayer)
    decreases depth + 1, 0, 1
  {
    ghost var vals := ChildValues(s, moves, depth, maxPlayer, true);
    var best := PosInf;
    for i := 0 to |moves|
      invariant best == if i == 0 then PosInf else Fin(MinOf(vals, i))
    {
      var c := ChildValue(s, moves, i, depth, maxPlayer, true);
      best := ExtMin(best, Fin(c));
    }
    v := best.n;
  }

  /** Minimax policy: try every legal move, score the result with a
      depth-1-shorter min search, and keep the first best-scoring move. */
  method MinimaxPolicy(depth: nat, state: State, legalMoves: seq<int>, player: Player) returns (bestMove: int)
    requires depth >= 1 && NonNegative(state.pits)
    requires |legalMoves| > 0 && forall i :: 0 <= i < |legalMoves| ==> IsLegal(state, legalMoves[i])
    ensures bestMove in legalMoves
    ensures bestMove == BestMove(state, legalMoves, depth, player)
  {
    ghost var vals := ChildValues(state, legalMoves, depth - 1, player, false);
    var bestScore := NegInf;
    bestMove := legalMoves[0];
    ghost var k := 0;
    for i := 0 to |legalMoves|
      invariant ArgMaxScan(vals, i, bestScore, k) && bestMove == legalMoves[k]
    {
      var score := ChildValue(state, legalMoves, i, depth - 1, player, false);
      assert score == vals[i];
      ArgMaxScanStep(vals, i, bestScore, k);
      if Lt(bestScore, Fin(score)) {
        bestScore := Fin(score);
        bestMove := legalMoves[i];
        k := i;
      }
    }
  }

  // ---------------------------------------------------------------------
  // Alpha-beta

  /** The fail-soft contract of an alpha-beta search with window
      (alpha, beta) returning `r` where the exact minimax value is `v`:
      inside the window `r` is exact; below it `r` is an upper bound no
      higher than alpha; above it `r` is a lower bound no lower than beta. */
  predicate FailSoft(r: int, v: int, alpha: Ext, beta: Ext) {
    && (Le(Fin(v), alpha) ==> v <= r && Le(Fin(r), alpha))
    && (Lt(alpha, Fin(v)) && Lt(Fin(v), beta) ==> r == v)
    && (Le(beta, Fin(v)) ==> Le(beta, Fin(r)) && r <= v)
  }

  /** With the full window, as at the root of the search, a fail-soft
      answer is the exact value. */
  lemma FullWindowExact(r: int, v: int)
    requires FailSoft(r, v, NegInf, PosInf)
    ensures r == v
  {
  }

  /** What a max node's running value `best` knows about the exact maximum
      `exact` of the children seen so far. */
  predicate MaxWindow(alpha: Ext, best: Ext, exact: Ext) {
    && (Le(exact, alpha) ==> Le(exact, best) && Le(best, alpha))
    && (Lt(alpha, exact) ==> best == exact)
  }

  /** What a min node's running value `best` knows about the exact minimum
      `exact` of the children seen so far. */
  predicate MinWindow(beta: Ext, best: Ext, exact: Ext) {
    && (Le(beta, exact) ==> Le(best, exact) && Le(beta, best))
    && (Lt(exact, beta) ==> best == exact)
  }

  /** One child of a max node: a fail-soft child result either causes a beta
      cutoff that is a sound lower bound, or keeps the running value in step
      with the exact maximum. */
  lemma MaxNodeStep(alpha: Ext, beta: Ext, best: Ext, exact: Ext, c: int, v: int)
    requires Lt(alpha, beta) && Lt(best, beta) && MaxWindow(alpha, best, exact)
    requires FailSoft(c, v, ExtMax(alpha, best), beta)
    ensures Le(beta, ExtMax(best, Fin(c))) ==> Le(beta, Fin(c)) && c <= v
    ensures Lt(ExtMax(best, Fin(c)), beta) ==>
              MaxWindow(alpha, ExtMax(best, Fin(c)), ExtMax(exact, Fin(v)))
              && ExtMax(ExtMax(alpha, best), ExtMax(best, Fin(c))) == ExtMax(alpha, ExtMax(best, Fin(c)))
  {
  }

  /** One child of a min node, the mirror image of `MaxNodeStep`. */
  lemma MinNodeStep(alpha: Ext, beta: Ext, best: Ext, exact: Ext, c: int, v: int)
    requires Lt(alpha, beta) && Lt(alpha, best) && MinWindow(beta, best, exact)
    requires FailSoft(c, v, alpha, ExtMin(beta, best))
    ensures Le(ExtMin(best, Fin(c)), alpha) ==> Le(Fin(c), alpha) && v <= c
    ensures Lt(alpha, ExtMin(best, Fin(c))) ==>
              MinWindow(beta, ExtMin(best, Fin(c)), ExtMin(exact, Fin(v)))
              && ExtMin(ExtMin(beta, best), ExtMin(best, Fin(c))) == ExtMin(beta, ExtMin(best, Fin(c)))
  {
  }

  /** A value at or above beta that does not exceed the exact value is a
      fail-soft answer for it. */
  lemma CutoffAbove(alpha: Ext, beta: Ext, r: int, v: int)
    requires Lt(alpha, beta) && Le(beta, Fin(r)) && r <= v
    ensures FailSoft(r, v, alpha, beta)
  {
  }

  /** A value at or below alpha that is not below the exact value is a
      fail-soft answer for it. */
  lemma CutoffBelow(alpha: Ext, beta: Ext, r: int, v: int)
    requires Lt(alpha, beta) && Le(Fin(r), alpha) && v <= r
    ensures FailSoft(r, v, alpha, beta)
  {
  }

  /** A max node that saw every child without a cutoff answers fail-soft. */
  lemma MaxWindowDone(alpha: Ext, beta: Ext, best: Ext, v: int)
    requires Lt(alpha, beta) && best.Fin? && Lt(best, beta) && MaxWindow(alpha, best, Fin(v))
    ensures FailSoft(best.n, v, alpha, beta)
  {
  }

  /** A min node that saw every child without a cutoff answers fail-soft. */
  lemma MinWindowDone(alpha: Ext, beta: Ext, best: Ext, v: int)
    requires Lt(alpha, beta) && best.Fin? && Lt(alpha, best) && MinWindow(beta, best, Fin(v))
    ensures FailSoft(best.n, v, alpha, beta)
  {
  }

  /** The exact maximum of the first `i` children, minus infinity for none. */
  function PrefixMax(xs: seq<int>, i: int): Ext
    requires 0 <= i <= |xs|
  {
    if i == 0 then NegInf else Fin(MaxOf(xs, i))
  }

  /** The exact minimum of the first `i` children, plus infinity for none. */
  function PrefixMin(xs: seq<int>, i: int): Ext
    requires 0 <= i <= |xs|
  {
    if i == 0 then PosInf else Fin(MinOf(xs, i))
  }

  /** A max node has searched its first `i` children, whose exact values are
      `xs`, without a cutoff; `best` is its running value. */
  predicate MaxScan(xs: seq<int>, i: int, alpha: Ext, beta: Ext, best: Ext) {
    && 0 <= i <= |xs| && Lt(best, beta) && (i > 0 ==> best.Fin?)
    && MaxWindow(alpha, best, PrefixMax(xs, i))
  }

  /** A min node has searched its first `i` children, whose exact values are
      `xs`, without a cutoff; `best` is its running value. */
  predicate MinScan(xs: seq<int>, i: int, alpha: Ext, beta: Ext, best: Ext) {
    && 0 <= i <= |xs| && Lt(alpha, best) && (i > 0 ==> best.Fin?)
    && MinWindow(beta, best, PrefixMin(xs, i))
  }

  /** Child `i` of a max node searched with window (max(alpha, best), beta):
      either the new running value reaches beta, and it is then a fail-soft
      answer for the whole node, or the scan goes on with alpha raised. */
  lemma MaxScanStep(xs: seq<int>, i: int, alpha: Ext, beta: Ext, best: Ext, c: int)
    requires Lt(alpha, beta) && MaxScan(xs, i, alpha, beta, best) && i < |xs|
    requires FailSoft(c, xs[i], ExtMax(alpha, best), beta)
    ensures var next := ExtMax(best, Fin(c));
      && (Le(beta, next) ==> next == Fin(c) && FailSoft(c, MaxOf(xs, |xs|), alpha, beta))
      && (Lt(next, beta) ==> MaxScan(xs, i + 1, alpha, beta, next)
                             && ExtMax(ExtMax(alpha, best), next) == ExtMax(alpha, next))
  {
    MaxNodeStep(alpha, beta, best, PrefixMax(xs, i), c, xs[i]);
    assert PrefixMax(xs, i + 1) == ExtMax(PrefixMax(xs, i), Fin(xs[i]));
    if Le(beta, ExtMax(best, Fin(c))) {
      assert xs[i] <= MaxOf(xs, |xs|);
      CutoffAbove(alpha, beta, c, MaxOf(xs, |xs|));
    }
  }

  /** Child `i` of a min node searched with window (alpha, min(beta, best)),
      the mirror image of `MaxScanStep`. */
  lemma MinScanStep(xs: seq<int>, i: int, alpha: Ext, beta: Ext, best: Ext, c: int)
    requires Lt(alpha, beta) && MinScan(xs, i, alpha, beta, best) && i < |xs|
    requires FailSoft(c, xs[i], alpha, ExtMin(beta, best))
    ensures var next := ExtMin(best, Fin(c));
      && (Le(next, alpha) ==> next == Fin(c) && FailSoft(c, MinOf(xs, |xs|), alpha, beta))
      && (Lt(alpha, next) ==> MinScan(xs, i + 1, alpha, beta, next)
                              && ExtMin(ExtMin(beta, best), next) == ExtMin(beta, next))
  {
    MinNodeStep(alpha, beta, best, PrefixMin(xs, i), c, xs[i]);
    assert PrefixMin(xs, i + 1) == ExtMin(PrefixMin(xs, i), Fin(xs[i]));
    if Le(ExtMin(best, Fin(c)), alpha) {
      assert MinOf(xs, |xs|) <= xs[i];
      CutoffBelow(alpha, beta, c, MinOf(xs, |xs|));
    }
  }

  /** `ChildValue` for the alpha-beta search: the child is searched with the
      window (alpha, beta) and the result is fail-soft with respect to its value. */
  method AbChildValue(s: State, moves: seq<int>, i: int, depth: nat, maxPlayer: Player, maximizing: bool,
                      alpha: Ext, beta: Ext)
    returns (c: int)
    requires NonNegative(s.pits)
    requires forall j :: 0 <= j < |moves| ==> IsLegal(s, moves[j])
    requires 0 <= i < |moves| && Lt(alpha, beta)
    ensures FailSoft(c, NthChildValue(s, moves, i, depth, maxPlayer, maximizing), alpha, beta)
    decreases depth + 1, 0, 0
  {
    ChildValueAt(s, moves, depth, maxPlayer, maximizing, i);
    var r := ApplyMove(s, moves[i], false);
    if maximizing {
      c := AbMax(r.value, depth, maxPlayer, alpha, beta);
    } else {
      c := AbMin(r.value, depth, maxPlayer, alpha, beta);
    }
  }

  /** Alpha-beta max node, fail-soft. */
  method AbMax(s: State, depth: nat, maxPlayer: Player, alpha: Ext, beta: Ext) returns (v: int)
    requires NonNegative(s.pits) && (depth == 0 || Live(s)) && Lt(alpha, beta)
    ensures FailSoft(v, MaxValueOf(s, depth, maxPlayer), alpha, beta)
    decreases depth, PassMeasure(s), 2
  {
    if TerminalOrDepth(s, depth) {
      assert MaxValueOf(s, depth, maxPlayer) == Utility(s, maxPlayer);
      return Utility(s, maxPlayer);
    }
    var legal := LegalMoves(s, s.playerToMove);
    if legal == [] {
      var passed := s.(playerToMove := 1 - s.playerToMove);
      PassHandsOver(s);
      assert MaxValueOf(s, depth, maxPlayer) == MinValueOf(passed, depth, maxPlayer);
      v := AbMin(passed, depth, maxPlayer, alpha, beta);
      return;
    }
    assert MaxValueOf(s, depth, maxPlayer) == MaxOverChildren(s, legal, depth - 1, maxPlayer);
    v := AbMaxOverMoves(s, legal, depth - 1, maxPlayer, alpha, beta);
  }

  /** The loop of an alpha-beta max node: raises alpha as children are
      searched and stops as soon as the running value reaches beta. */
  method AbMaxOverMoves(s: State, moves: seq<int>, depth: nat, maxPlayer: Player, alpha: Ext, beta: Ext)
    returns (v: int)
    requires NonNegative(s.pits) && Lt(alpha, beta)
    requires |moves| > 0 && forall j :: 0 <= j < |moves| ==> IsLegal(s, moves[j])
    ensures FailSoft(v, MaxOverChildren(s, moves, depth, maxPlayer), alpha, beta)
    decreases depth + 1, 0, 1
  {
    ghost var vals := ChildValues(s, moves, depth, maxPlayer, false);
    var a := alpha;
    var best := NegInf;
    for i := 0 to |moves|
      invariant a == ExtMax(alpha, best) && MaxScan(vals, i, alpha, beta, best)
    {
      var c := AbChildValue(s, moves, i, depth, maxPlayer, false, a, beta);
      MaxScanStep(vals, i, alpha, beta, best, c);
      best := ExtMax(best, Fin(c));
      if Le(beta, best) {
        return best.n;
      }
      a := ExtMax(a, best);
    }
    MaxWindowDone(alpha, beta, best, MaxOf(vals, |vals|));
    v := best.n;
  }

  /** Alpha-beta min node, fail-soft. */
  method AbMin(s: State, depth: nat, maxPlayer: Player, alpha: Ext, beta: Ext) returns (v: int)
    requires NonNegative(s.pits) && (depth == 0 || Live(s)) && Lt(alpha, beta)
    ensures FailSoft(v, MinValueOf(s, depth, maxPlayer), alpha, beta)
    decreases depth, PassMeasure(s), 2
  {
    if TerminalOrDepth(s, depth) {
      assert MinValueOf(s, depth, maxPlayer) == Utility(s, maxPlayer);
      return Utility(s, maxPlayer);
    }
    var legal := LegalMoves(s, s.playerToMove);
    if legal == [] {
      var passed := s.(playerToMove := 1 - s.playerToMove);
      PassHandsOver(s);
      assert MinValueOf(s, depth, maxPlayer) == MaxValueOf(passed, depth, maxPlayer);
      v := AbMax(passed, depth, maxPlayer, alpha, beta);
      return;
    }
    assert MinValueOf(s, depth, maxPlayer) == MinOverChildren(s, legal, depth - 1, maxPlayer);
    v := AbMinOverMoves(s, legal, depth - 1, maxPlayer, alpha, beta);
  }

  /** The loop of an alpha-beta min node: lowers beta as children are
      searched and stops as soon as the running value reaches alpha. */
  method AbMinOverMoves(s: State, moves: seq<int>, depth: nat, maxPlayer: Player, alpha: Ext, beta: Ext)
    returns (v: int)
    requires NonNegative(s.pits) && Lt(alpha, beta)
    requires |moves| > 0 && forall j :: 0 <= j < |moves| ==> IsLegal(s, moves[j])
    ensures FailSoft(v, MinOverChildren(s, moves, depth, maxPlayer), alpha, beta)
    decreases depth + 1, 0, 1
  {
    ghost var vals := ChildValues(s, moves, depth, maxPlayer, true);
    var b := beta;
    var best := PosInf;
    for i := 0 to |moves|
      invariant b == ExtMin(beta, best) && MinScan(vals, i, alpha, beta, best)
    {
      var c := AbChildValue(s, moves, i, depth, maxPlayer, true, alpha, b);
      MinScanStep(vals, i, alpha, beta, best, c);
      best := ExtMin(best, Fin(c));
      if Le(best, alpha) {
        return best.n;
      }
      b := ExtMin(b, best);
    }
    MinWindowDone(alpha, beta, best, MinOf(vals, |vals|));
    v := best.n;
  }

  /** Alpha-beta policy: like the minimax policy, but each candidate is
      searched with the window (best score so far, +infinity). It picks the
      same move as the minimax policy. */
  method AlphaBetaPolicy(depth: nat, state: State, legalMoves: seq<int>, player: Player) returns (bestMove: int)
    requires depth >= 1 && NonNegative(state.pits)
    requires |legalMoves| > 0 && forall i :: 0 <= i < |legalMoves| ==> IsLegal(state, legalMoves[i])
    ensures bestMove in legalMoves
    ensures bestMove == BestMove(state, legalMoves, depth, player)
  {
    ghost var vals := ChildValues(state, legalMoves, depth - 1, player, false);
    var alpha, beta := NegInf, PosInf;
    var bestScore := NegInf;
    bestMove := legalMoves[0];
    ghost var k := 0;
    for i := 0 to |legalMoves|
      invariant alpha == bestScore
      invariant ArgMaxScan(vals, i, bestScore, k) && bestMove == legalMoves[k]
    {
      var score := AbChildValue(state, legalMoves, i, depth - 1, player, false, alpha, beta);
      ArgMaxScanStep(vals, i, bestScore, k);
      if Lt(bestScore, Fin(score)) {
        bestScore := Fin(score);
        bestMove := legalMoves[i];
        k := i;
      }
      alpha := ExtMax(alpha, bestScore);
    }
  }
}

/** Exhaustive game-tree search. MaxScore and MinScore define the value of a
    board for the player who maximises (X) and the one who minimises (O); the
    methods MaxValue, MinValue and Minimax compute them with the loops of the
    original search and are proved against them. Moves are tried in row-major
    order, the order Actions produces. */
module Minimax {
  import opened TicTacToe

  /** The board after the legal move a. */
  function Child(b: Board, a: Action): (c: Board)
    requires Legal(b, a)
    ensures Count(c, Empty) == Count(b, Empty) - 1
  {
    ResultPlacesMark(b, a);
    Result(b, a).value
  }

  predicate AllLegal(b: Board, acts: seq<Action>) {
    forall p | 0 <= p < |acts| :: Legal(b, acts[p])
  }

  // ---------------------------------------------------------------- the folds

  /** Every entry is a game score: -1, 0 or 1. */
  predicate AllScores(s: seq<int>) {
    forall p | 0 <= p < |s| :: -1 <= s[p] <= 1
  }

  /** The largest of the first n scores; -2, below every score, when n is 0. */
  function MaxOf(s: seq<int>, n: nat): int
    requires n <= |s|
  {
    if n == 0 then -2
    else
      var v := MaxOf(s, n - 1);
      if s[n - 1] > v then s[n - 1] else v
  }

  /** The smallest of the first n scores; 2, above every score, when n is 0. */
  function MinOf(s: seq<int>, n: nat): int
    requires n <= |s|
  {
    if n == 0 then 2
    else
      var v := MinOf(s, n - 1);
      if s[n - 1] < v then s[n - 1] else v
  }

  /** MaxOf bounds the first n scores and, when n > 0, is one of them. */
  lemma {:induction false} MaxOfIsMax(s: seq<int>, n: nat)
    requires n <= |s| && AllScores(s)
    ensures forall p | 0 <= p < n :: s[p] <= MaxOf(s, n)
    ensures n > 0 ==> exists p | 0 <= p < n :: s[p] == MaxOf(s, n)
    ensures n == 0 ==> MaxOf(s, n) == -2
  {
    if n > 0 {
      MaxOfIsMax(s, n - 1);
      if n == 1 || s[n - 1] > MaxOf(s, n - 1) {
        assert s[n - 1] == MaxOf(s, n);
      }
    }
  }

  /** MinOf bounds the first n scores from below and, when n > 0, is one of them. */
  lemma {:induction false} MinOfIsMin(s: seq<int>, n: nat)
    requires n <= |s| && AllScores(s)
    ensures forall p | 0 <= p < n :: MinOf(s, n) <= s[p]
    ensures n > 0 ==> exists p | 0 <= p < n :: s[p] == MinOf(s, n)
    ensures n == 0 ==> MinOf(s, n) == 2
  {
    if n > 0 {
      MinOfIsMin(s, n - 1);
      if n == 1 || s[n - 1] < MinOf(s, n - 1) {
        assert s[n - 1] == MinOf(s, n);
      }
    }
  }

  /** The best of at least one score in [-1, 1] is in [-1, 1]. */
  lemma OfScoresIsScore(s: seq<int>)
    requires |s| > 0 && AllScores(s)
    ensures -1 <= MaxOf(s, |s|) <= 1 && -1 <= MinOf(s, |s|) <= 1
  {
    MaxOfIsMax(s, |s|);
    MinOfIsMin(s, |s|);
  }

  /** Among the first n scores, k is the first index where MaxOf is reached
      (k is 0 when n is 0). */
  ghost predicate FirstMaxAt(s: seq<int>, n: nat, k: nat)
    requires n <= |s|
  {
    && k <= n
    && (n > 0 ==> k < n && s[k] == MaxOf(s, n))
    && (forall q | 0 <= q < k :: s[q] < MaxOf(s, n))
  }

  /** Among the first n scores, k is the first index where MinOf is reached
      (k is 0 when n is 0). */
  ghost predicate FirstMinAt(s: seq<int>, n: nat, k: nat)
    requires n <= |s|
  {
    && k <= n
    && (n > 0 ==> k < n && s[k] == MinOf(s, n))
    && (forall q | 0 <= q < k :: MinOf(s, n) < s[q])
  }

  /** Moving to score n only when it beats the maximum so far keeps the
      first maximum. */
  lemma FirstMaxStep(s: seq<int>, n: nat, k: nat)
    requires n < |s| && AllScores(s) && FirstMaxAt(s, n, k)
    ensures FirstMaxAt(s, n + 1, if s[n] > MaxOf(s, n) then n else k)
  {
    MaxOfIsMax(s, n);
  }

  /** Moving to score n only when it is below the minimum so far keeps the
      first minimum. */
  lemma FirstMinStep(s: seq<int>, n: nat, k: nat)
    requires n < |s| && AllScores(s) && FirstMinAt(s, n, k)
    ensures FirstMinAt(s, n + 1, if s[n] < MinOf(s, n) then n else k)
  {
    MinOfIsMin(s, n);
  }

  /** The first maximum of all the scores is at least every score and above
      every score before it. */
  lemma FirstMaxIsFirstLargest(s: seq<int>, k: nat)
    requires |s| > 0 && AllScores(s) && FirstMaxAt(s, |s|, k)
    ensures k < |s| && s[k] == MaxOf(s, |s|)
    ensures forall q | 0 <= q < |s| :: s[q] <= s[k]
    ensures forall q | 0 <= q < k :: s[q] < s[k]
  {
    MaxOfIsMax(s, |s|);
  }

  /** The first minimum of all the scores is at most every score and below
      every score before it. */
  lemma FirstMinIsFirstSmallest(s: seq<int>, k: nat)
    requires |s| > 0 && AllScores(s) && FirstMinAt(s, |s|, k)
    ensures k < |s| && s[k] == MinOf(s, |s|)
    ensures forall q | 0 <= q < |s| :: s[k] <= s[q]
    ensures forall q | 0 <= q < k :: s[k] < s[q]
  {
    MinOfIsMin(s, |s|);
  }

  // ---------------------------------------------------------------- the scores

  /** The best score X can force from b, O replying as well as it can. */
  function MaxScore(b: Board): (v: int)
    ensures -1 <= v <= 1
    decreases Count(b, Empty), 2
  {
    if Terminal(b) then Utility(b)
    else
      var s := XScores(b, ActionList(b));
      OfScoresIsScore(s);
      MaxOf(s, |s|)
  }

  /** The best score O can force from b, X replying as well as it can. */
  function MinScore(b: Board): (v: int)
    ensures -1 <= v <= 1
    decreases Count(b, Empty), 2
  {
    if Terminal(b) then Utility(b)
    else
      var s := OScores(b, ActionList(b));
      OfScoresIsScore(s);
      MinOf(s, |s|)
  }

  /** The score X expects after playing a: O's best answer to it. */
  function XScore(b: Board, a: Action): (v: int)
    requires Legal(b, a)
    ensures -1 <= v <= 1
    decreases Count(b, Empty), 0
  {
    MinScore(Child(b, a))
  }

  /** The score O expects after playing a: X's best answer to it. */
  function OScore(b: Board, a: Action): (v: int)
    requires Legal(b, a)
    ensures -1 <= v <= 1
    decreases Count(b, Empty), 0
  {
    MaxScore(Child(b, a))
  }

  /** XScore of each move of acts, in order. */
  function XScores(b: Board, acts: seq<Action>): (s: seq<int>)
    requires AllLegal(b, acts)
    ensures |s| == |acts|
    ensures AllScores(s)
    decreases Count(b, Empty), 1
  {
    seq(|acts|, p requires 0 <= p < |acts| => XScore(b, acts[p]))
  }

  /** OScore of each move of acts, in order. */
  function OScores(b: Board, acts: seq<Action>): (s: seq<int>)
    requires AllLegal(b, acts)
    ensures |s| == |acts|
    ensures AllScores(s)
    decreases Count(b, Empty), 1
  {
    seq(|acts|, p requires 0 <= p < |acts| => OScore(b, acts[p]))
  }

  /** At the end of the game both scores are the utility of the board. */
  lemma ScoresAtTerminal(b: Board)
    requires Terminal(b)
    ensures MaxScore(b) == Utility(b) && MinScore(b) == Utility(b)
  {
  }

  /** MaxScore of a board still in play is the largest XScore of its moves. */
  lemma MaxScoreIsBestChild(b: Board)
    requires !Terminal(b)
    ensures forall a | Legal(b, a) :: XScore(b, a) <= MaxScore(b)
    ensures exists a | Legal(b, a) :: XScore(b, a) == MaxScore(b)
  {
    var acts := ActionList(b);
    var s := XScores(b, acts);
    ActionListIsLegalMoves(b);
    MaxOfIsMax(s, |s|);
    forall a | Legal(b, a)
      ensures XScore(b, a) <= MaxScore(b)
    {
      var p :| 0 <= p < |acts| && acts[p] == a;
      assert s[p] == XScore(b, a);
    }
    var p :| 0 <= p < |s| && s[p] == MaxScore(b);
    assert XScore(b, acts[p]) == s[p];
  }

  /** MinScore of a board still in play is the smallest OScore of its moves. */
  lemma MinScoreIsBestChild(b: Board)
    requires !Terminal(b)
    ensures forall a | Legal(b, a) :: MinScore(b) <= OScore(b, a)
    ensures exists a | Legal(b, a) :: OScore(b, a) == MinScore(b)
  {
    var acts := ActionList(b);
    var s := OScores(b, acts);
    ActionListIsLegalMoves(b);
    MinOfIsMin(s, |s|);
    forall a | Legal(b, a)
      ensures MinScore(b) <= OScore(b, a)
    {
      var p :| 0 <= p < |acts| && acts[p] == a;
      assert s[p] == OScore(b, a);
    }
    var p :| 0 <= p < |s| && s[p] == MinScore(b);
    assert OScore(b, acts[p]) == s[p];
  }

  /** A move that wins on the spot is worth 1 to X, and then so is the board. */
  lemma XWinningMove(b: Board, a: Action)
    requires !Terminal(b) && Legal(b, a) && Winner(Child(b, a)) == Some(X)
    ensures XScore(b, a) == 1 && MaxScore(b) == 1
  {
    MaxScoreIsBestChild(b);
  }

  /** A move that wins on the spot is worth -1 to O, and then so is the board. */
  lemma OWinningMove(b: Board, a: Action)
    requires !Terminal(b) && Legal(b, a) && Winner(Child(b, a)) == Some(O)
    ensures OScore(b, a) == -1 && MinScore(b) == -1
  {
    MinScoreIsBestChild(b);
  }

  // ---------------------------------------------------------------- max_value, min_value

  /** The board the n-th move of acts leads to has one empty cell fewer, and
      its MinScore is the n-th score for X. */
  lemma XScoreOfResult(b: Board, acts: seq<Action>, n: int)
    requires AllLegal(b, acts) && 0 <= n < |acts|
    ensures Result(b, acts[n]).Ok? && XScores(b, acts)[n] == MinScore(Result(b, acts[n]).value)
    ensures Count(Result(b, acts[n]).value, Empty) < Count(b, Empty)
  {
    assert Child(b, acts[n]) == Result(b, acts[n]).value;
  }

  /** The board the n-th move of acts leads to has one empty cell fewer, and
      its MaxScore is the n-th score for O. */
  lemma OScoreOfResult(b: Board, acts: seq<Action>, n: int)
    requires AllLegal(b, acts) && 0 <= n < |acts|
    ensures Result(b, acts[n]).Ok? && OScores(b, acts)[n] == MaxScore(Result(b, acts[n]).value)
    ensures Count(Result(b, acts[n]).value, Empty) < Count(b, Empty)
  {
    assert Child(b, acts[n]) == Result(b, acts[n]).value;
  }

  /** The value of b for X, computed as the original search does: the utility
      of a finished game, otherwise the largest MinValue over the moves. */
  method MaxValue(b: Board) returns (v: int)
    ensures v == MaxScore(b)
    ensures -1 <= v <= 1
    decreases Count(b, Empty), 2
  {
    if Terminal(b) {
      return Utility(b);
    }
    v := -2;
    var acts := Actions(b);
    ghost var scores := XScores(b, acts);
    for n := 0 to |acts|
      invariant v == MaxOf(scores, n)
    {
      var next := Result(b, acts[n]);
      XScoreOfResult(b, acts, n);
      var s := MinValue(next.value);
      assert s == scores[n];
      v := if s > v then s else v;
    }
  }

  /** The value of b for O, computed as the original search does: the utility
      of a finished game, otherwise the smallest MaxValue over the moves. */
  method MinValue(b: Board) returns (v: int)
    ensures v == MinScore(b)
    ensures -1 <= v <= 1
    decreases Count(b, Empty), 2
  {
    if Terminal(b) {
      return Utility(b);
    }
    v := 2;
    var acts := Actions(b);
    ghost var scores := OScores(b, acts);
    for n := 0 to |acts|
      invariant v == MinOf(scores, n)
    {
      var next := Result(b, acts[n]);
      OScoreOfResult(b, acts, n);
      var s := MaxValue(next.value);
      assert s == scores[n];
      v := if s < v then s else v;
    }
  }

  // ---------------------------------------------------------------- minimax

  /** For X: the move at index k of acts is the first one whose score is the
      largest of all. */
  ghost predicate FirstBestForX(b: Board, acts: seq<Action>, k: int)
    requires AllLegal(b, acts)
  {
    && 0 <= k < |acts|
    && (forall q | 0 <= q < |acts| :: XScore(b, acts[q]) <= XScore(b, acts[k]))
    && (forall q | 0 <= q < k :: XScore(b, acts[q]) < XScore(b, acts[k]))
  }

  /** For O: the move at index k of acts is the first one whose score is the
      smallest of all. */
  ghost predicate FirstBestForO(b: Board, acts: seq<Action>, k: int)
    requires AllLegal(b, acts)
  {
    && 0 <= k < |acts|
    && (forall q | 0 <= q < |acts| :: OScore(b, acts[k]) <= OScore(b, acts[q]))
    && (forall q | 0 <= q < k :: OScore(b, acts[k]) < OScore(b, acts[q]))
  }

  /** The first best index of the scores of the moves of b is a first best
      move for X, and its score is the value of b. */
  lemma FirstBestFromScoresX(b: Board, k: nat)
    requires !Terminal(b) && k < |ActionList(b)|
    requires FirstMaxAt(XScores(b, ActionList(b)), |ActionList(b)|, k)
    ensures FirstBestForX(b, ActionList(b), k)
    ensures XScore(b, ActionList(b)[k]) == MaxScore(b)
  {
    var acts := ActionList(b);
    var s := XScores(b, acts);
    FirstMaxIsFirstLargest(s, k);
    assert forall q | 0 <= q < |acts| :: s[q] == XScore(b, acts[q]);
  }

  /** The search loop of minimax for X: scores every move with MinValue and
      keeps the first strictly better one; the score kept is the best. */
  method SearchForX(b: Board, acts: seq<Action>) returns (k: nat, bestScore: int)
    requires AllLegal(b, acts) && |acts| > 0
    ensures k < |acts| && FirstMaxAt(XScores(b, acts), |acts|, k)
    ensures bestScore == MaxOf(XScores(b, acts), |acts|)
  {
    ghost var scores := XScores(b, acts);
    bestScore := -2;
    k := 0;
    for n := 0 to |acts|
      invariant bestScore == MaxOf(scores, n)
      invariant FirstMaxAt(scores, n, k)
    {
      XScoreOfResult(b, acts, n);
      var score := MinValue(Result(b, acts[n]).value);
      FirstMaxStep(scores, n, k);
      if score > bestScore {
        bestScore := score;
        k := n;
      }
    }
  }

  /** The first best index of the scores of the moves of b is a first best
      move for O, and its score is the value of b. */
  lemma FirstBestFromScoresO(b: Board, k: nat)
    requires !Terminal(b) && k < |ActionList(b)|
    requires FirstMinAt(OScores(b, ActionList(b)), |ActionList(b)|, k)
    ensures FirstBestForO(b, ActionList(b), k)
    ensures OScore(b, ActionList(b)[k]) == MinScore(b)
  {
    var acts := ActionList(b);
    var s := OScores(b, acts);
    FirstMinIsFirstSmallest(s, k);
    assert forall q | 0 <= q < |acts| :: s[q] == OScore(b, acts[q]);
  }

  /** The search loop of minimax for O: scores every move with MaxValue and
      keeps the first strictly better one; the score kept is the best. */
  method SearchForO(b: Board, acts: seq<Action>) returns (k: nat, bestScore: int)
    requires AllLegal(b, acts) && |acts| > 0
    ensures k < |acts| && FirstMinAt(OScores(b, acts), |acts|, k)
    ensures bestScore == MinOf(OScores(b, acts), |acts|)
  {
    ghost var scores := OScores(b, acts);
    bestScore := 2;
    k := 0;
    for n := 0 to |acts|
      invariant bestScore == MinOf(scores, n)
      invariant FirstMinAt(scores, n, k)
    {
      OScoreOfResult(b, acts, n);
      var score := MaxValue(Result(b, acts[n]).value);
      FirstMinStep(scores, n, k);
      if score < bestScore {
        bestScore := score;
        k := n;
      }
    }
  }

  /** No move is returned once the game is over. Otherwise the move returned
      is a legal one; for X it is the first move, in row-major order, whose
      score is the largest, for O the first whose score is the smallest, and
      that score is the value of the board for the player to move. */
  method Minimax(b: Board) returns (move: Option<Action>)
    ensures move.None? <==> Terminal(b)
    ensures move.Some? ==> move.value in ActionList(b) && Legal(b, move.value)
    ensures move.Some? && Player(b) == X ==>
      && XScore(b, move.value) == MaxScore(b)
      && exists k :: FirstBestForX(b, ActionList(b), k) && ActionList(b)[k] == move.value
    ensures move.Some? && Player(b) == O ==>
      && OScore(b, move.value) == MinScore(b)
      && exists k :: FirstBestForO(b, ActionList(b), k) && ActionList(b)[k] == move.value
  {
    if Terminal(b) {
      return None;
    }
    var currentPlayer := Player(b);
    var acts := Actions(b);
    if currentPlayer == X {
      var k, bestScore := SearchForX(b, acts);
      FirstBestFromScoresX(b, k);
      move := Some(acts[k]);
    } else {
      var k, bestScore := SearchForO(b, acts);
      FirstBestFromScoresO(b, k);
      move := Some(acts[k]);
    }
  }
}

/** Alpha-beta search of engine/src/search.rs over an abstract game. */
module Search {
  import opened Common

  const MATE_SCORE := 30000
  const MAX_DEPTH := 64
  /** Scores beyond this magnitude announce a mate. */
  const MATE_RANGE := MATE_SCORE - 1000

  type Position(==, !new, 0)
  type Move(==, !new, 0)

  /** The rules: what shakmaty and the evaluator answer about a position. */
  datatype Game = Game(
    checkmate: Position -> bool,
    drawn: Position -> bool,
    eval: Position -> int,
    moves: Position -> seq<Move>,
    play: (Position, Move) -> Position)

  predicate Terminal(g: Game, p: Position, depth: nat) {
    g.checkmate(p) || g.drawn(p) || depth == 0 || g.moves(p) == []
  }

  function TerminalScore(g: Game, p: Position): int {
    if g.checkmate(p) then -MATE_SCORE + 1 else if g.drawn(p) then 0 else g.eval(p)
  }

  function Child(g: Game, p: Position, i: nat): Position
    requires i < |g.moves(p)|
  {
    g.play(p, g.moves(p)[i])
  }

  // ---------- plain minimax, the reference ----------

  /** Score of p for the side to move under best play, looking depth plies ahead; nothing pruned. */
  function Minimax(g: Game, p: Position, depth: nat): int
    decreases depth, |g.moves(p)| + 1
  {
    if Terminal(g, p, depth) then TerminalScore(g, p) else BestOf(g, p, depth, |g.moves(p)|)
  }

  /** Value of move i for the side to move. */
  function MoveValue(g: Game, p: Position, depth: nat, i: nat): int
    requires depth > 0 && i < |g.moves(p)|
    decreases depth, 0
  {
    -Minimax(g, Child(g, p, i), depth - 1)
  }

  /** The best value among the first n moves. */
  function BestOf(g: Game, p: Position, depth: nat, n: nat): (best: int)
    requires depth > 0 && 0 < n <= |g.moves(p)|
    ensures forall i | 0 <= i < n :: MoveValue(g, p, depth, i) <= best
    ensures exists i :: 0 <= i < n && MoveValue(g, p, depth, i) == best
    decreases depth, n
  {
    var last := MoveValue(g, p, depth, n - 1);
    if n == 1 then last else Max(BestOf(g, p, depth, n - 1), last)
  }

  /** Positions the unpruned search enters. */
  function FullNodes(g: Game, p: Position, depth: nat): (n: nat)
    ensures n >= 1
    decreases depth, |g.moves(p)| + 1
  {
    if Terminal(g, p, depth) then 1 else 1 + NodesOf(g, p, depth, |g.moves(p)|)
  }

  function NodesOf(g: Game, p: Position, depth: nat, n: nat): nat
    requires depth > 0 && n <= |g.moves(p)|
    decreases depth, n
  {
    if n == 0 then 0 else NodesOf(g, p, depth, n - 1) + FullNodes(g, Child(g, p, n - 1), depth - 1)
  }

  lemma {:induction false} NodesGrow(g: Game, p: Position, depth: nat, i: nat, n: nat)
    requires depth > 0 && i <= n <= |g.moves(p)|
    ensures NodesOf(g, p, depth, i) <= NodesOf(g, p, depth, n)
    decreases n
  {
    if i < n { NodesGrow(g, p, depth, i, n - 1); }
  }

  /** No checkmate within the horizon, and every horizon score outside the mate range. */
  ghost predicate Quiet(g: Game, p: Position, depth: nat) {
    && !g.checkmate(p)
    && (Terminal(g, p, depth) ==> -MATE_RANGE <= TerminalScore(g, p) <= MATE_RANGE)
    && (!Terminal(g, p, depth) ==> forall i | 0 <= i < |g.moves(p)| :: Quiet(g, Child(g, p, i), depth - 1))
  }

  lemma {:induction false} QuietScore(g: Game, p: Position, depth: nat)
    requires Quiet(g, p, depth)
    ensures -MATE_RANGE <= Minimax(g, p, depth) <= MATE_RANGE
  {
    if !Terminal(g, p, depth) {
      forall i | 0 <= i < |g.moves(p)| ensures -MATE_RANGE <= MoveValue(g, p, depth, i) <= MATE_RANGE {
        QuietScore(g, Child(g, p, i), depth - 1);
      }
    }
  }

  /** Every horizon score that is no checkmate lies inside the mate range. */
  ghost predicate Calm(g: Game, p: Position, depth: nat) {
    && (Terminal(g, p, depth) && !g.checkmate(p) ==> -MATE_RANGE < TerminalScore(g, p) < MATE_RANGE)
    && (!Terminal(g, p, depth) ==> forall i | 0 <= i < |g.moves(p)| :: Calm(g, Child(g, p, i), depth - 1))
  }

  /** A minimax score that announces nothing, or is the score of a checkmate for one side. */
  predicate MateOrInside(score: int) {
    -MATE_RANGE < score < MATE_RANGE || score == MATE_SCORE - 1 || score == 1 - MATE_SCORE
  }

  lemma {:induction false} CalmScore(g: Game, p: Position, depth: nat)
    requires Calm(g, p, depth)
    ensures MateOrInside(Minimax(g, p, depth))
  {
    if !Terminal(g, p, depth) {
      forall i | 0 <= i < |g.moves(p)| ensures MateOrInside(MoveValue(g, p, depth, i)) {
        CalmScore(g, Child(g, p, i), depth - 1);
      }
    }
  }

  // ---------- scores up to mate distance ----------

  /** A score with all winning mates identified, and all losing ones. */
  function Clamp(x: int): int {
    if x > MATE_RANGE then MATE_RANGE else if x < -MATE_RANGE then -MATE_RANGE else x
  }

  function Taper(best: int): int {
    if best > MATE_SCORE - 1000 then best - 1 else if best < -MATE_SCORE + 1000 then best + 1 else best
  }

  /** v answers a search for the exact score s in the window (alpha, beta), up to mate distance. */
  ghost predicate Answers(v: int, s: int, alpha: int, beta: int) {
    && (v <= alpha ==> Clamp(s) <= Clamp(v))
    && (v >= beta ==> Clamp(s) >= Clamp(v))
    && (alpha < v < beta ==> Clamp(s) == Clamp(v))
  }

  /** Tapering may carry a mate score across the window, but never beyond what Clamp hides. */
  lemma TaperAnswers(raw: int, s: int, alpha: int, beta: int)
    requires alpha < beta && Answers(raw, s, alpha, beta)
    ensures Answers(Taper(raw), s, alpha, beta)
  {
  }

  /** moves[at] is a best move, and no earlier move is as good. */
  ghost predicate FirstBest(g: Game, p: Position, depth: nat, at: int) {
    && depth > 0 && 0 <= at < |g.moves(p)|
    && MoveValue(g, p, depth, at) == Minimax(g, p, depth)
    && forall i | 0 <= i < at :: MoveValue(g, p, depth, i) < Minimax(g, p, depth)
  }

  function MoveValues(g: Game, p: Position, depth: nat): seq<int>
    requires depth > 0
  {
    seq(|g.moves(p)|, i requires 0 <= i < |g.moves(p)| => MoveValue(g, p, depth, i))
  }

  /** What trying the first n moves, of values t, tells: `best` is the highest score, first reached at `at`. */
  ghost predicate Tried(t: seq<int>, n: nat, alpha0: int, beta: int, best: int, at: int)
    requires n <= |t|
  {
    && (best < beta ==> forall i | 0 <= i < n :: Clamp(t[i]) <= Clamp(best))
    && (best > alpha0 ==>
          && 0 <= at < n
          && Clamp(t[at]) >= Clamp(best)
          && forall i | 0 <= i < at :: Clamp(t[i]) <= Clamp(best - 1))
  }

  /** One more move, answered in the current window. */
  lemma TryMove(t: seq<int>, n: nat, alpha0: int, beta: int, best: int, at: int, c: int)
    requires n < |t| && alpha0 < beta && best < beta
    requires Tried(t, n, alpha0, beta, best, at)
    requires Answers(c, t[n], Max(alpha0, best), beta)
    ensures Tried(t, n + 1, alpha0, beta, Max(best, c), if c > best then n else at)
  {
    if c > best {
      assert Clamp(best) <= Clamp(c - 1) <= Clamp(c);
    } else {
      assert Clamp(t[n]) <= Clamp(c) <= Clamp(best);
    }
  }

  /** Negating an answer and its window. */
  lemma Flip(v: int, s: int, alpha: int, beta: int)
    requires Answers(v, s, -beta, -alpha)
    ensures Answers(-v, -s, alpha, beta)
  {
  }

  lemma AllTried(g: Game, p: Position, depth: nat, n: nat, alpha0: int, beta: int, best: int, at: int)
    requires !Terminal(g, p, depth) && n <= |g.moves(p)| && alpha0 < beta
    requires Tried(MoveValues(g, p, depth), n, alpha0, beta, best, at)
    requires best < beta ==> n == |g.moves(p)|
    ensures Answers(best, Minimax(g, p, depth), alpha0, beta)
    ensures Tried(MoveValues(g, p, depth), |g.moves(p)|, alpha0, beta, best, at)
  {
    var t := MoveValues(g, p, depth);
    var k :| 0 <= k < |t| && MoveValue(g, p, depth, k) == Minimax(g, p, depth);
    assert t[k] == Minimax(g, p, depth);
    assert best > alpha0 ==> t[at] == MoveValue(g, p, depth, at);
  }

  /** At the root, a raw score that names no mate is the minimax score, first reached by move `at`. */
  lemma RootMove(g: Game, p: Position, depth: nat, raw: int, at: int)
    requires !Terminal(g, p, depth) && Answers(raw, Minimax(g, p, depth), -MATE_SCORE, MATE_SCORE)
    requires Tried(MoveValues(g, p, depth), |g.moves(p)|, -MATE_SCORE, MATE_SCORE, raw, at)
    requires Quiet(g, p, depth) || -MATE_RANGE < Minimax(g, p, depth) < MATE_RANGE
    requires Quiet(g, p, depth) ==> -MATE_RANGE <= raw <= MATE_RANGE && (at > 0 ==> raw > -MATE_RANGE)
    ensures raw == Minimax(g, p, depth) == Taper(raw) && FirstBest(g, p, depth, at)
  {
    var t := MoveValues(g, p, depth);
    if Quiet(g, p, depth) {
      QuietScore(g, p, depth);
      forall i | 0 <= i < |t| ensures t[i] >= -MATE_RANGE {
        QuietScore(g, Child(g, p, i), depth - 1);
      }
    }
    forall i | 0 <= i < at ensures MoveValue(g, p, depth, i) < raw {
      assert t[i] == MoveValue(g, p, depth, i);
      assert MoveValue(g, p, depth, i) <= Minimax(g, p, depth);
    }
    assert t[at] == MoveValue(g, p, depth, at);
  }

  // ---------- one ply ----------

  /** The best score after the first n moves at depth one. */
  function BestSoFar(g: Game, p: Position, n: nat): int
    requires n <= |g.moves(p)|
  {
    if n == 0 then -MATE_SCORE else Max(-MATE_SCORE, BestOf(g, p, 1, n))
  }

  lemma BestSoFarNext(g: Game, p: Position, n: nat, score: int)
    requires n < |g.moves(p)| && score == MoveValue(g, p, 1, n)
    ensures BestSoFar(g, p, n + 1) == Max(BestSoFar(g, p, n), score)
  {
  }

  lemma {:induction false} BestSoFarAtMost(g: Game, p: Position, n: nat)
    requires n <= |g.moves(p)| && !Terminal(g, p, 1)
    ensures BestSoFar(g, p, n) <= Max(-MATE_SCORE, Minimax(g, p, 1))
    ensures n == |g.moves(p)| ==> BestSoFar(g, p, n) == Max(-MATE_SCORE, Minimax(g, p, 1))
  {
    if 0 < n < |g.moves(p)| {
      var i :| 0 <= i < n && MoveValue(g, p, 1, i) == BestOf(g, p, 1, n);
    }
  }

  /** A mate in one is worth 29999 to plain minimax, and 29998 once tapered. */
  lemma MateInOne(g: Game, p: Position, i: nat)
    requires !Terminal(g, p, 1) && i < |g.moves(p)| && g.checkmate(Child(g, p, i))
    requires forall j | 0 <= j < |g.moves(p)| :: MoveValue(g, p, 1, j) <= MATE_SCORE - 1
    ensures Minimax(g, p, 1) == 29999 && Taper(Minimax(g, p, 1)) == 29998
  {
    assert MoveValue(g, p, 1, i) == MATE_SCORE - 1;
  }

  /** Tapering moves a score of more than 29000 points, for either side, one point towards zero. */
  lemma TaperInFigures(x: int)
    ensures x > 29_000 ==> Taper(x) == x - 1
    ensures x < -29_000 ==> Taper(x) == x + 1
    ensures -29_000 <= x <= 29_000 ==> Taper(x) == x
  {
  }

  /** A move that reaches a drawn position is worth nothing to either side; if all do, so is the position. */
  lemma DrawInOne(g: Game, p: Position, depth: nat, i: nat)
    requires depth > 0 && !Terminal(g, p, depth) && i < |g.moves(p)|
    requires g.drawn(Child(g, p, i)) && !g.checkmate(Child(g, p, i))
    ensures Minimax(g, p, depth) >= 0
    ensures (forall j | 0 <= j < |g.moves(p)| :: g.drawn(Child(g, p, j)) && !g.checkmate(Child(g, p, j))) ==>
      Minimax(g, p, depth) == 0
  {
    assert MoveValue(g, p, depth, i) == 0;
    var best :| 0 <= best < |g.moves(p)| && MoveValue(g, p, depth, best) == Minimax(g, p, depth);
    if forall j | 0 <= j < |g.moves(p)| :: g.drawn(Child(g, p, j)) && !g.checkmate(Child(g, p, j)) {
      assert MoveValue(g, p, depth, best) == 0;
    }
  }

  // ---------- the search ----------

  datatype SearchResult = SearchResult(score: int, bestMove: Option<Move>, nodes: U64, depth: nat)

  class Searcher {
    const g: Game
    var pos: Position
    var nodes: U64

    constructor (g: Game, root: Position)
      ensures this.g == g && pos == root && nodes == 0
    {
      this.g, pos, nodes := g, root, 0;
    }

    /** Plays m, the move with index i, searches the reply and takes m back; the score is the mover's. */
    method ScoreOf(m: Move, ghost i: nat, depth: nat, alpha: int, beta: int) returns (score: int)
      requires -MATE_SCORE <= alpha < beta <= MATE_SCORE
      requires !Terminal(g, pos, depth) && i < |g.moves(pos)| && m == g.moves(pos)[i]
      modifies this
      ensures pos == old(pos)
      ensures old(nodes) <= nodes <= old(nodes) + NodesOf(g, pos, depth, i + 1) - NodesOf(g, pos, depth, i)
      ensures Answers(score, MoveValues(g, pos, depth)[i], alpha, beta)
      ensures depth == 1 ==> score == MoveValue(g, pos, depth, i)
      ensures Quiet(g, pos, depth) ==> -MATE_RANGE <= score <= MATE_RANGE
      ensures Calm(g, pos, depth) ==> -MATE_SCORE < score < MATE_SCORE
      decreases depth, 0
    {
      ghost var p := pos;
      var snapshot := pos;
      pos := g.play(pos, m);
      assert pos == Child(g, p, i);
      var childScore, _, _, _ := Negamax(depth - 1, -beta, -alpha);
      Flip(childScore, Minimax(g, Child(g, p, i), depth - 1), alpha, beta);
      score := -childScore;
      pos := snapshot;
    }

    /** The move loop of `negamax`: the best score found before tapering, and its move. */
    method SearchMoves(depth: nat, alpha0: int, beta: int)
        returns (bestScore: int, bestMove: Option<Move>, ghost at: int)
      requires -MATE_SCORE <= alpha0 < beta <= MATE_SCORE && !Terminal(g, pos, depth)
      modifies this
      ensures pos == old(pos)
      ensures old(nodes) <= nodes <= old(nodes) + NodesOf(g, pos, depth, |g.moves(pos)|)
      ensures Answers(bestScore, Minimax(g, pos, depth), alpha0, beta)
      ensures Tried(MoveValues(g, pos, depth), |g.moves(pos)|, alpha0, beta, bestScore, at)
      ensures bestScore > -MATE_SCORE ==> 0 <= at < |g.moves(pos)| && bestMove == Some(g.moves(pos)[at])
      ensures Quiet(g, pos, depth) ==> -MATE_RANGE <= bestScore <= MATE_RANGE && (at > 0 ==> bestScore > -MATE_RANGE)
      ensures Calm(g, pos, depth) ==> -MATE_SCORE < bestScore < MATE_SCORE
      ensures depth == 1 && Minimax(g, pos, depth) < beta ==> bestScore == Max(-MATE_SCORE, Minimax(g, pos, depth))
      decreases depth, 1
    {
      hide Calm, Clamp, Minimax, MoveValue, NodesOf, Quiet, TerminalScore;
      var moves := g.moves(pos);
      var alpha := alpha0;
      bestScore := -MATE_SCORE;
      bestMove := None;
      at := 0;
      ghost var p, start, t := pos, nodes, MoveValues(g, pos, depth);
      ghost var quiet, calm := Quiet(g, pos, depth), Calm(g, pos, depth);
      var i := 0;
      while i < |moves|
        invariant 0 <= i <= |moves| && pos == p
        invariant start <= nodes <= start + NodesOf(g, p, depth, i)
        invariant alpha == Max(alpha0, bestScore) < beta && bestScore >= -MATE_SCORE
        invariant Tried(t, i, alpha0, beta, bestScore, at)
        invariant bestScore > -MATE_SCORE ==> 0 <= at < i && bestMove == Some(moves[at])
        invariant depth == 1 ==> bestScore == BestSoFar(g, p, i)
        invariant quiet ==>
          bestScore <= MATE_RANGE && (i > 0 ==> -MATE_RANGE <= bestScore) && (at > 0 ==> -MATE_RANGE < bestScore)
        invariant calm ==> bestScore < MATE_SCORE && (i > 0 ==> -MATE_SCORE < bestScore)
      {
        var m := moves[i];
        var score := ScoreOf(m, i, depth, alpha, beta);
        TryMove(t, i, alpha0, beta, bestScore, at, score);
        if depth == 1 { BestSoFarNext(g, p, i, score); }
        i := i + 1;
        if score > bestScore {
          bestScore := score;
          bestMove := Some(m);
          at := i - 1;
        }
        if score > alpha {
          alpha := score;
        }
        assert alpha == Max(alpha0, bestScore) && Tried(t, i, alpha0, beta, bestScore, at);
        if alpha >= beta {
          break;
        }
      }
      NodesGrow(g, p, depth, i, |moves|);
      if depth == 1 { BestSoFarAtMost(g, p, i); }
      AllTried(g, p, depth, i, alpha0, beta, bestScore, at);
    }

    /**
      `negamax`. For every game and window the result answers for the exact score; the position is
      put back; no more nodes are entered than unpruned. `raw` is the score before tapering and
      `at` the index of the best move.
     */
    method Negamax(depth: nat, alpha0: int, beta: int)
        returns (score: int, bestMove: Option<Move>, ghost raw: int, ghost at: int)
      requires -MATE_SCORE <= alpha0 < beta <= MATE_SCORE
      modifies this
      ensures pos == old(pos)
      ensures SatAdd(old(nodes), 1) <= nodes <= old(nodes) + FullNodes(g, pos, depth)
      ensures Answers(score, Minimax(g, pos, depth), alpha0, beta)
      ensures Terminal(g, pos, depth) ==> bestMove == None && score == raw == TerminalScore(g, pos)
      ensures !Terminal(g, pos, depth) ==>
        && score == Taper(raw) && Answers(raw, Minimax(g, pos, depth), alpha0, beta)
        && Tried(MoveValues(g, pos, depth), |g.moves(pos)|, alpha0, beta, raw, at)
        && (raw > -MATE_SCORE ==> 0 <= at < |g.moves(pos)| && bestMove == Some(g.moves(pos)[at]))
      ensures Quiet(g, pos, depth) ==>
        -MATE_RANGE <= raw <= MATE_RANGE && score == raw && (at > 0 ==> raw > -MATE_RANGE)
      ensures Calm(g, pos, depth) ==> -MATE_SCORE < raw < MATE_SCORE && -MATE_SCORE < score < MATE_SCORE
      ensures depth == 1 && !Terminal(g, pos, depth) && Minimax(g, pos, depth) < beta ==>
        raw == Max(-MATE_SCORE, Minimax(g, pos, depth))
      decreases depth, 2
    {
      nodes := SatAdd(nodes, 1);
      if g.checkmate(pos) {
        return -MATE_SCORE + 1, None, -MATE_SCORE + 1, 0;
      }
      if g.drawn(pos) {
        return 0, None, 0, 0;
      }
      if depth == 0 {
        return g.eval(pos), None, g.eval(pos), 0;
      }
      if g.moves(pos) == [] {
        return g.eval(pos), None, g.eval(pos), 0;
      }
      var bestScore;
      bestScore, bestMove, at := SearchMoves(depth, alpha0, beta);
      ghost var p := pos;
      raw := bestScore;
      TaperAnswers(raw, Minimax(g, p, depth), alpha0, beta);
      if bestScore > MATE_SCORE - 1000 {
        bestScore := bestScore - 1;
      } else if bestScore < -MATE_SCORE + 1000 {
        bestScore := bestScore + 1;
      }
      score := bestScore;
    }
  }

  /** A move as good as the best one, up to mate distance. */
  ghost predicate GoodMove(g: Game, p: Position, depth: nat, at: int) {
    depth > 0 && 0 <= at < |g.moves(p)| && Clamp(MoveValue(g, p, depth, at)) == Clamp(Minimax(g, p, depth))
  }

  /**
    `negamax_search`: for every game the score is the minimax score up to mate distance, and unless
    the position is lost the reported move keeps it. When the minimax score announces no mate, or no
    checkmate is in sight, the score is exact and the reported move is the first best one. When only
    checkmates score in the mate range, a root with moves gets its minimax score exactly when that
    announces no mate. One ply deep the score is the minimax score moved one point towards zero if it
    announces a mate.
   */
  method NegamaxSearch(g: Game, root: Position, depth0: U8) returns (r: SearchResult)
    ensures r.depth == (if depth0 <= 64 then depth0 else 64) && 1 <= r.nodes <= FullNodes(g, root, r.depth)
    ensures Clamp(r.score) == Clamp(Minimax(g, root, r.depth))
    ensures !Terminal(g, root, r.depth) && Minimax(g, root, r.depth) > -29_000 ==>
      exists at :: GoodMove(g, root, r.depth, at) && r.bestMove == Some(g.moves(root)[at])
    ensures Quiet(g, root, r.depth) || -29_000 < Minimax(g, root, r.depth) < 29_000 ==>
      && r.score == Minimax(g, root, r.depth)
      && (Terminal(g, root, r.depth) ==> r.bestMove == None)
      && (!Terminal(g, root, r.depth) ==>
        exists at :: FirstBest(g, root, r.depth, at) && r.bestMove == Some(g.moves(root)[at]))
    ensures Calm(g, root, r.depth) ==>
      (r.score == Minimax(g, root, r.depth) <==>
        Terminal(g, root, r.depth) || -29_000 < Minimax(g, root, r.depth) < 29_000)
    ensures r.depth == 1 && !Terminal(g, root, 1) && -MATE_SCORE <= Minimax(g, root, 1) < MATE_SCORE ==>
      r.score == Taper(Minimax(g, root, 1))
  {
    var depth := Min(depth0, MAX_DEPTH);
    var searcher := new Searcher(g, root);
    ghost var raw, at;
    var score, bestMove;
    score, bestMove, raw, at := searcher.Negamax(depth, -MATE_SCORE, MATE_SCORE);
    r := SearchResult(score, bestMove, searcher.nodes, depth);
    if Quiet(g, root, depth) { QuietScore(g, root, depth); }
    if Calm(g, root, depth) { CalmScore(g, root, depth); }
    if !Terminal(g, root, depth) {
      if Minimax(g, root, depth) > -MATE_RANGE {
        assert MoveValues(g, root, depth)[at] == MoveValue(g, root, depth, at);
        assert GoodMove(g, root, depth, at);
      }
      if Quiet(g, root, depth) || -MATE_RANGE < Minimax(g, root, depth) < MATE_RANGE {
        RootMove(g, root, depth, raw, at);
      }
    }
  }
}

/** Choosing a move by alpha-beta search. The search alternates between a
    maximising and a minimising level, X maximising the score and O
    minimising it; `Value` is the plain minimax value the search is measured
    against. The infinities of `tictactoe.py` are written -2 and 2: every score lies
    in -1..1, so they compare with scores exactly as infinities do. */
module GameTree {
  import opened Wrappers
  import opened TicTacToe
  import opened Collections

  const MinusInfinity: int := -2
  const PlusInfinity: int := 2

  /** The board after the player to move takes the empty cell `p`. */
  ghost function Child(b: Board, p: Pos): (r: Board)
    requires p in EmptyCells(b)
    ensures TicTacToe.Result(b, p).Success? && r == TicTacToe.Result(b, p).value
    ensures Count(r, Empty) < Count(b, Empty)
  {
    TicTacToe.Result(b, p).value
  }

  /** The largest score of a set of scores, `MinusInfinity` for none. */
  function Max(s: set<int>): (r: int)
    requires forall x | x in s :: -1 <= x <= 1
    ensures forall x | x in s :: x <= r
    ensures s != {} ==> r in s
    ensures s == {} ==> r == MinusInfinity
  {
    if 1 in s then 1 else if 0 in s then 0 else if -1 in s then -1 else MinusInfinity
  }

  /** The smallest score of a set of scores, `PlusInfinity` for none. */
  function Min(s: set<int>): (r: int)
    requires forall x | x in s :: -1 <= x <= 1
    ensures forall x | x in s :: r <= x
    ensures s != {} ==> r in s
    ensures s == {} ==> r == PlusInfinity
  {
    if -1 in s then -1 else if 0 in s then 0 else if 1 in s then 1 else PlusInfinity
  }

  /** The minimax value of `b` when the level to move maximises
      (`maximizing`) or minimises the score, the levels alternating below. */
  ghost function Value(b: Board, maximizing: bool): (r: int)
    ensures -1 <= r <= 1
    decreases Count(b, Empty), 2
  {
    if Terminal(b) then Utility(b)
    else if maximizing then Max(Outcomes(b, false))
    else Min(Outcomes(b, true))
  }

  /** The values of all the boards one move away. */
  ghost function Outcomes(b: Board, maximizing: bool): (r: set<int>)
    ensures forall x | x in r :: -1 <= x <= 1
    ensures EmptyCells(b) != {} ==> r != {}
    decreases Count(b, Empty), 1
  {
    var r := set p | p in EmptyCells(b) :: ChildValue(b, p, maximizing);
    assert EmptyCells(b) != {} ==> r != {} by {
      if EmptyCells(b) != {} {
        var p :| p in EmptyCells(b);
        assert ChildValue(b, p, maximizing) in r;
      }
    }
    r
  }

  /** The value of the board reached by playing `p`. */
  ghost function ChildValue(b: Board, p: Pos, maximizing: bool): (r: int)
    requires p in EmptyCells(b)
    ensures -1 <= r <= 1
    decreases Count(b, Empty), 0
  {
    Value(Child(b, p), maximizing)
  }

  /** What a fail-soft alpha-beta search promises about the score `v` it
      returns for a board of true value `m`, searched with window
      `(alpha, beta)`: a score at or below the window bounds the value from
      above, one at or above it bounds the value from below, and one inside
      it is the value. */
  ghost predicate FailSoft(v: int, m: int, alpha: int, beta: int) {
    && (v <= alpha ==> m <= v)
    && (v >= beta ==> v <= m)
    && (alpha < v < beta ==> v == m)
  }

  /** A maximising level: the best score for X over the moves, stopping as
      soon as it reaches `beta`. */
  method MaxAlphaBeta(b: Board, alpha: int, beta: int) returns (v: int)
    ensures -1 <= v <= 1
    ensures alpha < beta ==> FailSoft(v, Value(b, true), alpha, beta)
    decreases Count(b, Empty)
  {
    if Terminal(b) {
      return Utility(b);
    }
    var actions := Actions(b);
    var moves := Enumerate(actions.value);
    ghost var values := ChildValues(b, moves, false);
    v := MinusInfinity;
    var a := alpha;
    var i := 0;
    var cutoff := false;
    while i < |moves| && !cutoff
      invariant 0 <= i <= |moves|
      invariant MaxSoFar(values, i, v, a, alpha, beta)
      invariant cutoff <==> i > 0 && a >= beta
    {
      var score := MinAlphaBeta(TicTacToe.Result(b, moves[i]).value, a, beta);
      MaxStep(values, i, v, a, alpha, beta, score);
      v := if score > v then score else v;
      a := if v > a then v else a;
      cutoff := a >= beta;
      i := i + 1;
    }
    MaxOfOutcomes(b, moves, values, i, v, a, alpha, beta);
  }

  /** A minimising level: the best score for O over the moves, stopping as
      soon as it reaches `alpha`. */
  method MinAlphaBeta(b: Board, alpha: int, beta: int) returns (v: int)
    ensures -1 <= v <= 1
    ensures alpha < beta ==> FailSoft(v, Value(b, false), alpha, beta)
    decreases Count(b, Empty)
  {
    if Terminal(b) {
      return Utility(b);
    }
    var actions := Actions(b);
    var moves := Enumerate(actions.value);
    ghost var values := ChildValues(b, moves, true);
    v := PlusInfinity;
    var c := beta;
    var i := 0;
    var cutoff := false;
    while i < |moves| && !cutoff
      invariant 0 <= i <= |moves|
      invariant MinSoFar(values, i, v, c, alpha, beta)
      invariant cutoff <==> i > 0 && c <= alpha
    {
      var score := MaxAlphaBeta(TicTacToe.Result(b, moves[i]).value, alpha, c);
      MinStep(values, i, v, c, alpha, beta, score);
      v := if score < v then score else v;
      c := if v < c then v else c;
      cutoff := c <= alpha;
      i := i + 1;
    }
    MinOfOutcomes(b, moves, values, i, v, c, alpha, beta);
  }

  /** What a maximising level knows after scoring the first `i` of the
      values: `v` is their maximum, `a` the raised lower bound, and `v`
      bounds them as a fail-soft score. */
  ghost predicate MaxSoFar(values: seq<int>, i: nat, v: int, a: int, alpha: int, beta: int)
    requires i <= |values|
  {
    && (i == 0 ==> v == MinusInfinity && a == alpha)
    && (i > 0 ==> -1 <= v <= 1 && a == (if alpha < v then v else alpha))
    && (alpha < beta && v < beta ==> forall k | 0 <= k < i :: values[k] <= v)
    && (i > 0 && alpha < beta && v > alpha ==> exists k | 0 <= k < i :: values[k] >= v)
  }

  /** The same for a minimising level, `c` being the lowered upper bound. */
  ghost predicate MinSoFar(values: seq<int>, i: nat, v: int, c: int, alpha: int, beta: int)
    requires i <= |values|
  {
    && (i == 0 ==> v == PlusInfinity && c == beta)
    && (i > 0 ==> -1 <= v <= 1 && c == (if v < beta then v else beta))
    && (alpha < beta && v > alpha ==> forall k | 0 <= k < i :: values[k] >= v)
    && (i > 0 && alpha < beta && v < beta ==> exists k | 0 <= k < i :: values[k] <= v)
  }

  /** Scoring one more move of a maximising level, searched with window
      `(a, beta)`, keeps `MaxSoFar`. */
  lemma MaxStep(values: seq<int>, i: nat, v: int, a: int, alpha: int, beta: int, score: int)
    requires i < |values| && MaxSoFar(values, i, v, a, alpha, beta) && (i > 0 ==> a < beta)
    requires -1 <= score <= 1 && (a < beta ==> FailSoft(score, values[i], a, beta))
    ensures
      var v' := if score > v then score else v;
      MaxSoFar(values, i + 1, v', if v' > a then v' else a, alpha, beta)
  {
  }

  /** Scoring one more move of a minimising level, searched with window
      `(alpha, c)`, keeps `MinSoFar`. */
  lemma MinStep(values: seq<int>, i: nat, v: int, c: int, alpha: int, beta: int, score: int)
    requires i < |values| && MinSoFar(values, i, v, c, alpha, beta) && (i > 0 ==> alpha < c)
    requires -1 <= score <= 1 && (alpha < c ==> FailSoft(score, values[i], alpha, c))
    ensures
      var v' := if score < v then score else v;
      MinSoFar(values, i + 1, v', if v' < c then v' else c, alpha, beta)
  {
  }

  /** The values of the boards the moves lead to, in the order of `moves`. */
  ghost function ChildValues(b: Board, moves: seq<Pos>, maximizing: bool): (r: seq<int>)
    requires forall k | 0 <= k < |moves| :: moves[k] in EmptyCells(b)
    ensures |r| == |moves|
    ensures forall k | 0 <= k < |moves| :: moves[k] in EmptyCells(b) && r[k] == ChildValue(b, moves[k], maximizing)
  {
    seq(|moves|, k requires 0 <= k < |moves| => ChildValue(b, moves[k], maximizing))
  }

  /** The outcomes of `b` are exactly the values of the moves of `moves`. */
  lemma OutcomesAreChildValues(b: Board, moves: seq<Pos>, values: seq<int>, maximizing: bool)
    requires forall p :: p in moves <==> p in EmptyCells(b)
    requires values == ChildValues(b, moves, maximizing)
    ensures forall x | x in Outcomes(b, maximizing) :: exists k | 0 <= k < |moves| :: values[k] == x
    ensures forall k | 0 <= k < |moves| :: values[k] in Outcomes(b, maximizing)
  {
    var outcomes := Outcomes(b, maximizing);
    forall x | x in outcomes ensures exists k | 0 <= k < |moves| :: values[k] == x {
      var p :| p in EmptyCells(b) && x == ChildValue(b, p, maximizing);
      var k :| 0 <= k < |moves| && moves[k] == p;
    }
  }

  /** The loop's bounds on the moves seen make `v` a fail-soft score of the
      maximising level. */
  lemma MaxOfOutcomes(b: Board, moves: seq<Pos>, values: seq<int>, i: nat, v: int, a: int, alpha: int, beta: int)
    requires !Terminal(b) && (forall p :: p in moves <==> p in EmptyCells(b))
    requires values == ChildValues(b, moves, false)
    requires 0 < i <= |moves| && MaxSoFar(values, i, v, a, alpha, beta)
    requires i < |moves| ==> a >= beta
    ensures alpha < beta ==> FailSoft(v, Value(b, true), alpha, beta)
  {
    OutcomesAreChildValues(b, moves, values, false);
    FailSoftMax(Outcomes(b, false), values, i, v, a, alpha, beta);
  }

  /** The loop's bounds on the moves seen make `v` a fail-soft score of the
      minimising level. */
  lemma MinOfOutcomes(b: Board, moves: seq<Pos>, values: seq<int>, i: nat, v: int, c: int, alpha: int, beta: int)
    requires !Terminal(b) && (forall p :: p in moves <==> p in EmptyCells(b))
    requires values == ChildValues(b, moves, true)
    requires 0 < i <= |moves| && MinSoFar(values, i, v, c, alpha, beta)
    requires i < |moves| ==> c <= alpha
    ensures alpha < beta ==> FailSoft(v, Value(b, false), alpha, beta)
  {
    OutcomesAreChildValues(b, moves, values, true);
    FailSoftMin(Outcomes(b, true), values, i, v, c, alpha, beta);
  }

  /** The maximising loop's bounds, over values that are exactly the scores
      in `s`, make `v` a fail-soft estimate of `Max(s)`. */
  lemma FailSoftMax(s: set<int>, values: seq<int>, i: nat, v: int, a: int, alpha: int, beta: int)
    requires forall x | x in s :: -1 <= x <= 1
    requires forall x | x in s :: exists k | 0 <= k < |values| :: values[k] == x
    requires forall k | 0 <= k < |values| :: values[k] in s
    requires 0 < i <= |values| && MaxSoFar(values, i, v, a, alpha, beta)
    requires i < |values| ==> a >= beta
    ensures alpha < beta ==> FailSoft(v, Max(s), alpha, beta)
  {
  }

  /** The minimising loop's bounds make `v` a fail-soft estimate of `Min(s)`. */
  lemma FailSoftMin(s: set<int>, values: seq<int>, i: nat, v: int, c: int, alpha: int, beta: int)
    requires forall x | x in s :: -1 <= x <= 1
    requires forall x | x in s :: exists k | 0 <= k < |values| :: values[k] == x
    requires forall k | 0 <= k < |values| :: values[k] in s
    requires 0 < i <= |values| && MinSoFar(values, i, v, c, alpha, beta)
    requires i < |values| ==> c <= alpha
    ensures alpha < beta ==> FailSoft(v, Min(s), alpha, beta)
  {
  }

  /** The move the player to move should make: none once the game is over,
      otherwise the first move whose board scores best for that player, every
      reply being searched with the full window. */
  method AlphaBeta(b: Board) returns (move: Option<Pos>)
    ensures move.None? <==> Terminal(b)
    ensures move.Some? ==> move.value in EmptyCells(b)
    ensures move.Some? && Player(b) == X ==>
      && (forall p | p in EmptyCells(b) :: ChildValue(b, p, false) <= ChildValue(b, move.value, false))
      && ChildValue(b, move.value, false) == Value(b, true)
    ensures move.Some? && Player(b) == O ==>
      && (forall p | p in EmptyCells(b) :: ChildValue(b, move.value, true) <= ChildValue(b, p, true))
      && ChildValue(b, move.value, true) == Value(b, false)
  {
    var alpha := MinusInfinity;
    var beta := PlusInfinity;
    if Terminal(b) {
      return None;
    }
    var actions := Actions(b);
    var moves := Enumerate(actions.value);
    var choice, best;
    if Player(b) == X {
      choice, best := HighestMove(b, moves, alpha, beta);
      BestIsMax(b, moves, ChildValues(b, moves, false), best);
    } else {
      choice, best := LowestMove(b, moves, alpha, beta);
      BestIsMin(b, moves, ChildValues(b, moves, true), best);
    }
    return Some(choice);
  }

  /** X's choice in `AlphaBeta`: the first of `moves` whose reply, searched
      with the window `(alpha, beta)` that contains every score, scores
      highest, together with its index in `moves`. */
  method HighestMove(b: Board, moves: seq<Pos>, alpha: int, beta: int) returns (move: Pos, best: nat)
    requires (forall k | 0 <= k < |moves| :: moves[k] in EmptyCells(b)) && |moves| > 0
    requires alpha < -1 && 1 < beta
    ensures best < |moves| && move == moves[best]
    ensures var values := ChildValues(b, moves, false);
      && (forall k | 0 <= k < |moves| :: values[k] <= values[best])
      && (forall k | 0 <= k < best :: values[k] < values[best])
  {
    ghost var values := ChildValues(b, moves, false);
    best := 0;
    var v := MinusInfinity;
    for i := 0 to |moves|
      invariant LeadsSoFar(values, i, best, v)
    {
      best, v := HighStep(b, moves, values, i, best, v, alpha, beta);
    }
    move := moves[best];
  }

  /** O's choice in `AlphaBeta`: the first of `moves` whose reply scores
      lowest, together with its index. */
  method LowestMove(b: Board, moves: seq<Pos>, alpha: int, beta: int) returns (move: Pos, best: nat)
    requires (forall k | 0 <= k < |moves| :: moves[k] in EmptyCells(b)) && |moves| > 0
    requires alpha < -1 && 1 < beta
    ensures best < |moves| && move == moves[best]
    ensures var values := ChildValues(b, moves, true);
      && (forall k | 0 <= k < |moves| :: values[best] <= values[k])
      && (forall k | 0 <= k < best :: values[best] < values[k])
  {
    ghost var values := ChildValues(b, moves, true);
    best := 0;
    var v := PlusInfinity;
    for i := 0 to |moves|
      invariant TrailsSoFar(values, i, best, v)
    {
      best, v := LowStep(b, moves, values, i, best, v, alpha, beta);
    }
    move := moves[best];
  }

  /** One turn of X's choice loop: scores the reply to `moves[i]` and
      keeps the lead. */
  method HighStep(b: Board, moves: seq<Pos>, ghost values: seq<int>, i: nat, best: nat, v: int, alpha: int, beta: int)
    returns (best': nat, v': int)
    requires (forall k | 0 <= k < |moves| :: moves[k] in EmptyCells(b)) && values == ChildValues(b, moves, false)
    requires alpha < -1 && 1 < beta
    requires LeadsSoFar(values, i, best, v) && i < |values|
    ensures LeadsSoFar(values, i + 1, best', v')
  {
    var score := ReplyValue(b, moves[i], alpha, beta, false);
    best', v' := Lead(values, i, best, v, score);
  }

  /** One turn of O's choice loop: scores the reply to `moves[i]` and
      keeps the lead. */
  method LowStep(b: Board, moves: seq<Pos>, ghost values: seq<int>, i: nat, best: nat, v: int, alpha: int, beta: int)
    returns (best': nat, v': int)
    requires (forall k | 0 <= k < |moves| :: moves[k] in EmptyCells(b)) && values == ChildValues(b, moves, true)
    requires alpha < -1 && 1 < beta
    requires TrailsSoFar(values, i, best, v) && i < |values|
    ensures TrailsSoFar(values, i + 1, best', v')
  {
    var score := ReplyValue(b, moves[i], alpha, beta, true);
    best', v' := Trail(values, i, best, v, score);
  }

  /** The score of the reply to move `p`, searched with a window wider
      than every score: exactly the minimax value of the board `p` leads to. */
  method ReplyValue(b: Board, p: Pos, alpha: int, beta: int, maximizing: bool) returns (score: int)
    requires p in EmptyCells(b)
    requires alpha < -1 && 1 < beta
    ensures score == ChildValue(b, p, maximizing)
  {
    var c := TicTacToe.Result(b, p).value;
    if maximizing {
      score := MaxAlphaBeta(c, alpha, beta);
    } else {
      score := MinAlphaBeta(c, alpha, beta);
    }
  }

  /** After `i` turns of X's choice loop, `best` is the first index holding
      the highest of `values[..i]`, and `v` is that value (the sentinel before
      any turn). */
  predicate LeadsSoFar(values: seq<int>, i: int, best: int, v: int)
  {
    && 0 <= i <= |values|
    && (i == 0 ==> best == 0 && v == MinusInfinity)
    && (i > 0 ==> 0 <= best < i && values[best] == v)
    && (forall k | 0 <= k < i :: values[k] <= v)
    && forall k | 0 <= k < best :: values[k] < v
  }

  /** The same for O's choice loop, with the lowest value. */
  predicate TrailsSoFar(values: seq<int>, i: int, best: int, v: int)
  {
    && 0 <= i <= |values|
    && (i == 0 ==> best == 0 && v == PlusInfinity)
    && (i > 0 ==> 0 <= best < i && values[best] == v)
    && (forall k | 0 <= k < i :: v <= values[k])
    && forall k | 0 <= k < best :: v < values[k]
  }

  /** One turn of X's choice loop: `score`, the value at index `i`, takes
      the lead only when it beats the best so far. */
  method Lead(ghost values: seq<int>, i: nat, best: nat, v: int, score: int) returns (best': nat, v': int)
    requires LeadsSoFar(values, i, best, v) && i < |values| && score == values[i] && score > MinusInfinity
    ensures LeadsSoFar(values, i + 1, best', v')
    ensures best' == i <==> score > v
  {
    if score > v {
      best', v' := i, score;
    } else {
      best', v' := best, v;
    }
  }

  /** One turn of O's choice loop: `score`, the value at index `i`, takes
      the lead only when it is below the best so far. */
  method Trail(ghost values: seq<int>, i: nat, best: nat, v: int, score: int) returns (best': nat, v': int)
    requires TrailsSoFar(values, i, best, v) && i < |values| && score == values[i] && score < PlusInfinity
    ensures TrailsSoFar(values, i + 1, best', v')
    ensures best' == i <==> score < v
  {
    if score < v {
      best', v' := i, score;
    } else {
      best', v' := best, v;
    }
  }

  /** A score in `s` that no other score exceeds is `Max(s)`. */
  lemma TopIsMax(s: set<int>, t: int)
    requires forall x | x in s :: -1 <= x <= 1
    requires t in s && forall x | x in s :: x <= t
    ensures Max(s) == t
  {
  }

  /** A score in `s` below no other score is `Min(s)`. */
  lemma BottomIsMin(s: set<int>, t: int)
    requires forall x | x in s :: -1 <= x <= 1
    requires t in s && forall x | x in s :: t <= x
    ensures Min(s) == t
  {
  }

  /** A move no other move beats for X reaches the maximising value. */
  lemma BestIsMax(b: Board, moves: seq<Pos>, values: seq<int>, best: int)
    requires !Terminal(b) && (forall p :: p in moves <==> p in EmptyCells(b))
    requires values == ChildValues(b, moves, false) && 0 <= best < |moves|
    requires forall k | 0 <= k < |moves| :: values[k] <= values[best]
    ensures forall p | p in EmptyCells(b) :: ChildValue(b, p, false) <= ChildValue(b, moves[best], false)
    ensures ChildValue(b, moves[best], false) == Value(b, true)
  {
    var outcomes := Outcomes(b, false);
    OutcomesAreChildValues(b, moves, values, false);
    forall x | x in outcomes ensures x <= values[best] {
      var k :| 0 <= k < |moves| && values[k] == x;
    }
    TopIsMax(outcomes, values[best]);
    assert Value(b, true) == Max(outcomes);
    forall p | p in EmptyCells(b) ensures ChildValue(b, p, false) <= values[best] {
      assert ChildValue(b, p, false) in outcomes;
    }
  }

  /** A move no other move beats for O reaches the minimising value. */
  lemma BestIsMin(b: Board, moves: seq<Pos>, values: seq<int>, best: int)
    requires !Terminal(b) && (forall p :: p in moves <==> p in EmptyCells(b))
    requires values == ChildValues(b, moves, true) && 0 <= best < |moves|
    requires forall k | 0 <= k < |moves| :: values[best] <= values[k]
    ensures forall p | p in EmptyCells(b) :: ChildValue(b, moves[best], true) <= ChildValue(b, p, true)
    ensures ChildValue(b, moves[best], true) == Value(b, false)
  {
    var outcomes := Outcomes(b, true);
    OutcomesAreChildValues(b, moves, values, true);
    forall x | x in outcomes ensures values[best] <= x {
      var k :| 0 <= k < |moves| && values[k] == x;
    }
    BottomIsMin(outcomes, values[best]);
    assert Value(b, false) == Min(outcomes);
    forall p | p in EmptyCells(b) ensures values[best] <= ChildValue(b, p, true) {
      assert ChildValue(b, p, true) in outcomes;
    }
  }
}

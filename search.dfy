/** The depth-bounded minimax search with one-ply move ordering, a beam of
    ten moves below depth three and a cut-off test against the bounds the
    search was called with.

    The bounds `alpha` and `beta` are never narrowed: every child is
    searched with the caller's bounds and the cut-off compares the running
    best with those same bounds. The specification functions below keep
    that behaviour. */
module Search {
  import opened Game
  import opened Ordering
  import opened Evaluator

  /** The depth at which the search stops and evaluates. */
  const DEPTH: nat := 5
  /** Below this depth every node keeps only the first BEAM ordered moves. */
  const BEAM_DEPTH: nat := 3
  const BEAM: nat := 10

  function Max(x: real, y: real): real { if x >= y then x else y }
  function Min(x: real, y: real): real { if x <= y then x else y }

  /** The running best a node starts from: the worst score for the side to
      move. */
  function Init(turn: Color): real
  {
    if turn == White then -MAXVALUE else MAXVALUE
  }

  /** Folds a child's score into the running best: White maximises, Black
      minimises. */
  function Combine(turn: Color, ret: real, t: real): real
  {
    if turn == White then Max(ret, t) else Min(ret, t)
  }

  /** The cut-off test, against the bounds the node was called with. */
  predicate Cutoff(turn: Color, alpha: real, beta: real, ret: real)
  {
    if turn == White then Max(alpha, ret) >= beta else Min(beta, ret) <= alpha
  }

  /** The one-ply list: each legal move, in generation order, with the
      evaluation of the position it leads to. */
  function OnePly<S, M, K>(rules: Rules<S, M, K>, p: Position<S>): seq<(real, M)>
  {
    var legal := rules.legal(p);
    seq(|legal|, i requires 0 <= i < |legal| => (Eval(rules, rules.apply(p, legal[i])), legal[i]))
  }

  /** The one-ply list ranked for the side to move: best first for White
      (highest score), best first for Black (lowest score). */
  function Ranked<S, M, K>(rules: Rules<S, M, K>, p: Position<S>): seq<(real, M)>
  {
    SortByScore(OnePly(rules, p), p.turn == White)
  }

  /** The first `n` entries of `s`, or all of `s` when it is shorter. */
  function Take<T>(s: seq<T>, n: nat): seq<T>
  {
    if |s| <= n then s else s[..n]
  }

  function Beam<T>(depth: nat, s: seq<T>): seq<T>
  {
    if depth > BEAM_DEPTH then Take(s, BEAM) else s
  }

  function MovesOf<M>(s: seq<(real, M)>): seq<M>
  {
    seq(|s|, i requires 0 <= i < |s| => s[i].1)
  }

  /** The moves a node at `depth` recurses into, in visiting order. */
  function Candidates<S, M, K>(rules: Rules<S, M, K>, p: Position<S>, depth: nat): seq<M>
  {
    MovesOf(Beam(depth, Ranked(rules, p)))
  }

  /** The outcome of a node's search loop: the running best it ends with
      and the `(score, move)` pair of every child it visited, in order. */
  datatype Swept<M> = Swept(best: real, scored: seq<(real, M)>)

  /** The value the search gives a position at `depth` with bounds `alpha`
      and `beta`. */
  function Score<S, M, K>(rules: Rules<S, M, K>, p: Position<S>, depth: nat, alpha: real, beta: real): real
    requires depth <= DEPTH
    decreases DEPTH - depth, 1
  {
    if depth == DEPTH || rules.over(p) then Eval(rules, p)
    else Sweep(rules, p, depth, alpha, beta, Candidates(rules, p, depth), Init(p.turn)).best
  }

  /** The search loop over the moves `ms` still to visit, from running best
      `ret`: each child gets the unchanged bounds, and the loop ends right
      after the first child whose score makes the cut-off test succeed. */
  function Sweep<S, M, K>(rules: Rules<S, M, K>, p: Position<S>, depth: nat, alpha: real, beta: real,
                          ms: seq<M>, ret: real): Swept<M>
    requires depth < DEPTH
    decreases DEPTH - depth, 0, |ms|
  {
    if ms == [] then Swept(ret, [])
    else
      var t := Score(rules, rules.apply(p, ms[0]), depth + 1, alpha, beta);
      var ret' := Combine(p.turn, ret, t);
      if Cutoff(p.turn, alpha, beta, ret') then Swept(ret', [(t, ms[0])])
      else
        var rest := Sweep(rules, p, depth, alpha, beta, ms[1..], ret');
        Swept(rest.best, [(t, ms[0])] + rest.scored)
  }

  /** The running best after folding the scores of `xs` into `ret`. */
  function Running<M>(turn: Color, ret: real, xs: seq<(real, M)>): real
    decreases |xs|
  {
    if xs == [] then ret else Running(turn, Combine(turn, ret, xs[0].0), xs[1..])
  }

  /** The running best is the maximum (White) or minimum (Black) of the
      starting value and the scores folded in. */
  lemma {:induction false} RunningIsExtreme<M>(turn: Color, ret: real, xs: seq<(real, M)>)
    ensures AtLeast(turn == White, Running(turn, ret, xs), ret)
    ensures forall i :: 0 <= i < |xs| ==> AtLeast(turn == White, Running(turn, ret, xs), xs[i].0)
    ensures Running(turn, ret, xs) == ret || exists i :: 0 <= i < |xs| && Running(turn, ret, xs) == xs[i].0
    decreases |xs|
  {
    if xs != [] {
      var ret' := Combine(turn, ret, xs[0].0);
      RunningIsExtreme(turn, ret', xs[1..]);
      var r := Running(turn, ret, xs);
      forall i | 0 <= i < |xs| ensures AtLeast(turn == White, r, xs[i].0) {
        if i > 0 {
          assert xs[i] == xs[1..][i - 1];
        }
      }
      if r != ret' {
        var j :| 0 <= j < |xs[1..]| && r == xs[1..][j].0;
        assert r == xs[j + 1].0;
      }
    }
  }

  /** What a node's search loop does: it visits a prefix of the candidate
      moves in order; each visited child is searched one ply deeper with the
      node's own bounds; it stops after the first child whose running best
      passes the cut-off test, and only there; and it returns the running
      best over the visited children. */
  lemma {:induction false} SweepVisits<S, M, K>(rules: Rules<S, M, K>, p: Position<S>, depth: nat,
                                                alpha: real, beta: real, ms: seq<M>, ret: real)
    requires depth < DEPTH
    ensures var w := Sweep(rules, p, depth, alpha, beta, ms, ret);
      && |w.scored| <= |ms|
      && (ms != [] ==> |w.scored| > 0)
      && (forall i :: 0 <= i < |w.scored| ==> w.scored[i].1 == ms[i])
      && (forall i :: 0 <= i < |w.scored| ==>
            w.scored[i].0 == Score(rules, rules.apply(p, ms[i]), depth + 1, alpha, beta))
      && w.best == Running(p.turn, ret, w.scored)
      && (forall j :: 1 <= j < |w.scored| ==> !Cutoff(p.turn, alpha, beta, Running(p.turn, ret, w.scored[..j])))
      && (|w.scored| < |ms| ==> Cutoff(p.turn, alpha, beta, w.best))
    decreases |ms|
  {
    if ms != [] {
      var w := Sweep(rules, p, depth, alpha, beta, ms, ret);
      var t := Score(rules, rules.apply(p, ms[0]), depth + 1, alpha, beta);
      var ret' := Combine(p.turn, ret, t);
      if !Cutoff(p.turn, alpha, beta, ret') {
        SweepVisits(rules, p, depth, alpha, beta, ms[1..], ret');
        var rest := Sweep(rules, p, depth, alpha, beta, ms[1..], ret');
        assert w.scored == [(t, ms[0])] + rest.scored;
        assert w.scored[1..] == rest.scored;
        forall i | 0 <= i < |w.scored|
          ensures w.scored[i].1 == ms[i]
          ensures w.scored[i].0 == Score(rules, rules.apply(p, ms[i]), depth + 1, alpha, beta)
        {
          if i > 0 {
            assert w.scored[i] == rest.scored[i - 1] && ms[i] == ms[1..][i - 1];
          }
        }
        forall j | 1 <= j < |w.scored| ensures !Cutoff(p.turn, alpha, beta, Running(p.turn, ret, w.scored[..j])) {
          assert w.scored[..j][0] == (t, ms[0]);
          assert w.scored[..j][1..] == rest.scored[..j - 1];
        }
      }
    }
  }

  /** The best a node returns is the maximum (White) or minimum (Black) of
      its starting bound and the scores of the children it visited. */
  lemma SweepIsExtreme<S, M, K>(rules: Rules<S, M, K>, p: Position<S>, depth: nat,
                                alpha: real, beta: real, ms: seq<M>, ret: real)
    requires depth < DEPTH
    ensures var w := Sweep(rules, p, depth, alpha, beta, ms, ret);
      && AtLeast(p.turn == White, w.best, ret)
      && (forall i :: 0 <= i < |w.scored| ==> AtLeast(p.turn == White, w.best, w.scored[i].0))
      && (w.best == ret || exists i :: 0 <= i < |w.scored| && w.best == w.scored[i].0)
  {
    SweepVisits(rules, p, depth, alpha, beta, ms, ret);
    RunningIsExtreme(p.turn, ret, Sweep(rules, p, depth, alpha, beta, ms, ret).scored);
  }

  /** The candidates are the ranked one-ply list's moves, all of them down
      to depth three and at most ten below it. The ranked list holds the
      one-ply pairs, best first for the side to move, with ties in
      generation order. */
  lemma CandidatesAreRanked<S, M, K>(rules: Rules<S, M, K>, p: Position<S>, depth: nat)
    ensures var c := Candidates(rules, p, depth);
      && |Ranked(rules, p)| == |rules.legal(p)|
      && |c| <= |rules.legal(p)|
      && (depth <= BEAM_DEPTH ==> |c| == |rules.legal(p)|)
      && (depth > BEAM_DEPTH ==> |c| == if |rules.legal(p)| <= BEAM then |rules.legal(p)| else BEAM)
      && (forall i :: 0 <= i < |c| ==> c[i] == Ranked(rules, p)[i].1)
    ensures Sorted(Ranked(rules, p), p.turn == White)
    ensures multiset(Ranked(rules, p)) == multiset(OnePly(rules, p))
    ensures forall x :: WithScore(Ranked(rules, p), x) == WithScore(OnePly(rules, p), x)
  {
    SortSortsAndPermutes(OnePly(rules, p), p.turn == White);
    assert |Ranked(rules, p)| == |multiset(Ranked(rules, p))|;
    forall x ensures WithScore(Ranked(rules, p), x) == WithScore(OnePly(rules, p), x) {
      SortIsStable(OnePly(rules, p), p.turn == White, x);
    }
  }

  /** The search without cut-offs over the same candidate moves: plain
      minimax, folding every child. */
  function Exhaustive<S, M, K>(rules: Rules<S, M, K>, p: Position<S>, depth: nat): real
    requires depth <= DEPTH
    decreases DEPTH - depth, 1
  {
    if depth == DEPTH || rules.over(p) then Eval(rules, p)
    else ExhaustiveFold(rules, p, depth, Candidates(rules, p, depth), Init(p.turn))
  }

  function ExhaustiveFold<S, M, K>(rules: Rules<S, M, K>, p: Position<S>, depth: nat, ms: seq<M>, ret: real): real
    requires depth < DEPTH
    decreases DEPTH - depth, 0, |ms|
  {
    if ms == [] then ret
    else ExhaustiveFold(rules, p, depth, ms[1..], Combine(p.turn, ret, Exhaustive(rules, rules.apply(p, ms[0]), depth + 1)))
  }

  /** The fail-soft relation between a value `r` found with bounds
      `alpha`, `beta` and the exact value `m`: inside the bounds they agree,
      at or below `alpha` the exact value is no higher, at or above `beta`
      it is no lower. */
  predicate FailSoft(alpha: real, beta: real, r: real, m: real)
  {
    && (alpha < r < beta ==> m == r)
    && (r <= alpha ==> m <= r)
    && (r >= beta ==> m >= r)
  }

  lemma CombineFailSoft(turn: Color, alpha: real, beta: real, ret: real, mret: real, t: real, m: real)
    requires alpha < beta
    requires FailSoft(alpha, beta, ret, mret) && FailSoft(alpha, beta, t, m)
    ensures FailSoft(alpha, beta, Combine(turn, ret, t), Combine(turn, mret, m))
  {
  }

  lemma {:induction false} ExhaustiveFoldMonotone<S, M, K>(rules: Rules<S, M, K>, p: Position<S>, depth: nat,
                                                          ms: seq<M>, ret: real)
    requires depth < DEPTH
    ensures AtLeast(p.turn == White, ExhaustiveFold(rules, p, depth, ms, ret), ret)
    decreases |ms|
  {
    if ms != [] {
      var ret' := Combine(p.turn, ret, Exhaustive(rules, rules.apply(p, ms[0]), depth + 1));
      ExhaustiveFoldMonotone(rules, p, depth, ms[1..], ret');
    }
  }

  /** The cut-off is sound: with `alpha < beta`, the value the search
      returns stands in the fail-soft relation to plain minimax over the
      same candidate moves, so a value strictly between the bounds is the
      exact minimax value. */
  lemma {:induction false} ScoreFailSoft<S, M, K>(rules: Rules<S, M, K>, p: Position<S>, depth: nat,
                                                  alpha: real, beta: real)
    requires depth <= DEPTH && alpha < beta
    ensures FailSoft(alpha, beta, Score(rules, p, depth, alpha, beta), Exhaustive(rules, p, depth))
    decreases DEPTH - depth, 1
  {
    if depth < DEPTH && !rules.over(p) {
      SweepFailSoft(rules, p, depth, alpha, beta, Candidates(rules, p, depth), Init(p.turn), Init(p.turn));
    }
  }

  lemma {:induction false} SweepFailSoft<S, M, K>(rules: Rules<S, M, K>, p: Position<S>, depth: nat,
                                                  alpha: real, beta: real, ms: seq<M>, ret: real, mret: real)
    requires depth < DEPTH && alpha < beta
    requires FailSoft(alpha, beta, ret, mret)
    ensures FailSoft(alpha, beta, Sweep(rules, p, depth, alpha, beta, ms, ret).best,
                     ExhaustiveFold(rules, p, depth, ms, mret))
    decreases DEPTH - depth, 0, |ms|
  {
    if ms != [] {
      var c := rules.apply(p, ms[0]);
      var t := Score(rules, c, depth + 1, alpha, beta);
      var m := Exhaustive(rules, c, depth + 1);
      ScoreFailSoft(rules, c, depth + 1, alpha, beta);
      var ret' := Combine(p.turn, ret, t);
      var mret' := Combine(p.turn, mret, m);
      CombineFailSoft(p.turn, alpha, beta, ret, mret, t, m);
      if Cutoff(p.turn, alpha, beta, ret') {
        ExhaustiveFoldMonotone(rules, p, depth, ms[1..], mret');
      } else {
        SweepFailSoft(rules, p, depth, alpha, beta, ms[1..], ret', mret');
      }
    }
  }

  /** Searches the board's position at `depth` with bounds `alpha` and
      `beta`. With `big` it also returns the `(score, move)` pair of every
      child it visited; children are always searched without it. The board
      comes back exactly as it was, cached scores are never changed, and
      when cached scores are faithful to the evaluation the value is
      `Score` and the pairs are those of `Sweep`. */
  method Minimax<S(!new), M, K(==)>(b: Board<S, M, K>, v: ClassicValuator<K>, depth: nat,
                                    alpha: real, beta: real, big: bool)
      returns (r: real, bret: seq<(real, M)>)
    requires b.Valid() && depth <= DEPTH
    modifies b, v
    ensures b.Holds(old(b.Current()), old(b.moveStack), old(b.saved))
    ensures Grows(old(v.memo), v.memo) && v.count >= old(v.count)
    ensures (depth == DEPTH || old(b.IsOver())) ==> v.count == old(v.count) + 1 && bret == []
    ensures !big ==> bret == []
    ensures Pure(b.rules) && Faithful(b.rules, old(v.memo)) ==>
      && Faithful(b.rules, v.memo)
      && r == Score(b.rules, old(b.Current()), depth, alpha, beta)
      && (big && depth < DEPTH && !old(b.IsOver()) ==>
            bret == Sweep(b.rules, old(b.Current()), depth, alpha, beta,
                          Candidates(b.rules, old(b.Current()), depth), Init(old(b.turn))).scored)
    decreases DEPTH - depth, 2
  {
    if depth == DEPTH || b.IsOver() {
      r := v.Call(b);
      bret := [];
      return;
    }
    ghost var faithful := Pure(b.rules) && Faithful(b.rules, v.memo);
    var isort := OnePlyScores(b, v);
    var move := SortByScore(isort, b.turn == White);
    if depth > BEAM_DEPTH {
      move := Take(move, BEAM);
    }
    assert faithful ==> MovesOf(move) == Candidates(b.rules, b.Current(), depth);
    r, bret := SearchMoves(b, v, depth, alpha, beta, big, MovesOf(move));
  }

  /** The ordering pass: pushes each legal move, scores the position with
      the evaluator, and takes the move back. */
  method OnePlyScores<S(!new), M, K(==)>(b: Board<S, M, K>, v: ClassicValuator<K>)
      returns (isort: seq<(real, M)>)
    requires b.Valid()
    modifies b, v
    ensures b.Holds(old(b.Current()), old(b.moveStack), old(b.saved))
    ensures Grows(old(v.memo), v.memo) && v.count == old(v.count) + |b.Legal()|
    ensures |isort| == |b.Legal()| && forall i :: 0 <= i < |isort| ==> isort[i].1 == b.Legal()[i]
    ensures Pure(b.rules) && Faithful(b.rules, old(v.memo)) ==>
      Faithful(b.rules, v.memo) && isort == OnePly(b.rules, b.Current())
  {
    ghost var p := b.Current();
    ghost var faithful := Pure(b.rules) && Faithful(b.rules, v.memo);
    isort := [];
    var legal := b.Legal();
    var i := 0;
    while i < |legal|
      invariant 0 <= i <= |legal|
      invariant b.Holds(p, old(b.moveStack), old(b.saved))
      invariant Grows(old(v.memo), v.memo) && v.count == old(v.count) + i
      invariant |isort| == i && forall j :: 0 <= j < i ==> isort[j].1 == legal[j]
      invariant faithful ==> Faithful(b.rules, v.memo) && isort == OnePly(b.rules, p)[..i]
    {
      b.Push(legal[i]);
      var score := v.Call(b);
      isort := isort + [(score, legal[i])];
      var _ := b.Pop();
      i := i + 1;
    }
  }

  /** The search loop: pushes each move of `es` in turn, searches the child
      one ply deeper with the unchanged bounds, takes the move back, folds
      the child's score into the running best and stops after the first
      child that passes the cut-off test. */
  method SearchMoves<S(!new), M, K(==)>(b: Board<S, M, K>, v: ClassicValuator<K>, depth: nat,
                                        alpha: real, beta: real, big: bool, es: seq<M>)
      returns (ret: real, bret: seq<(real, M)>)
    requires b.Valid() && depth < DEPTH
    modifies b, v
    ensures b.Holds(old(b.Current()), old(b.moveStack), old(b.saved))
    ensures Grows(old(v.memo), v.memo) && v.count >= old(v.count)
    ensures !big ==> bret == []
    ensures Pure(b.rules) && Faithful(b.rules, old(v.memo)) ==>
      && Faithful(b.rules, v.memo)
      && ret == Sweep(b.rules, old(b.Current()), depth, alpha, beta, es, Init(old(b.turn))).best
      && (big ==> bret == Sweep(b.rules, old(b.Current()), depth, alpha, beta, es, Init(old(b.turn))).scored)
    decreases DEPTH - depth, 1
  {
    ghost var rules := b.rules;
    ghost var p := b.Current();
    ghost var faithful := Pure(rules) && Faithful(rules, v.memo);
    var turn := b.turn;
    ret := if turn == White then -MAXVALUE else MAXVALUE;
    bret := [];
    ghost var all := Sweep(rules, p, depth, alpha, beta, es, ret);
    var k := 0;
    while k < |es|
      invariant 0 <= k <= |es|
      invariant b.Holds(p, old(b.moveStack), old(b.saved))
      invariant Grows(old(v.memo), v.memo) && v.count >= old(v.count)
      invariant !big ==> bret == []
      invariant faithful ==> Faithful(rules, v.memo) && Progress(rules, p, depth, alpha, beta, es, k, ret, big, bret, all)
    {
      var tval := SearchChild(b, v, depth, alpha, beta, es[k]);
      if faithful {
        ProgressStep(rules, p, depth, alpha, beta, es, k, ret, big, bret, all, tval);
      }
      if big {
        bret := bret + [(tval, es[k])];
      }
      var stop;
      ret, stop := FoldChild(turn, alpha, beta, ret, tval);
      if stop {
        break;
      }
      k := k + 1;
    }
    if faithful && k == |es| {
      ProgressDone(rules, p, depth, alpha, beta, es, ret, big, bret, all);
    }
  }

  /** Folds a child's score into the running best and runs the cut-off
      test against the node's own bounds. The narrowed bound is computed
      and discarded: `alpha` and `beta` are never updated. */
  method FoldChild(turn: Color, alpha: real, beta: real, ret: real, tval: real) returns (ret': real, stop: bool)
    ensures ret' == Combine(turn, ret, tval)
    ensures stop <==> Cutoff(turn, alpha, beta, ret')
  {
    if turn == White {
      ret' := Max(ret, tval);
      var a := Max(alpha, ret');
      stop := a >= beta;
    } else {
      ret' := Min(ret, tval);
      var b := Min(beta, ret');
      stop := b <= alpha;
    }
  }

  /** The search loop after `k` moves of `es`, from running best `ret` and
      collected pairs `bret`: what the rest of the moves give completes the
      sweep `all` of the whole list. */
  ghost predicate Progress<S, M, K>(rules: Rules<S, M, K>, p: Position<S>, depth: nat, alpha: real, beta: real,
                                    es: seq<M>, k: nat, ret: real, big: bool, bret: seq<(real, M)>, all: Swept<M>)
  {
    && depth < DEPTH && k <= |es|
    && var rest := Sweep(rules, p, depth, alpha, beta, es[k..], ret);
    && all.best == rest.best
    && (big ==> all.scored == bret + rest.scored)
  }

  /** One turn of the search loop: after the `k`-th child scores `t`, either
      the cut-off ends the sweep with the new running best, or the loop
      goes on from the next move. */
  lemma ProgressStep<S, M, K>(rules: Rules<S, M, K>, p: Position<S>, depth: nat, alpha: real, beta: real,
                              es: seq<M>, k: nat, ret: real, big: bool, bret: seq<(real, M)>, all: Swept<M>, t: real)
    requires Progress(rules, p, depth, alpha, beta, es, k, ret, big, bret, all) && k < |es|
    requires t == Score(rules, rules.apply(p, es[k]), depth + 1, alpha, beta)
    ensures var ret' := Combine(p.turn, ret, t);
      var bret' := if big then bret + [(t, es[k])] else bret;
      if Cutoff(p.turn, alpha, beta, ret') then all.best == ret' && (big ==> all.scored == bret')
      else Progress(rules, p, depth, alpha, beta, es, k + 1, ret', big, bret', all)
  {
    assert es[k..][0] == es[k] && es[k..][1..] == es[k + 1..];
  }

  lemma ProgressDone<S, M, K>(rules: Rules<S, M, K>, p: Position<S>, depth: nat, alpha: real, beta: real,
                              es: seq<M>, ret: real, big: bool, bret: seq<(real, M)>, all: Swept<M>)
    requires Progress(rules, p, depth, alpha, beta, es, |es|, ret, big, bret, all)
    ensures all.best == ret && (big ==> all.scored == bret)
  {
    assert es[|es|..] == [];
  }

  /** One step of the search loop: pushes `m`, searches the child one ply
      deeper with the same bounds, and pops `m` again. */
  method SearchChild<S(!new), M, K(==)>(b: Board<S, M, K>, v: ClassicValuator<K>, depth: nat,
                                        alpha: real, beta: real, m: M)
      returns (tval: real)
    requires b.Valid() && depth < DEPTH
    modifies b, v
    ensures b.Holds(old(b.Current()), old(b.moveStack), old(b.saved))
    ensures Grows(old(v.memo), v.memo) && v.count >= old(v.count)
    ensures Pure(b.rules) && Faithful(b.rules, old(v.memo)) ==>
      && Faithful(b.rules, v.memo)
      && tval == Score(b.rules, b.rules.apply(old(b.Current()), m), depth + 1, alpha, beta)
    decreases DEPTH - depth, 0
  {
    b.Push(m);
    var childScored;
    tval, childScored := Minimax(b, v, depth + 1, alpha, beta, false);
    var _ := b.Pop();
  }
}

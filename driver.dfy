/** Choosing and playing the computer's move from a list of scored
    candidates. */
module Driver {
  import opened Game
  import opened Ordering
  import opened Search

  /** Ranks the candidates for the side to move (highest score first for
      White, lowest first for Black, ties in list order) and plays the first
      one; with no candidates the board is left alone. */
  method ComputerMove<S, M, K>(b: Board<S, M, K>, candidates: seq<(real, M)>)
    requires b.Valid()
    modifies b
    ensures b.Valid()
    ensures candidates == [] ==>
      b.Current() == old(b.Current()) && b.moveStack == old(b.moveStack) && b.saved == old(b.saved)
    ensures candidates != [] ==>
      var chosen := SortByScore(candidates, old(b.turn) == White)[0].1;
      && b.moveStack == old(b.moveStack) + [chosen]
      && b.saved == old(b.saved) + [old(b.Current())]
      && b.Current() == b.rules.apply(old(b.Current()), chosen)
  {
    var move := SortByScore(candidates, b.turn == White);
    SortSortsAndPermutes(candidates, b.turn == White);
    assert |move| == |multiset(move)| == |candidates|;
    if |move| == 0 {
      return;
    }
    b.Push(move[0].1);
  }

  /** When the candidates are the pairs a top-level search collected, the
      move played is one the search visited, its score is the best of them,
      and it is the value of the search unless every visited child scored
      worse than the starting bound (-MAXVALUE for White, MAXVALUE for
      Black). */
  lemma ChosenCarriesRootValue<S, M, K>(rules: Rules<S, M, K>, p: Position<S>, alpha: real, beta: real)
    requires !rules.over(p) && Candidates(rules, p, 0) != []
    ensures var w := Sweep(rules, p, 0, alpha, beta, Candidates(rules, p, 0), Init(p.turn));
      && |w.scored| > 0
      && |SortByScore(w.scored, p.turn == White)| > 0
      && var chosen := SortByScore(w.scored, p.turn == White)[0];
      && chosen in w.scored
      && (forall i :: 0 <= i < |w.scored| ==> AtLeast(p.turn == White, chosen.0, w.scored[i].0))
      && (AtLeast(p.turn == White, chosen.0, Init(p.turn)) ==> chosen.0 == Score(rules, p, 0, alpha, beta))
  {
    var w := Sweep(rules, p, 0, alpha, beta, Candidates(rules, p, 0), Init(p.turn));
    SweepVisits(rules, p, 0, alpha, beta, Candidates(rules, p, 0), Init(p.turn));
    SweepIsExtreme(rules, p, 0, alpha, beta, Candidates(rules, p, 0), Init(p.turn));
    SortedHead(w.scored, p.turn == White);
  }
}

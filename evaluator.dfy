/** The classic position evaluator: a score for the player with the white
    pieces (positive is good for White), from the game result when the game
    is over and from material and mobility otherwise, behind a cache keyed by
    the position key with a counter of calls. */
module Evaluator {
  import opened Game

  /** The score of a game White has won; a lost game scores its negation. */
  const MAXVALUE: real := 10000.0

  /** The `values` table: what each kind of piece is worth. */
  function PieceValue(t: PieceType): int
  {
    match t
    case Pawn => 1
    case Knight => 3
    case Bishop => 3
    case Rook => 5
    case Queen => 9
    case King => 0
  }

  /** What one piece adds to the balance: its value, negated for Black. */
  function Signed(p: Piece): int
  {
    if p.color == White then PieceValue(p.kind) else -PieceValue(p.kind)
  }

  /** The material balance accumulated over the pieces in enumeration order,
      the way the evaluation loop adds them up. */
  function Material(ps: seq<Piece>): int
  {
    if ps == [] then 0 else Material(ps[..|ps| - 1]) + Signed(ps[|ps| - 1])
  }

  /** White pieces of kind `t` minus black pieces of kind `t`. */
  function Net(m: multiset<Piece>, t: PieceType): int
  {
    m[Piece(t, White)] as int - m[Piece(t, Black)] as int
  }

  /** Reference definition of the material balance: for each kind of piece,
      its value times (white pieces of that kind minus black ones); kings
      are worth nothing and do not appear. */
  function Balance(m: multiset<Piece>): int
  {
    Net(m, Pawn) + 3 * Net(m, Knight) + 3 * Net(m, Bishop) + 5 * Net(m, Rook) + 9 * Net(m, Queen)
  }

  lemma BalanceAdd(m: multiset<Piece>, p: Piece)
    ensures Balance(m + multiset{p}) == Balance(m) + Signed(p)
  {
  }

  /** The accumulated material equals the per-kind count balance. */
  lemma {:induction false} MaterialIsBalance(ps: seq<Piece>)
    ensures Material(ps) == Balance(multiset(ps))
  {
    if ps != [] {
      var n := |ps|;
      MaterialIsBalance(ps[..n - 1]);
      assert ps == ps[..n - 1] + [ps[n - 1]];
      assert multiset(ps) == multiset(ps[..n - 1]) + multiset{ps[n - 1]};
      BalanceAdd(multiset(ps[..n - 1]), ps[n - 1]);
    }
  }

  /** The material balance does not depend on the order in which the piece
      map is enumerated. */
  lemma MaterialIgnoresOrder(ps: seq<Piece>, qs: seq<Piece>)
    requires multiset(ps) == multiset(qs)
    ensures Material(ps) == Material(qs)
  {
    MaterialIsBalance(ps);
    MaterialIsBalance(qs);
  }

  /** The score of a finished game, from its result. */
  function GameOverScore(r: GameResult): real
  {
    if r == WhiteWins then MAXVALUE
    else if r == BlackWins then -MAXVALUE
    else 0.0
  }

  /** One tenth of the legal moves White would have minus one tenth of those
      Black would have, each side being put to move on the same setup. */
  function Mobility<S, M, K>(rules: Rules<S, M, K>, setup: S): real
  {
    0.1 * (|rules.legal(Position(setup, White))| as real)
    - 0.1 * (|rules.legal(Position(setup, Black))| as real)
  }

  /** The evaluation of a position, as a function of the position. */
  function Eval<S, M, K>(rules: Rules<S, M, K>, p: Position<S>): real
  {
    if rules.over(p) then GameOverScore(rules.result(p))
    else (Material(rules.pieces(p.setup)) as real) + Mobility(rules, p.setup)
  }

  /** A finished game scores MAXVALUE, -MAXVALUE or 0 and nothing else; an
      unfinished one scores its material and mobility balance. */
  lemma EvalCases<S, M, K>(rules: Rules<S, M, K>, p: Position<S>)
    ensures rules.over(p) ==> (Eval(rules, p) == MAXVALUE <==> rules.result(p) == WhiteWins)
    ensures rules.over(p) ==> (Eval(rules, p) == -MAXVALUE <==> rules.result(p) == BlackWins)
    ensures rules.over(p) ==> (Eval(rules, p) == 0.0 <==> rules.result(p) !in {WhiteWins, BlackWins})
    ensures !rules.over(p) ==>
      Eval(rules, p) == (Balance(multiset(rules.pieces(p.setup))) as real) + Mobility(rules, p.setup)
  {
    MaterialIsBalance(rules.pieces(p.setup));
  }

  /** The evaluation of an unfinished game does not depend on whose turn it
      is: mobility is measured for both sides on the same setup. */
  lemma EvalIgnoresTurn<S, M, K>(rules: Rules<S, M, K>, p: Position<S>, q: Position<S>)
    requires !rules.over(p) && !rules.over(q) && p.setup == q.setup
    ensures Eval(rules, p) == Eval(rules, q)
  {
  }

  /** Positions with equal keys evaluate alike: the condition under which a
      cache keyed by position keys is transparent. */
  ghost predicate Pure<S(!new), M, K>(rules: Rules<S, M, K>)
  {
    forall p: Position<S>, q: Position<S> :: rules.key(p) == rules.key(q) ==> Eval(rules, p) == Eval(rules, q)
  }

  /** Every cache entry is the evaluation of every position with its key. */
  ghost predicate Faithful<S(!new), M, K>(rules: Rules<S, M, K>, memo: map<K, real>)
  {
    forall p: Position<S> :: rules.key(p) in memo ==> memo[rules.key(p)] == Eval(rules, p)
  }

  /** `after` keeps every entry of `before` unchanged. */
  ghost predicate Grows<K>(before: map<K, real>, after: map<K, real>)
  {
    forall k :: k in before ==> k in after && after[k] == before[k]
  }

  /** Under purity, storing the evaluation of a position keeps the cache
      faithful; this is what makes cached scores equal to fresh ones. */
  lemma StoreKeepsFaithful<S(!new), M, K>(rules: Rules<S, M, K>, memo: map<K, real>, p: Position<S>)
    requires Pure(rules) && Faithful(rules, memo)
    ensures Faithful(rules, memo[rules.key(p) := Eval(rules, p)])
  {
    var memo' := memo[rules.key(p) := Eval(rules, p)];
    forall q: Position<S> | rules.key(q) in memo'
      ensures memo'[rules.key(q)] == Eval(rules, q)
    {
      if rules.key(q) == rules.key(p) {
        assert Eval(rules, q) == Eval(rules, p);
      }
    }
  }

  class ClassicValuator<K(==)> {
    var count: nat
    var memo: map<K, real>

    constructor ()
      ensures count == 0 && memo == map[]
    {
      count := 0;
      memo := map[];
    }

    /** Clears the call counter; the cache is kept. */
    method Reset()
      modifies this`count
      ensures count == 0
    {
      count := 0;
    }

    /** Scores the board's position: counts the call, evaluates the position
        only when its key is not cached yet, and answers from the cache. */
    method Call<S(!new), M>(b: Board<S, M, K>) returns (r: real)
      modifies this, b`turn
      ensures b.turn == old(b.turn)
      ensures count == old(count) + 1
      ensures b.rules.key(b.Current()) in memo && r == memo[b.rules.key(b.Current())]
      ensures b.rules.key(b.Current()) in old(memo) ==> memo == old(memo)
      ensures b.rules.key(b.Current()) !in old(memo) ==>
        memo == old(memo)[b.rules.key(b.Current()) := Eval(b.rules, b.Current())]
      ensures Pure(b.rules) && Faithful(b.rules, old(memo)) ==>
        Faithful(b.rules, memo) && r == Eval(b.rules, b.Current())
    {
      count := count + 1;
      var key := b.rules.key(b.Current());
      if key !in memo {
        var x := Value(b);
        if Pure(b.rules) && Faithful(b.rules, memo) {
          StoreKeepsFaithful(b.rules, memo, b.Current());
        }
        memo := memo[key := x];
      }
      r := memo[key];
    }

    /** Evaluates the board's position. To count legal moves for each side
        it writes the side to move and then puts the original side back. */
    method Value<S, M>(b: Board<S, M, K>) returns (r: real)
      modifies b`turn
      ensures b.turn == old(b.turn)
      ensures r == Eval(b.rules, b.Current())
      ensures b.IsOver() ==> r == GameOverScore(b.rules.result(b.Current()))
    {
      if b.rules.over(b.Current()) {
        var res := b.rules.result(b.Current());
        if res == WhiteWins {
          return MAXVALUE;
        } else if res == BlackWins {
          return -MAXVALUE;
        } else {
          return 0.0;
        }
      }
      var val := 0.0;
      var pm := b.rules.pieces(b.setup);
      var i := 0;
      while i < |pm|
        invariant 0 <= i <= |pm|
        invariant val == Material(pm[..i]) as real
      {
        var tval := PieceValue(pm[i].kind);
        if pm[i].color == White {
          val := val + tval as real;
        } else {
          val := val - tval as real;
        }
        assert pm[..i + 1][..i] == pm[..i];
        i := i + 1;
      }
      assert pm[..i] == pm;
      var bak := b.turn;
      b.turn := White;
      val := val + 0.1 * (|b.rules.legal(b.Current())| as real);
      b.turn := Black;
      val := val - 0.1 * (|b.rules.legal(b.Current())| as real);
      b.turn := bak;
      r := val;
    }
  }
}

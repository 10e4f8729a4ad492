/** The rules engine the engine plays on, seen only through an abstract
    interface. The rules themselves (move generation, checkmate detection,
    notation) belong to an external chess library and are not part of this
    model: a `Rules` value bundles them as total functions, and every result
    of the model holds for all such bundles.

    A position is split as the library stores it: everything except the side
    to move (`S`, e.g. piece placement, castling rights, en-passant square)
    plus the side to move itself, which the library keeps in a separately
    writable field. */
module Game {

  datatype Color = White | Black

  /** The library's result strings: '1-0', '0-1', '1/2-1/2' and '*'. */
  datatype GameResult = WhiteWins | BlackWins | Drawn | Unfinished

  datatype PieceType = Pawn | Knight | Bishop | Rook | Queen | King

  datatype Piece = Piece(kind: PieceType, color: Color)

  datatype Position<S> = Position(setup: S, turn: Color)

  /** The rules engine: legal moves of a position (in generation order), the
      position a move leads to, game-over detection and result, the
      canonical position key, and the pieces on the board in the order the
      library's piece map enumerates them. */
  datatype Rules<!S, !M, K> = Rules(
    legal: Position<S> -> seq<M>,
    apply: (Position<S>, M) -> Position<S>,
    over: Position<S> -> bool,
    result: Position<S> -> GameResult,
    key: Position<S> -> K,
    pieces: S -> seq<Piece>
  )

  /** The live, mutable board. Its position changes only through `Push` and
      `Pop` and through direct writes of the side-to-move field `turn`.
      `saved` is the library's stack of positions saved by `Push`, one per
      entry of `moveStack`. */
  class Board<S, M, K> {
    const rules: Rules<S, M, K>
    var setup: S
    var turn: Color
    var moveStack: seq<M>
    var saved: seq<Position<S>>

    ghost predicate Valid()
      reads this
    {
      |saved| == |moveStack|
    }

    /** The board holds position `p`, move stack `ms` and saved positions
        `sv`, consistently. */
    ghost predicate Holds(p: Position<S>, ms: seq<M>, sv: seq<Position<S>>)
      reads this
    {
      Valid() && Current() == p && moveStack == ms && saved == sv
    }

    function Current(): Position<S>
      reads this
    {
      Position(setup, turn)
    }

    function Legal(): seq<M>
      reads this
    {
      rules.legal(Current())
    }

    function IsOver(): bool
      reads this
    {
      rules.over(Current())
    }

    constructor (rules: Rules<S, M, K>, start: Position<S>)
      ensures Valid() && this.rules == rules
      ensures Current() == start && moveStack == [] && saved == []
    {
      this.rules := rules;
      setup := start.setup;
      turn := start.turn;
      moveStack := [];
      saved := [];
    }

    /** Plays `m`: the current position is saved, `m` goes on the move stack
        and the position becomes the one the rules give for `m`. */
    method Push(m: M)
      requires Valid()
      modifies this
      ensures Valid()
      ensures moveStack == old(moveStack) + [m]
      ensures saved == old(saved) + [old(Current())]
      ensures Current() == rules.apply(old(Current()), m)
    {
      var next := rules.apply(Current(), m);
      saved := saved + [Current()];
      moveStack := moveStack + [m];
      setup := next.setup;
      turn := next.turn;
    }

    /** Takes back the last move: the position saved by the matching `Push`
        comes back and both stacks shrink by one. */
    method Pop() returns (m: M)
      requires Valid() && |moveStack| > 0
      modifies this
      ensures Valid()
      ensures m == old(moveStack)[|old(moveStack)| - 1]
      ensures moveStack == old(moveStack)[..|old(moveStack)| - 1]
      ensures saved == old(saved)[..|old(saved)| - 1]
      ensures Current() == old(saved)[|old(saved)| - 1]
    {
      var n := |moveStack|;
      m := moveStack[n - 1];
      var back := saved[n - 1];
      moveStack := moveStack[..n - 1];
      saved := saved[..n - 1];
      setup := back.setup;
      turn := back.turn;
    }
  }
}

/**
 * The adjacency test and the per-type move generation of the auto-battler.
 * Move generation reads the board only for occupancy and colour.
 */
module Moves {
  import opened Board

  function Abs(n: int): nat {
    if n < 0 then -n else n
  }

  /** Chebyshev distance at most one, or a knight's L, whatever the piece. */
  predicate IsAdjacent(a: Pos, b: Pos) {
    var dx := Abs(a.x - b.x);
    var dy := Abs(a.y - b.y);
    (dx <= 1 && dy <= 1) || (dx == 2 && dy == 1) || (dx == 1 && dy == 2)
  }

  /**
   * The seventeen cells the adjacency test accepts around `a`: the 3x3 block
   * centred on `a`, `a` itself included, then the eight knight offsets in the
   * order the program lists them.
   */
  function Around(a: Pos): seq<Pos> {
    [ Pos(a.x - 1, a.y - 1), Pos(a.x, a.y - 1), Pos(a.x + 1, a.y - 1),
      Pos(a.x - 1, a.y), a, Pos(a.x + 1, a.y),
      Pos(a.x - 1, a.y + 1), Pos(a.x, a.y + 1), Pos(a.x + 1, a.y + 1),
      Pos(a.x - 2, a.y - 1), Pos(a.x - 2, a.y + 1), Pos(a.x - 1, a.y - 2), Pos(a.x - 1, a.y + 2),
      Pos(a.x + 1, a.y - 2), Pos(a.x + 1, a.y + 2), Pos(a.x + 2, a.y - 1), Pos(a.x + 2, a.y + 1) ]
  }

  /** A cell passes the adjacency test from `a` exactly when it is one of the seventeen cells around `a`. */
  lemma AdjacentCells(a: Pos)
    ensures forall m :: IsAdjacent(a, m) <==> m in Around(a)
  {
  }

  /** `b` is a knight's jump away from `a`. */
  predicate IsKnightJump(a: Pos, b: Pos) {
    var dx := Abs(a.x - b.x);
    var dy := Abs(a.y - b.y);
    (dx == 1 && dy == 2) || (dx == 2 && dy == 1)
  }

  /** Cell `q` holds a piece of the colour other than `c`. */
  predicate Enemy(b: Board, c: Color, q: Pos)
    requires IsBoard(b) && OnBoard(q)
  {
    At(b, q).Some? && At(b, q).value.color != c
  }

  /** Cell `q` is empty or holds a piece of the colour other than `c`. */
  predicate Enterable(b: Board, c: Color, q: Pos)
    requires IsBoard(b) && OnBoard(q)
  {
    At(b, q).None? || At(b, q).value.color != c
  }

  /** The row step of a pawn: white goes up the board, black goes down. */
  function Forward(c: Color): int {
    if c == White then -1 else 1
  }

  /**
   * The pawn rule stated cell by cell: one row forward, and either straight
   * ahead onto an empty cell or one column aside onto an enemy.
   */
  predicate PawnTarget(p: Piece, b: Board, m: Pos)
    requires IsBoard(b)
  {
    && OnBoard(m)
    && m.y == p.pos.y + Forward(p.color)
    && ((m.x == p.pos.x && At(b, m).None?) || (Abs(m.x - p.pos.x) == 1 && Enemy(b, p.color, m)))
  }

  /** Forward step, then the left and the right forward diagonals. */
  function PawnMoves(p: Piece, b: Board): (ms: seq<Pos>)
    requires IsBoard(b) && OnBoard(p.pos)
    ensures |ms| <= 3
    ensures forall m :: m in ms <==> PawnTarget(p, b, m)
  {
    var x := p.pos.x;
    var ny := p.pos.y + Forward(p.color);
    if 0 <= ny < Size then
      var ahead := if At(b, Pos(x, ny)).None? then [Pos(x, ny)] else [];
      var left := if x > 0 && Enemy(b, p.color, Pos(x - 1, ny)) then [Pos(x - 1, ny)] else [];
      var right := if x < Size - 1 && Enemy(b, p.color, Pos(x + 1, ny)) then [Pos(x + 1, ny)] else [];
      ahead + left + right
    else
      []
  }

  /** The destination at offset (dx, dy), if it is on the board and not friendly. */
  function Jump(p: Piece, b: Board, dx: int, dy: int): (ms: seq<Pos>)
    requires IsBoard(b)
    ensures |ms| <= 1
    ensures forall m :: m in ms <==>
      m == Pos(p.pos.x + dx, p.pos.y + dy) && OnBoard(m) && Enterable(b, p.color, m)
  {
    var q := Pos(p.pos.x + dx, p.pos.y + dy);
    if OnBoard(q) && Enterable(b, p.color, q) then [q] else []
  }

  /** The eight L offsets, in the order the program lists them. */
  function KnightMoves(p: Piece, b: Board): (ms: seq<Pos>)
    requires IsBoard(b)
    ensures |ms| <= 8
    ensures forall m :: m in ms <==> OnBoard(m) && IsKnightJump(p.pos, m) && Enterable(b, p.color, m)
  {
    KnightOffsets(p.pos);
    Jump(p, b, -2, -1) + Jump(p, b, -2, 1) + Jump(p, b, -1, -2) + Jump(p, b, -1, 2)
    + Jump(p, b, 1, -2) + Jump(p, b, 1, 2) + Jump(p, b, 2, -1) + Jump(p, b, 2, 1)
  }

  /** A knight's jump is exactly one of the eight offsets the program lists. */
  lemma KnightOffsets(a: Pos)
    ensures forall m :: IsKnightJump(a, m) <==>
      m in [Pos(a.x - 2, a.y - 1), Pos(a.x - 2, a.y + 1), Pos(a.x - 1, a.y - 2), Pos(a.x - 1, a.y + 2),
            Pos(a.x + 1, a.y - 2), Pos(a.x + 1, a.y + 2), Pos(a.x + 2, a.y - 1), Pos(a.x + 2, a.y + 1)]
  {
  }

  /** The four rook directions: +x, -x, +y, -y. */
  datatype Dir = East | West | South | North

  /** The cell `n` steps from `o` in direction `d`. */
  function Step(o: Pos, d: Dir, n: int): Pos {
    match d
    case East => Pos(o.x + n, o.y)
    case West => Pos(o.x - n, o.y)
    case South => Pos(o.x, o.y + n)
    case North => Pos(o.x, o.y - n)
  }

  /** Another cell of the same row or of the same column. */
  predicate Aligned(o: Pos, m: Pos) {
    (o.x == m.x) != (o.y == m.y)
  }

  function DirTo(o: Pos, m: Pos): Dir
    requires Aligned(o, m)
  {
    if m.y == o.y then (if m.x > o.x then East else West)
    else (if m.y > o.y then South else North)
  }

  /** Manhattan distance; along a row or a column, the number of steps. */
  function Dist(o: Pos, m: Pos): nat {
    Abs(m.x - o.x) + Abs(m.y - o.y)
  }

  /** Every cell strictly between `o` and `m` on their common row or column is empty. */
  predicate ClearBetween(b: Board, o: Pos, m: Pos)
    requires IsBoard(b) && OnBoard(o) && OnBoard(m) && Aligned(o, m)
  {
    forall i :: 0 < i < Dist(o, m) ==> At(b, Step(o, DirTo(o, m), i)).None?
  }

  /** The cells a ray from `o` in direction `d` reaches from step `k` on. */
  predicate RayTarget(b: Board, c: Color, o: Pos, d: Dir, k: nat, m: Pos)
    requires IsBoard(b) && OnBoard(o)
  {
    && OnBoard(m)
    && Aligned(o, m)
    && DirTo(o, m) == d
    && k <= Dist(o, m)
    && (forall i :: k <= i < Dist(o, m) ==> At(b, Step(o, d, i)).None?)
    && Enterable(b, c, m)
  }

  /**
   * Slide from step `k` on: every empty cell, then the first occupied cell
   * if it holds an enemy; stop at the edge or at the first occupied cell.
   */
  function Ray(b: Board, c: Color, o: Pos, d: Dir, k: nat): (ms: seq<Pos>)
    requires IsBoard(b) && OnBoard(o) && 1 <= k
    ensures forall m :: m in ms <==> RayTarget(b, c, o, d, k, m)
    decreases Size - k
  {
    var q := Step(o, d, k);
    if !OnBoard(q) then []
    else if At(b, q).None? then [q] + Ray(b, c, o, d, k + 1)
    else if At(b, q).value.color != c then [q]
    else []
  }

  /** The four rays, in the program's order. */
  function RookMoves(p: Piece, b: Board): (ms: seq<Pos>)
    requires IsBoard(b) && OnBoard(p.pos)
    ensures forall m :: m in ms <==>
      OnBoard(m) && Aligned(p.pos, m) && ClearBetween(b, p.pos, m) && Enterable(b, p.color, m)
  {
    var o, c := p.pos, p.color;
    Ray(b, c, o, East, 1) + Ray(b, c, o, West, 1) + Ray(b, c, o, South, 1) + Ray(b, c, o, North, 1)
  }

  /** The destinations of `p` on board `b`. */
  function ValidMoves(p: Piece, b: Board): (ms: seq<Pos>)
    requires IsBoard(b) && OnBoard(p.pos)
    ensures forall m :: m in ms ==> OnBoard(m) && m != p.pos && Enterable(b, p.color, m)
  {
    match p.kind
    case Pawn => PawnMoves(p, b)
    case Knight => KnightMoves(p, b)
    case Rook => RookMoves(p, b)
  }

  /** The adjacency test is symmetric and contains every knight's jump. */
  lemma AdjacencySymmetric(a: Pos, b: Pos)
    ensures IsAdjacent(a, b) <==> IsAdjacent(b, a)
    ensures IsKnightJump(a, b) ==> IsAdjacent(a, b)
  {
  }

  /**
   * Every destination of a pawn or a knight is adjacent to it, so every enemy
   * they can reach is attacked rather than moved onto.
   */
  lemma ShortRangeTargetsAdjacent(p: Piece, b: Board, m: Pos)
    requires IsBoard(b) && OnBoard(p.pos) && p.kind != Rook
    requires m in ValidMoves(p, b)
    ensures IsAdjacent(p.pos, m)
  {
  }

  /** A rook's destination is adjacent to it exactly when it is one step away. */
  lemma RookAdjacentOnlyAtOneStep(p: Piece, b: Board, m: Pos)
    requires IsBoard(b) && OnBoard(p.pos) && p.kind == Rook
    requires m in ValidMoves(p, b)
    ensures IsAdjacent(p.pos, m) <==> Dist(p.pos, m) == 1
  {
  }
}

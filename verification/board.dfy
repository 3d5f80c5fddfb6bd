/**
 * Pieces, cells and the 8x8 board of the auto-battler, the game state, and
 * the rebuild of the board from the piece list with which every state change
 * of the component ends.
 */
module Board {

  datatype Option<T> = None | Some(value: T)

  datatype Color = White | Black {
    /** The side that acts after this one. */
    function Opponent(): Color {
      if this == White then Black else White
    }
  }

  datatype Kind = Pawn | Knight | Rook

  /** A cell: `x` is the column, `y` the row; row 0 is at the top, on black's side. */
  datatype Pos = Pos(x: int, y: int)

  /**
   * A piece. The JavaScript program compares pieces by object identity; `id`
   * stands for that identity, so two values with the same `id` are two
   * snapshots of one object.
   */
  datatype Piece = Piece(id: nat, kind: Kind, color: Color, pos: Pos, health: int)

  const Size: int := 8

  predicate OnBoard(q: Pos) {
    0 <= q.x < Size && 0 <= q.y < Size
  }

  /** Rows indexed by `y`, each row indexed by `x`, as `board[y][x]` in the program. */
  type Board = seq<seq<Option<Piece>>>

  predicate IsBoard(b: Board) {
    |b| == Size && forall y :: 0 <= y < Size ==> |b[y]| == Size
  }

  function At(b: Board, q: Pos): Option<Piece>
    requires IsBoard(b) && OnBoard(q)
  {
    b[q.y][q.x]
  }

  /** The board with cell `q` set to `v` and every other cell as it was. */
  function Put(b: Board, q: Pos, v: Option<Piece>): (r: Board)
    requires IsBoard(b) && OnBoard(q)
    ensures IsBoard(r)
    ensures At(r, q) == v
    ensures forall c :: OnBoard(c) && c != q ==> At(r, c) == At(b, c)
  {
    b[q.y := b[q.y][q.x := v]]
  }

  function EmptyBoard(): (b: Board)
    ensures IsBoard(b)
    ensures forall c :: OnBoard(c) ==> At(b, c) == None
  {
    seq(Size, _ => seq(Size, _ => None))
  }

  predicate AllOnBoard(ps: seq<Piece>) {
    forall q :: q in ps ==> OnBoard(q.pos)
  }

  /** Every occupied cell holds a piece of `ps` whose position is that cell. */
  ghost predicate Synced(b: Board, ps: seq<Piece>)
    requires IsBoard(b)
  {
    forall c :: OnBoard(c) && At(b, c).Some? ==> At(b, c).value in ps && At(b, c).value.pos == c
  }

  /** No entry after entry `i` of `ps` stands on the cell of entry `i`. */
  predicate LastOnCell(ps: seq<Piece>, i: int)
    requires 0 <= i < |ps|
  {
    forall j :: i < j < |ps| ==> ps[j].pos != ps[i].pos
  }

  /**
   * The board written by placing every piece of `ps` on its cell, front to
   * back, onto an empty board: a cell is empty exactly when no piece stands
   * on it, and otherwise holds the last piece of the list standing on it.
   */
  function Rebuild(ps: seq<Piece>): (b: Board)
    requires AllOnBoard(ps)
    ensures IsBoard(b)
    ensures Synced(b, ps)
    ensures forall i :: 0 <= i < |ps| ==> At(b, ps[i].pos).Some?
    ensures forall i :: 0 <= i < |ps| && LastOnCell(ps, i) ==> At(b, ps[i].pos) == Some(ps[i])
    decreases |ps|
  {
    if |ps| == 0 then EmptyBoard()
    else
      var front := ps[..|ps| - 1];
      var last := ps[|ps| - 1];
      assert ps == front + [last];
      var prev := Rebuild(front);
      PlaceLast(front, last, prev);
      Put(prev, last.pos, Some(last))
  }

  /** One step of the rebuild: placing `last` after the pieces of `front`. */
  lemma PlaceLast(front: seq<Piece>, last: Piece, prev: Board)
    requires AllOnBoard(front + [last]) && IsBoard(prev)
    requires Synced(prev, front)
    requires forall i :: 0 <= i < |front| ==> At(prev, front[i].pos).Some?
    requires forall i :: 0 <= i < |front| && LastOnCell(front, i) ==> At(prev, front[i].pos) == Some(front[i])
    ensures var ps, b := front + [last], Put(prev, last.pos, Some(last));
      && Synced(b, ps)
      && (forall i :: 0 <= i < |ps| ==> At(b, ps[i].pos).Some?)
      && (forall i :: 0 <= i < |ps| && LastOnCell(ps, i) ==> At(b, ps[i].pos) == Some(ps[i]))
  {
    var ps, b := front + [last], Put(prev, last.pos, Some(last));
    assert last in ps;
    forall c | OnBoard(c) && At(b, c).Some?
      ensures At(b, c).value in ps && At(b, c).value.pos == c
    {
      if c != last.pos {
        assert At(b, c) == At(prev, c);
        assert At(prev, c).value in front;
      }
    }
    forall i | 0 <= i < |ps| && LastOnCell(ps, i)
      ensures At(b, ps[i].pos) == Some(ps[i])
    {
      if i < |front| {
        assert ps[i] == front[i];
        assert ps[|front|] == last;
        assert front[i].pos != last.pos;
        assert LastOnCell(front, i) by {
          forall j | i < j < |front| ensures front[j].pos != front[i].pos {
            assert front[j] == ps[j];
          }
        }
      }
    }
    forall i | 0 <= i < |ps| ensures At(b, ps[i].pos).Some? {
      if i < |front| && front[i].pos != last.pos {
        assert ps[i] == front[i];
      }
    }
  }

  /** The state of the component: the board, the piece list and the side to act. */
  datatype GameState = GameState(board: Board, pieces: seq<Piece>, turn: Color)

  /** Two entries with the same identity are the same value. */
  predicate IdsIdentify(ps: seq<Piece>) {
    forall a, b :: a in ps && b in ps && a.id == b.id ==> a == b
  }

  predicate AllAlive(ps: seq<Piece>) {
    forall q :: q in ps ==> q.health > 0
  }

  /** The board is the rebuild of the piece list, as after every update of the program. */
  predicate Consistent(s: GameState) {
    AllOnBoard(s.pieces) && s.board == Rebuild(s.pieces)
  }

  /** Consistent, identities unique, every piece alive: the states the program reaches. */
  predicate WellFormed(s: GameState) {
    Consistent(s) && IdsIdentify(s.pieces) && AllAlive(s.pieces)
  }

  /** The pieces of one colour, in list order. */
  function Side(ps: seq<Piece>, c: Color): (r: seq<Piece>)
    ensures forall q :: q in r <==> q in ps && q.color == c
    ensures |r| <= |ps|
  {
    if |ps| == 0 then []
    else (if ps[0].color == c then [ps[0]] else []) + Side(ps[1..], c)
  }

  predicate HasSide(ps: seq<Piece>, c: Color) {
    exists q :: q in ps && q.color == c
  }

  /** The first entry with identity `id`. */
  function Lookup(ps: seq<Piece>, id: nat): (r: Option<Piece>)
    ensures r.Some? ==> r.value in ps && r.value.id == id
    ensures r.None? ==> forall q :: q in ps ==> q.id != id
  {
    if |ps| == 0 then None
    else if ps[0].id == id then Some(ps[0])
    else Lookup(ps[1..], id)
  }

  /** Every entry with the identity of `v` replaced by `v`, in place. */
  function Replace(ps: seq<Piece>, v: Piece): (r: seq<Piece>)
    ensures |r| == |ps|
    ensures forall i :: 0 <= i < |ps| ==> r[i] == (if ps[i].id == v.id then v else ps[i])
  {
    seq(|ps|, i requires 0 <= i < |ps| => if ps[i].id == v.id then v else ps[i])
  }

  /** The list without the entries of identity `id`, in order. */
  function Remove(ps: seq<Piece>, id: nat): (r: seq<Piece>)
    ensures forall q :: q in r <==> q in ps && q.id != id
    ensures |r| <= |ps|
  {
    if |ps| == 0 then []
    else (if ps[0].id == id then [] else [ps[0]]) + Remove(ps[1..], id)
  }

  /** An identity no entry of `ps` has: the identity of a newly created object. */
  function NextId(ps: seq<Piece>): (n: nat)
    ensures forall q :: q in ps ==> q.id < n
  {
    if |ps| == 0 then 0
    else
      var rest := NextId(ps[1..]);
      if ps[0].id < rest then rest else ps[0].id + 1
  }

  /** Membership after `Replace`: `v` for the replaced identity, the old entries for every other. */
  lemma ReplaceMembers(ps: seq<Piece>, v: Piece)
    ensures forall q :: q in Replace(ps, v) ==> q == v || (q in ps && q.id != v.id)
    ensures forall q :: q in ps && q.id != v.id ==> q in Replace(ps, v)
    ensures (exists q :: q in ps && q.id == v.id) ==> v in Replace(ps, v)
    ensures forall q :: q in ps && q.id == v.id && q != v ==> q !in Replace(ps, v)
  {
    var r := Replace(ps, v);
    forall q | q in ps && q.id != v.id ensures q in r {
      var i :| 0 <= i < |ps| && ps[i] == q;
      assert r[i] == q;
    }
    if exists q :: q in ps && q.id == v.id {
      var q :| q in ps && q.id == v.id;
      var i :| 0 <= i < |ps| && ps[i] == q;
      assert r[i] == v;
    }
  }
}

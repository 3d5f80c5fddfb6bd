/**
 * The starting layout and the edits of the setup phase: dropping a piece,
 * new from the bank or already on the board, onto a cell, and dropping a
 * piece onto the trash.
 */
module Setup {
  import opened Board

  /** The health a piece starts with, as the piece bank offers it. */
  function StartHealth(k: Kind): int {
    match k
    case Pawn => 2
    case Knight => 4
    case Rook => 6
  }

  /** The ten pieces of the starting layout, in the program's order; identities 0 to 9. */
  function InitialPieces(): seq<Piece> {
    [ Piece(0, Pawn, White, Pos(3, 6), 2),
      Piece(1, Pawn, Black, Pos(3, 1), 2),
      Piece(2, Pawn, White, Pos(4, 6), 2),
      Piece(3, Pawn, Black, Pos(4, 1), 2),
      Piece(4, Knight, White, Pos(1, 7), 4),
      Piece(5, Knight, Black, Pos(1, 0), 4),
      Piece(6, Rook, White, Pos(0, 7), 6),
      Piece(7, Rook, Black, Pos(0, 0), 6),
      Piece(8, Rook, White, Pos(7, 7), 6),
      Piece(9, Rook, Black, Pos(7, 0), 6) ]
  }

  /** The starting state: the board shows the starting pieces, and white is to act. */
  function InitialState(): (s: GameState)
    ensures Consistent(s) && s.turn == White
  {
    InitialAliveOnBoard();
    GameState(Rebuild(InitialPieces()), InitialPieces(), White)
  }

  /** The starting state is well formed: consistent board, unique identities, every piece alive. */
  lemma InitialStateWellFormed()
    ensures WellFormed(InitialState())
  {
    InitialIds();
    InitialAliveOnBoard();
  }

  /** The starting identities are the list positions, so they are unique. */
  lemma InitialIds()
    ensures IdsIdentify(InitialPieces())
  {
    assert forall i :: 0 <= i < |InitialPieces()| ==> InitialPieces()[i].id == i;
    IdsByIndex(InitialPieces());
  }

  lemma InitialAliveOnBoard()
    ensures AllAlive(InitialPieces()) && AllOnBoard(InitialPieces())
  {
  }

  /** A list whose every entry has its own index as identity has unique identities. */
  lemma IdsByIndex(ps: seq<Piece>)
    requires forall i :: 0 <= i < |ps| ==> ps[i].id == i
    ensures IdsIdentify(ps)
  {
    forall a, b | a in ps && b in ps && a.id == b.id ensures a == b {
      var i :| 0 <= i < |ps| && ps[i] == a;
      var j :| 0 <= j < |ps| && ps[j] == b;
    }
  }

  /** Five white pieces at the start. */
  lemma InitialWhiteSide()
    ensures |Side(InitialPieces(), White)| == 5
  {
  }

  /** Five black pieces at the start. */
  lemma InitialBlackSide()
    ensures |Side(InitialPieces(), Black)| == 5
  {
  }

  /** Every starting piece has the starting health of its kind. */
  lemma InitialHealth()
    ensures forall q :: q in InitialPieces() ==> q.health == StartHealth(q.kind)
  {
  }

  /** No two starting pieces share a cell. */
  lemma InitialCellsDistinct()
    ensures forall a, b :: a in InitialPieces() && b in InitialPieces() && a.pos == b.pos ==> a == b
  {
  }

  /**
   * What is being dragged: a template from the bank, or a piece of the board
   * identified, as the program does, by the cell it was on, its kind and its
   * colour.
   */
  datatype Dragged = FromBank(kind: Kind, color: Color) | FromBoard(kind: Kind, color: Color, origin: Pos)

  predicate Matches(q: Piece, k: Kind, c: Color, o: Pos) {
    q.pos == o && q.kind == k && q.color == c
  }

  /** The pieces not standing on cell `t`, in order. */
  function Evict(ps: seq<Piece>, t: Pos): (r: seq<Piece>)
    ensures forall q :: q in r <==> q in ps && q.pos != t
  {
    if |ps| == 0 then []
    else (if ps[0].pos != t then [ps[0]] else []) + Evict(ps[1..], t)
  }

  /** Every piece matching the dragged one moved to `t`, in place. */
  function MoveMatching(ps: seq<Piece>, k: Kind, c: Color, o: Pos, t: Pos): (r: seq<Piece>)
    ensures |r| == |ps|
    ensures forall i :: 0 <= i < |ps| ==> r[i] == (if Matches(ps[i], k, c, o) then ps[i].(pos := t) else ps[i])
    ensures forall q :: q in ps && Matches(q, k, c, o) ==> q.(pos := t) in r
    ensures forall q :: q in ps && !Matches(q, k, c, o) ==> q in r
    ensures forall q :: q in r ==>
      || (q in ps && !Matches(q, k, c, o))
      || (q.pos == t && q.(pos := o) in ps && Matches(q.(pos := o), k, c, o))
  {
    var r := seq(|ps|, i requires 0 <= i < |ps| => if Matches(ps[i], k, c, o) then ps[i].(pos := t) else ps[i]);
    assert forall q :: q in ps ==> exists i :: 0 <= i < |ps| && ps[i] == q && r[i] == (if Matches(q, k, c, o) then q.(pos := t) else q);
    assert forall q :: q in r ==> exists i :: 0 <= i < |r| && r[i] == q && q == (if Matches(ps[i], k, c, o) then ps[i].(pos := t) else ps[i]);
    r
  }

  /**
   * Dropping onto cell `t`: if the board shows a piece there, every piece on
   * `t` leaves the list; then a bank template becomes a new piece on `t`, or
   * the dragged board piece is moved to `t`. The board is rebuilt.
   */
  function Drop(s: GameState, d: Dragged, t: Pos): (r: GameState)
    requires IsBoard(s.board) && AllOnBoard(s.pieces) && OnBoard(t)
    ensures Consistent(r) && r.turn == s.turn
  {
    var kept := if At(s.board, t).Some? then Evict(s.pieces, t) else s.pieces;
    var placed :=
      match d
      case FromBank(k, c) => kept + [Piece(NextId(s.pieces), k, c, t, StartHealth(k))]
      case FromBoard(k, c, o) => MoveMatching(kept, k, c, o, t);
    assert AllOnBoard(placed) by {
      if d.FromBoard? {
        forall q | q in placed ensures OnBoard(q.pos) {
          var i :| 0 <= i < |placed| && placed[i] == q;
        }
      }
    }
    GameState(Rebuild(placed), placed, s.turn)
  }

  /** With a consistent board, the occupancy test before the eviction changes nothing. */
  lemma DropEvicts(s: GameState, d: Dragged, t: Pos)
    requires Consistent(s) && OnBoard(t)
    ensures forall q :: q in s.pieces && q.pos != t ==> q in Evict(s.pieces, t)
    ensures (if At(s.board, t).Some? then Evict(s.pieces, t) else s.pieces) == Evict(s.pieces, t)
  {
    if At(s.board, t).None? {
      EvictNothing(s.pieces, t);
    }
  }

  lemma {:induction false} EvictNothing(ps: seq<Piece>, t: Pos)
    requires forall q :: q in ps ==> q.pos != t
    ensures Evict(ps, t) == ps
  {
    if |ps| > 0 {
      assert forall q :: q in ps[1..] ==> q in ps;
      EvictNothing(ps[1..], t);
      assert ps == [ps[0]] + ps[1..];
    }
  }

  /**
   * Dropping a bank template of kind `k` and colour `c` on `t`: a new piece
   * of that kind and colour with the starting health of its kind stands on
   * `t`, every earlier occupant of `t` is gone, every other piece is kept.
   */
  lemma BankDrop(s: GameState, k: Kind, c: Color, t: Pos)
    requires WellFormed(s) && OnBoard(t)
    ensures var r := Drop(s, FromBank(k, c), t);
      && At(r.board, t).Some?
      && var n := At(r.board, t).value;
      && n.kind == k && n.color == c && n.health == StartHealth(k) && n.pos == t
      && (forall q :: q in s.pieces ==> q.id != n.id)
      && (forall q :: q in r.pieces && q.pos == t ==> q == n)
      && (forall q :: q in s.pieces && q.pos != t ==> q in r.pieces)
      && (forall q :: q in r.pieces && q != n ==> q in s.pieces)
  {
    DropEvicts(s, FromBank(k, c), t);
    var r := Drop(s, FromBank(k, c), t);
    var n := Piece(NextId(s.pieces), k, c, t, StartHealth(k));
    assert r.pieces == Evict(s.pieces, t) + [n];
    assert r.pieces[|r.pieces| - 1] == n;
    assert LastOnCell(r.pieces, |r.pieces| - 1);
  }

  /** A bank drop keeps the state well formed. */
  lemma BankDropWellFormed(s: GameState, k: Kind, c: Color, t: Pos)
    requires WellFormed(s) && OnBoard(t)
    ensures WellFormed(Drop(s, FromBank(k, c), t))
  {
    DropEvicts(s, FromBank(k, c), t);
    var kept := Evict(s.pieces, t);
    var n := Piece(NextId(s.pieces), k, c, t, StartHealth(k));
    assert Drop(s, FromBank(k, c), t).pieces == kept + [n];
    AppendFresh(kept, n);
  }

  /** Appending a live piece with an identity above all listed ones keeps identities unique and pieces alive. */
  lemma AppendFresh(ps: seq<Piece>, n: Piece)
    requires IdsIdentify(ps) && AllAlive(ps) && n.health > 0
    requires forall q :: q in ps ==> q.id < n.id
    ensures IdsIdentify(ps + [n]) && AllAlive(ps + [n])
  {
    forall a, b | a in ps + [n] && b in ps + [n] && a.id == b.id ensures a == b {
      if a != n && b != n {
        assert a in ps && b in ps;
      }
    }
  }

  /**
   * Dropping a board piece from cell `o` onto any cell `t`, its own cell
   * included, keeps the state well formed.
   */
  lemma BoardDropWellFormed(s: GameState, k: Kind, c: Color, o: Pos, t: Pos)
    requires WellFormed(s) && OnBoard(t)
    ensures WellFormed(Drop(s, FromBoard(k, c, o), t))
  {
    DropEvicts(s, FromBoard(k, c, o), t);
    var r := Drop(s, FromBoard(k, c, o), t);
    var kept := Evict(s.pieces, t);
    assert r.pieces == MoveMatching(kept, k, c, o, t);
    MoveMatchingKeepsIds(kept, k, c, o, t);
  }

  /** Moving pieces keeps identities unique and every piece alive. */
  lemma MoveMatchingKeepsIds(ps: seq<Piece>, k: Kind, c: Color, o: Pos, t: Pos)
    requires IdsIdentify(ps) && AllAlive(ps)
    ensures IdsIdentify(MoveMatching(ps, k, c, o, t)) && AllAlive(MoveMatching(ps, k, c, o, t))
  {
    var r := MoveMatching(ps, k, c, o, t);
    forall a, b | a in r && b in r && a.id == b.id ensures a == b {
      var i :| 0 <= i < |r| && r[i] == a;
      var j :| 0 <= j < |r| && r[j] == b;
      assert ps[i] in ps && ps[j] in ps;
      assert ps[i] == ps[j];
    }
    forall q | q in r ensures q.health > 0 {
      var i :| 0 <= i < |r| && r[i] == q;
      assert ps[i] in ps;
    }
  }

  /**
   * Dropping a board piece from cell `o` onto another cell `t`: every earlier
   * occupant of `t` is gone, every piece matching the dragged one now stands
   * on `t` and is otherwise unchanged, every other piece is kept, and nothing
   * else is in the list.
   */
  lemma BoardDrop(s: GameState, k: Kind, c: Color, o: Pos, t: Pos)
    requires WellFormed(s) && OnBoard(t) && o != t
    ensures var r := Drop(s, FromBoard(k, c, o), t);
      && (forall q, q' :: q in s.pieces && q.pos == t && q' in r.pieces ==> q'.id != q.id)
      && (forall q :: q in s.pieces && Matches(q, k, c, o) ==> q.(pos := t) in r.pieces)
      && (forall q :: q in s.pieces && q.pos != t && !Matches(q, k, c, o) ==> q in r.pieces)
      && (forall q :: q in r.pieces ==>
            || (q in s.pieces && q.pos != t && !Matches(q, k, c, o))
            || (q.pos == t && q.(pos := o) in s.pieces && Matches(q.(pos := o), k, c, o)))
  {
    DropEvicts(s, FromBoard(k, c, o), t);
    var r := Drop(s, FromBoard(k, c, o), t);
    var kept := Evict(s.pieces, t);
    assert r.pieces == MoveMatching(kept, k, c, o, t);
    forall q, q' | q in s.pieces && q.pos == t && q' in r.pieces ensures q'.id != q.id {
      if q' in kept && !Matches(q', k, c, o) {
        assert q' in s.pieces && q'.pos != t;
      } else {
        assert q'.(pos := o) in s.pieces && q'.(pos := o).pos != t;
      }
    }
  }

  /**
   * Dropping a board piece back onto its own cell deletes it: the eviction
   * removes it before the move looks for it.
   */
  lemma DropOntoOwnCellDeletes(s: GameState, p: Piece)
    requires WellFormed(s) && p in s.pieces
    ensures var r := Drop(s, FromBoard(p.kind, p.color, p.pos), p.pos);
      && (forall q :: q in r.pieces ==> q.id != p.id)
      && (forall q :: q in r.pieces ==> q.pos != p.pos)
      && At(r.board, p.pos).None?
  {
    var t := p.pos;
    DropEvicts(s, FromBoard(p.kind, p.color, t), t);
    var r := Drop(s, FromBoard(p.kind, p.color, t), t);
    var kept := Evict(s.pieces, t);
    assert r.pieces == MoveMatching(kept, p.kind, p.color, t, t);
    forall q | q in r.pieces ensures q.id != p.id && q.pos != t {
      var i :| 0 <= i < |r.pieces| && r.pieces[i] == q;
      assert kept[i] in kept;
    }
  }

  /** The pieces on cell `t` except those matching the dragged one, removed. */
  function EvictOthers(ps: seq<Piece>, d: Dragged, t: Pos): (r: seq<Piece>)
    ensures forall q :: q in r <==> q in ps && (q.pos != t || (d.FromBoard? && Matches(q, d.kind, d.color, d.origin)))
  {
    if |ps| == 0 then []
    else
      var keep := ps[0].pos != t || (d.FromBoard? && Matches(ps[0], d.kind, d.color, d.origin));
      (if keep then [ps[0]] else []) + EvictOthers(ps[1..], d, t)
  }

  /** `Drop` with an eviction that spares the dragged piece itself. */
  function DropIntended(s: GameState, d: Dragged, t: Pos): (r: GameState)
    requires IsBoard(s.board) && AllOnBoard(s.pieces) && OnBoard(t)
    ensures Consistent(r) && r.turn == s.turn
  {
    var kept := if At(s.board, t).Some? then EvictOthers(s.pieces, d, t) else s.pieces;
    var placed :=
      match d
      case FromBank(k, c) => kept + [Piece(NextId(s.pieces), k, c, t, StartHealth(k))]
      case FromBoard(k, c, o) => MoveMatching(kept, k, c, o, t);
    assert AllOnBoard(placed) by {
      if d.FromBoard? {
        forall q | q in placed ensures OnBoard(q.pos) {
          var i :| 0 <= i < |placed| && placed[i] == q;
        }
      }
    }
    GameState(Rebuild(placed), placed, s.turn)
  }

  /**
   * With the corrected eviction, a board piece dropped back onto its own cell
   * stays there unchanged, pieces on other cells are kept, and the state
   * stays well formed.
   */
  lemma DropIntendedKeepsOwnCell(s: GameState, p: Piece)
    requires WellFormed(s) && p in s.pieces
    ensures var r := DropIntended(s, FromBoard(p.kind, p.color, p.pos), p.pos);
      && WellFormed(r)
      && p in r.pieces
      && At(r.board, p.pos).Some?
      && (forall q :: q in s.pieces && q.pos != p.pos ==> q in r.pieces)
      && (forall q :: q in r.pieces ==> q in s.pieces)
  {
    var t := p.pos;
    var d := FromBoard(p.kind, p.color, t);
    assert At(s.board, t).Some?;
    var kept := EvictOthers(s.pieces, d, t);
    MoveMatchingInPlace(kept, p.kind, p.color, t);
    assert DropIntended(s, d, t).pieces == kept;
    assert p in kept;
  }

  /** Moving the matching pieces from a cell to that same cell changes nothing. */
  lemma MoveMatchingInPlace(ps: seq<Piece>, k: Kind, c: Color, t: Pos)
    ensures MoveMatching(ps, k, c, t, t) == ps
  {
    var r := MoveMatching(ps, k, c, t, t);
    forall i | 0 <= i < |ps| ensures r[i] == ps[i] {
      if Matches(ps[i], k, c, t) {
        assert ps[i].(pos := t) == ps[i];
      }
    }
  }

  /**
   * Dropping onto the trash, as the program does it: a bank template is
   * ignored; for a board piece the list is filtered by identity against the
   * dragged value, which is a copy made when the drag started and so a new
   * object, and the board is rebuilt.
   */
  function TrashDrop(s: GameState, d: Dragged): (r: GameState)
    requires AllOnBoard(s.pieces)
    ensures d.FromBank? ==> r == s
    ensures d.FromBoard? ==> Consistent(r) && r.turn == s.turn
  {
    match d
    case FromBank(_, _) => s
    case FromBoard(_, _, _) =>
      var copy := NextId(s.pieces);
      var kept := Remove(s.pieces, copy);
      GameState(Rebuild(kept), kept, s.turn)
  }

  lemma {:induction false} RemoveAbsent(ps: seq<Piece>, id: nat)
    requires forall q :: q in ps ==> q.id != id
    ensures Remove(ps, id) == ps
  {
    if |ps| > 0 {
      assert forall q :: q in ps[1..] ==> q in ps;
      RemoveAbsent(ps[1..], id);
      assert ps == [ps[0]] + ps[1..];
    }
  }

  /** A trash drop, as written, never removes a piece: the state is left as it was. */
  lemma TrashKeepsEveryPiece(s: GameState, d: Dragged)
    requires Consistent(s)
    ensures TrashDrop(s, d) == s
  {
    if d.FromBoard? {
      RemoveAbsent(s.pieces, NextId(s.pieces));
    }
  }

  /** The pieces not matching the dragged one, in order. */
  function Unmatched(ps: seq<Piece>, k: Kind, c: Color, o: Pos): (r: seq<Piece>)
    ensures forall q :: q in r <==> q in ps && !Matches(q, k, c, o)
  {
    if |ps| == 0 then []
    else (if Matches(ps[0], k, c, o) then [] else [ps[0]]) + Unmatched(ps[1..], k, c, o)
  }

  /** The trash drop the program evidently means: the dragged board piece is removed. */
  function TrashDropIntended(s: GameState, d: Dragged): (r: GameState)
    requires AllOnBoard(s.pieces)
  {
    match d
    case FromBank(_, _) => s
    case FromBoard(k, c, o) =>
      var kept := Unmatched(s.pieces, k, c, o);
      GameState(Rebuild(kept), kept, s.turn)
  }

  /**
   * The corrected trash drop removes the dragged board piece, keeps every
   * other piece and leaves the state well formed; a bank template changes
   * nothing.
   */
  lemma TrashIntendedRemoves(s: GameState, d: Dragged)
    requires WellFormed(s)
    ensures var r := TrashDropIntended(s, d);
      && WellFormed(r)
      && r.turn == s.turn
      && (d.FromBank? ==> r == s)
      && (d.FromBoard? ==>
            && (forall q :: q in r.pieces ==> !Matches(q, d.kind, d.color, d.origin))
            && (forall q :: q in s.pieces && !Matches(q, d.kind, d.color, d.origin) ==> q in r.pieces)
            && (forall q :: q in r.pieces ==> q in s.pieces))
  {
  }
}

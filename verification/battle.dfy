/**
 * The battle tick: once per interval, every piece of the side to act either
 * attacks an adjacent enemy among its destinations or moves, preferring moves
 * that close in on some enemy; then the board is rebuilt and the turn passes.
 *
 * The random draws of the program are the parameter `roll`: the k-th piece of
 * the acting side picks entry `roll(k) % n` of its n candidates, which is what
 * `Math.floor(Math.random() * n)` yields for a suitable draw.
 */
module Battle {
  import opened Board
  import opened Moves

  /** The tick's working copies of the board and of the piece list. */
  datatype Field = Field(board: Board, pieces: seq<Piece>)

  /** The shape the tick needs: an 8x8 board whose pieces, like the listed ones, stand on the board. */
  ghost predicate Sane(f: Field) {
    && IsBoard(f.board)
    && AllOnBoard(f.pieces)
    && forall c :: OnBoard(c) && At(f.board, c).Some? ==> OnBoard(At(f.board, c).value.pos)
  }

  /** Going to `m` brings `p` strictly closer to at least one piece of the other colour. */
  predicate Advances(ps: seq<Piece>, p: Piece, m: Pos) {
    exists e :: e in ps && e.color != p.color && Dist(m, e.pos) < Dist(p.pos, e.pos)
  }

  /** The destinations among `ms` that hold an enemy adjacent to `p`, in order. */
  function AdjacentEnemies(b: Board, p: Piece, ms: seq<Pos>): (ts: seq<Pos>)
    requires IsBoard(b) && forall m :: m in ms ==> OnBoard(m)
    ensures forall t :: t in ts <==> t in ms && Enemy(b, p.color, t) && IsAdjacent(p.pos, t)
  {
    if |ms| == 0 then []
    else
      (if Enemy(b, p.color, ms[0]) && IsAdjacent(p.pos, ms[0]) then [ms[0]] else [])
      + AdjacentEnemies(b, p, ms[1..])
  }

  /** The destinations among `ms` that advance `p` towards some enemy, in order. */
  function Advancing(ps: seq<Piece>, p: Piece, ms: seq<Pos>): (ts: seq<Pos>)
    ensures forall t :: t in ts <==> t in ms && Advances(ps, p, t)
  {
    if |ms| == 0 then []
    else (if Advances(ps, p, ms[0]) then [ms[0]] else []) + Advancing(ps, p, ms[1..])
  }

  /** The candidate a random draw `r` selects. */
  function Pick(s: seq<Pos>, r: nat): (m: Pos)
    requires |s| > 0
    ensures m in s
  {
    s[r % |s|]
  }

  /**
   * `p` hits the piece on cell `t`, which loses one health point. If that
   * leaves it at zero or below it leaves the list and `p` takes its cell;
   * otherwise `p` stays where it is.
   */
  function Strike(f: Field, p: Piece, t: Pos): (g: Field)
    requires Sane(f) && OnBoard(p.pos) && OnBoard(t) && At(f.board, t).Some?
    ensures Sane(g)
    ensures |g.pieces| <= |f.pieces|
    ensures forall c :: OnBoard(c) && c != t && c != p.pos ==> At(g.board, c) == At(f.board, c)
    ensures var e := At(f.board, t).value;
      if e.health <= 1 then At(g.board, t) == Some(p.(pos := t)) && (p.pos != t ==> At(g.board, p.pos).None?)
      else At(g.board, t) == Some(e.(health := e.health - 1))
  {
    var e := At(f.board, t).value;
    var hurt := e.(health := e.health - 1);
    if hurt.health <= 0 then
      var moved := p.(pos := t);
      Field(Put(Put(f.board, p.pos, None), t, Some(moved)), Replace(Remove(f.pieces, e.id), moved))
    else
      Field(Put(f.board, t, Some(hurt)), Replace(f.pieces, hurt))
  }

  /**
   * `p` goes to cell `m`. A piece already on `m` is only overwritten on the
   * board: it stays in the list.
   */
  function Relocate(f: Field, p: Piece, m: Pos): (g: Field)
    requires Sane(f) && OnBoard(p.pos) && OnBoard(m)
    ensures Sane(g)
    ensures |g.pieces| == |f.pieces|
    ensures At(g.board, m) == Some(p.(pos := m))
    ensures m != p.pos ==> At(g.board, p.pos).None?
    ensures forall c :: OnBoard(c) && c != m && c != p.pos ==> At(g.board, c) == At(f.board, c)
  {
    var moved := p.(pos := m);
    Field(Put(Put(f.board, p.pos, None), m, Some(moved)), Replace(f.pieces, moved))
  }

  /** What the piece `p` does in its turn, given its random draw `r`. */
  function Act(f: Field, p: Piece, r: nat): (g: Field)
    requires Sane(f) && OnBoard(p.pos)
    ensures Sane(g)
  {
    var moves := ValidMoves(p, f.board);
    if |moves| == 0 then f
    else
      var targets := AdjacentEnemies(f.board, p, moves);
      if |targets| > 0 then Strike(f, p, Pick(targets, r))
      else Relocate(f, p, ChosenMove(f, p, r))
  }

  /** The cell the move branch draws: among the advancing destinations if there are any, else among all. */
  function ChosenMove(f: Field, p: Piece, r: nat): (m: Pos)
    requires Sane(f) && OnBoard(p.pos) && |ValidMoves(p, f.board)| > 0
    ensures m in ValidMoves(p, f.board)
    ensures (exists a :: a in ValidMoves(p, f.board) && Advances(f.pieces, p, a)) ==> Advances(f.pieces, p, m)
  {
    var moves := ValidMoves(p, f.board);
    var closer := Advancing(f.pieces, p, moves);
    if |closer| > 0 then Pick(closer, r)
    else Pick(moves, r)
  }

  /** `p` is the piece the board shows on its own cell. */
  predicate OnStage(f: Field, p: Piece)
    requires IsBoard(f.board) && OnBoard(p.pos)
  {
    At(f.board, p.pos).Some? && At(f.board, p.pos).value.id == p.id
  }

  /**
   * The pieces `active[k..]` act one after the other. Each is taken as it
   * currently stands in the working list, and skipped when the board does not
   * show it on its cell.
   */
  function ActAll(f: Field, active: seq<Piece>, roll: nat -> nat, k: nat): (g: Field)
    requires Sane(f) && k <= |active|
    ensures Sane(g)
    decreases |active| - k
  {
    if k == |active| then f
    else
      var next :=
        match Lookup(f.pieces, active[k].id)
        case Some(p) => if OnStage(f, p) then Act(f, p, roll(k)) else f
        case None => f;
      ActAll(next, active, roll, k + 1)
  }

  /** The state after a tick, and the winner when the tick finds the battle over. */
  datatype Outcome = Outcome(state: GameState, winner: Option<Color>)

  /**
   * One tick. With no white piece left black wins, else with no black piece
   * left white wins; either way the state is left as it is. Otherwise the side
   * to act acts, the board is rebuilt from the list and the turn passes.
   */
  function Tick(s: GameState, roll: nat -> nat): (o: Outcome)
    requires Consistent(s)
    ensures !HasSide(s.pieces, White) ==> o == Outcome(s, Some(Black))
    ensures HasSide(s.pieces, White) && !HasSide(s.pieces, Black) ==> o == Outcome(s, Some(White))
    ensures HasSide(s.pieces, White) && HasSide(s.pieces, Black) ==>
      o.winner.None? && o.state.turn == s.turn.Opponent() && Consistent(o.state)
  {
    SideEmpty(s.pieces, White);
    SideEmpty(s.pieces, Black);
    if |Side(s.pieces, White)| == 0 then Outcome(s, Some(Black))
    else if |Side(s.pieces, Black)| == 0 then Outcome(s, Some(White))
    else
      assert Sane(Field(s.board, s.pieces));
      var f := ActAll(Field(s.board, s.pieces), Side(s.pieces, s.turn), roll, 0);
      Outcome(GameState(Rebuild(f.pieces), f.pieces, s.turn.Opponent()), None)
  }

  lemma SideEmpty(ps: seq<Piece>, c: Color)
    ensures |Side(ps, c)| == 0 <==> !HasSide(ps, c)
  {
    if HasSide(ps, c) {
      var q :| q in ps && q.color == c;
      assert q in Side(ps, c);
    }
  }

  /**
   * The working copies agree with each other: every piece the board shows is
   * listed and stands on that cell, identities are unique, every piece is alive.
   */
  ghost predicate Coherent(f: Field) {
    Sane(f) && Synced(f.board, f.pieces) && IdsIdentify(f.pieces) && AllAlive(f.pieces)
  }

  /**
   * `q` is what became of `q0` while side `c` acted: same identity, kind and
   * colour; a piece of `c` keeps its health, a piece of the other side keeps
   * its cell and has not gained health.
   */
  predicate Descends(q0: Piece, q: Piece, c: Color) {
    && q.id == q0.id && q.kind == q0.kind && q.color == q0.color
    && (if q.color == c then q.health == q0.health else q.pos == q0.pos && q.health <= q0.health)
  }

  /**
   * While side `c` acts the list does not grow, every piece comes from one
   * that was there, and no piece of `c` is lost.
   */
  ghost predicate Evolves(before: seq<Piece>, after: seq<Piece>, c: Color) {
    && |after| <= |before|
    && (forall q :: q in after ==> HasAncestor(before, q, c))
    && (forall q0 :: q0 in before && q0.color == c ==> HasHeir(after, q0, c))
  }

  ghost predicate HasAncestor(before: seq<Piece>, q: Piece, c: Color) {
    exists q0 :: q0 in before && Descends(q0, q, c)
  }

  ghost predicate HasHeir(after: seq<Piece>, q0: Piece, c: Color) {
    exists q :: q in after && Descends(q0, q, c)
  }

  lemma EvolvesTrans(a: seq<Piece>, b: seq<Piece>, d: seq<Piece>, c: Color)
    requires Evolves(a, b, c) && Evolves(b, d, c)
    ensures Evolves(a, d, c)
  {
    forall q | q in d ensures HasAncestor(a, q, c) {
      assert HasAncestor(b, q, c);
      var q1 :| q1 in b && Descends(q1, q, c);
      assert HasAncestor(a, q1, c);
      var q0 :| q0 in a && Descends(q0, q1, c);
      DescendsTrans(q0, q1, q, c);
    }
    forall q0 | q0 in a && q0.color == c ensures HasHeir(d, q0, c) {
      assert HasHeir(b, q0, c);
      var q1 :| q1 in b && Descends(q0, q1, c);
      assert HasHeir(d, q1, c);
      var q :| q in d && Descends(q1, q, c);
      DescendsTrans(q0, q1, q, c);
    }
  }

  lemma DescendsTrans(a: Piece, b: Piece, d: Piece, c: Color)
    requires Descends(a, b, c) && Descends(b, d, c)
    ensures Descends(a, d, c)
  {
  }

  /** The board shows exactly `p` on its cell. */
  lemma StagedIsListed(f: Field, p: Piece)
    requires Coherent(f) && p in f.pieces && OnStage(f, p)
    ensures At(f.board, p.pos) == Some(p)
  {
  }

  lemma StrikeKeeps(f: Field, p: Piece, t: Pos)
    requires Coherent(f) && p in f.pieces && OnStage(f, p)
    requires OnBoard(t) && Enemy(f.board, p.color, t)
    ensures Coherent(Strike(f, p, t)) && Evolves(f.pieces, Strike(f, p, t).pieces, p.color)
  {
    StagedIsListed(f, p);
    var e := At(f.board, t).value;
    assert e in f.pieces && e.pos == t && e.id != p.id;
    var g := Strike(f, p, t);
    var hurt := e.(health := e.health - 1);
    if hurt.health <= 0 {
      var moved := p.(pos := t);
      var rest := Remove(f.pieces, e.id);
      ReplaceMembers(rest, moved);
      assert p in rest;
      assert g.pieces == Replace(rest, moved);
      forall c | OnBoard(c) && At(g.board, c).Some?
        ensures At(g.board, c).value in g.pieces && At(g.board, c).value.pos == c
      {
        if c != t {
          var q := At(f.board, c).value;
          assert q.id != e.id && q.id != p.id;
        }
      }
      forall q | q in g.pieces ensures HasAncestor(f.pieces, q, p.color) {
        if q == moved { assert Descends(p, q, p.color); } else { assert Descends(q, q, p.color); }
      }
      forall q0 | q0 in f.pieces && q0.color == p.color
        ensures HasHeir(g.pieces, q0, p.color)
      {
        if q0.id == p.id { assert Descends(q0, moved, p.color); } else { assert Descends(q0, q0, p.color); }
      }
    } else {
      ReplaceMembers(f.pieces, hurt);
      forall c | OnBoard(c) && At(g.board, c).Some?
        ensures At(g.board, c).value in g.pieces && At(g.board, c).value.pos == c
      {
        if c != t {
          var q := At(f.board, c).value;
          assert q.id != e.id;
        }
      }
      forall q | q in g.pieces ensures HasAncestor(f.pieces, q, p.color) {
        if q == hurt { assert Descends(e, q, p.color); } else { assert Descends(q, q, p.color); }
      }
      forall q0 | q0 in f.pieces && q0.color == p.color
        ensures HasHeir(g.pieces, q0, p.color)
      {
        assert q0.id != e.id;
        assert Descends(q0, q0, p.color);
      }
    }
  }

  lemma RelocateKeeps(f: Field, p: Piece, m: Pos)
    requires Coherent(f) && p in f.pieces && OnStage(f, p)
    requires OnBoard(m) && m != p.pos
    ensures Coherent(Relocate(f, p, m)) && Evolves(f.pieces, Relocate(f, p, m).pieces, p.color)
  {
    StagedIsListed(f, p);
    var g := Relocate(f, p, m);
    var moved := p.(pos := m);
    ReplaceMembers(f.pieces, moved);
    forall c | OnBoard(c) && At(g.board, c).Some?
      ensures At(g.board, c).value in g.pieces && At(g.board, c).value.pos == c
    {
      if c != m {
        var q := At(f.board, c).value;
        assert q.id != p.id;
      }
    }
    forall q | q in g.pieces ensures HasAncestor(f.pieces, q, p.color) {
      if q == moved { assert Descends(p, q, p.color); } else { assert Descends(q, q, p.color); }
    }
    forall q0 | q0 in f.pieces && q0.color == p.color
      ensures HasHeir(g.pieces, q0, p.color)
    {
      if q0.id == p.id { assert Descends(q0, moved, p.color); } else { assert Descends(q0, q0, p.color); }
    }
  }

  lemma EvolvesRefl(ps: seq<Piece>, c: Color)
    ensures Evolves(ps, ps, c)
  {
    forall q | q in ps ensures HasAncestor(ps, q, c) {
      assert Descends(q, q, c);
    }
    forall q0 | q0 in ps && q0.color == c ensures HasHeir(ps, q0, c) {
      assert Descends(q0, q0, c);
    }
  }

  /** One piece's turn keeps the working copies coherent and changes the list only as `Evolves` allows. */
  lemma ActKeeps(f: Field, p: Piece, r: nat)
    requires Coherent(f) && p in f.pieces && OnStage(f, p)
    ensures Coherent(Act(f, p, r)) && Evolves(f.pieces, Act(f, p, r).pieces, p.color)
  {
    var moves := ValidMoves(p, f.board);
    if |moves| == 0 {
      EvolvesRefl(f.pieces, p.color);
    } else {
      var targets := AdjacentEnemies(f.board, p, moves);
      if |targets| > 0 {
        StrikeKeeps(f, p, Pick(targets, r));
      } else {
        RelocateKeeps(f, p, ChosenMove(f, p, r));
      }
    }
  }

  /** The acting pieces, one after the other, keep the tick's invariants. */
  lemma {:induction false} ActAllKeeps(f: Field, active: seq<Piece>, roll: nat -> nat, k: nat, start: seq<Piece>, c: Color)
    requires Coherent(f) && k <= |active|
    requires IdsIdentify(start) && Evolves(start, f.pieces, c)
    requires forall a :: a in active ==> a in start && a.color == c
    ensures Coherent(ActAll(f, active, roll, k)) && Evolves(start, ActAll(f, active, roll, k).pieces, c)
    decreases |active| - k
  {
    if k < |active| {
      var next :=
        match Lookup(f.pieces, active[k].id)
        case Some(p) => if OnStage(f, p) then Act(f, p, roll(k)) else f
        case None => f;
      var found := Lookup(f.pieces, active[k].id);
      if found.Some? && OnStage(f, found.value) {
        var p := found.value;
        assert next == Act(f, p, roll(k));
        assert HasAncestor(start, p, c);
        var q0 :| q0 in start && Descends(q0, p, c);
        assert q0.id == active[k].id;
        assert q0 == active[k];
        ActKeeps(f, p, roll(k));
        EvolvesTrans(start, f.pieces, next.pieces, c);
      } else {
        assert next == f;
      }
      ActAllKeeps(next, active, roll, k + 1, start, c);
    }
  }

  /**
   * A tick from a well-formed state yields a well-formed state: the board is
   * the rebuild of the list, identities stay unique and every piece keeps a
   * positive health. While the battle goes on, the list only changes as
   * `Evolves` allows for the side that acted.
   */
  lemma TickKeepsWellFormed(s: GameState, roll: nat -> nat)
    requires WellFormed(s)
    ensures WellFormed(Tick(s, roll).state)
    ensures Tick(s, roll).winner.None? ==> Evolves(s.pieces, Tick(s, roll).state.pieces, s.turn)
  {
    SideEmpty(s.pieces, White);
    SideEmpty(s.pieces, Black);
    if HasSide(s.pieces, White) && HasSide(s.pieces, Black) {
      var f := Field(s.board, s.pieces);
      EvolvesRefl(s.pieces, s.turn);
      ActAllKeeps(f, Side(s.pieces, s.turn), roll, 0, s.pieces, s.turn);
    }
  }

  /**
   * The attack branch: the target drawn is a destination of `p` holding an
   * adjacent enemy, which loses exactly one health point. A target left at
   * zero or below is gone and `p` stands on its cell; otherwise `p` has not
   * moved. No other piece changes.
   */
  lemma AttackStep(f: Field, p: Piece, r: nat)
    requires Coherent(f) && p in f.pieces && OnStage(f, p)
    requires |AdjacentEnemies(f.board, p, ValidMoves(p, f.board))| > 0
    ensures var t := Pick(AdjacentEnemies(f.board, p, ValidMoves(p, f.board)), r);
      var e := At(f.board, t).value;
      var g := Act(f, p, r);
      && t in ValidMoves(p, f.board) && IsAdjacent(p.pos, t)
      && e in f.pieces && e.pos == t && e.color != p.color
      && (e.health <= 1 ==>
            && (forall q :: q in g.pieces ==> q.id != e.id)
            && p.(pos := t) in g.pieces && p !in g.pieces)
      && (e.health > 1 ==>
            && e.(health := e.health - 1) in g.pieces && e !in g.pieces
            && p in g.pieces)
      && (forall q :: q in f.pieces && q.id != p.id && q.id != e.id ==> q in g.pieces)
      && (forall q :: q in g.pieces && q.id != p.id && q.id != e.id ==> q in f.pieces)
  {
    StagedIsListed(f, p);
    var moves := ValidMoves(p, f.board);
    var targets := AdjacentEnemies(f.board, p, moves);
    var t := Pick(targets, r);
    assert t in targets;
    var g := Act(f, p, r);
    assert g == Strike(f, p, t);
    var e := At(f.board, t).value;
    assert e in f.pieces && e.pos == t;
    assert e.id != p.id;
    if e.health <= 1 {
      var rest := Remove(f.pieces, e.id);
      var moved := p.(pos := t);
      assert g.pieces == Replace(rest, moved);
      ReplaceMembers(rest, moved);
      assert p in rest;
    } else {
      var hurt := e.(health := e.health - 1);
      assert g.pieces == Replace(f.pieces, hurt);
      ReplaceMembers(f.pieces, hurt);
    }
  }

  /**
   * The move branch, taken when no destination holds an adjacent enemy: the
   * cell drawn is a destination of `p`, and one that brings `p` closer to some
   * enemy whenever such a destination exists; `p` now stands there and no
   * other piece changes. A piece already on that cell, necessarily an enemy
   * met by a rook more than one step away, stays in the list on that cell.
   */
  lemma MoveStep(f: Field, p: Piece, r: nat)
    requires Coherent(f) && p in f.pieces && OnStage(f, p)
    requires |ValidMoves(p, f.board)| > 0
    requires |AdjacentEnemies(f.board, p, ValidMoves(p, f.board))| == 0
    ensures var m, g := ChosenMove(f, p, r), Act(f, p, r);
      && p.(pos := m) in g.pieces && p !in g.pieces
      && (forall q :: q in f.pieces && q.id != p.id ==> q in g.pieces)
      && (forall q :: q in g.pieces && q.id != p.id ==> q in f.pieces)
      && (At(f.board, m).Some? ==>
            && p.kind == Rook && Dist(p.pos, m) > 1
            && At(f.board, m).value in g.pieces && At(f.board, m).value.pos == m)
  {
    StagedIsListed(f, p);
    var m, g := ChosenMove(f, p, r), Act(f, p, r);
    assert g == Relocate(f, p, m);
    var moved := p.(pos := m);
    assert g.pieces == Replace(f.pieces, moved);
    ReplaceMembers(f.pieces, moved);
    if At(f.board, m).Some? {
      var e := At(f.board, m).value;
      assert Enemy(f.board, p.color, m);
      assert !IsAdjacent(p.pos, m);
      if p.kind != Rook {
        ShortRangeTargetsAdjacent(p, f.board, m);
      } else {
        RookAdjacentOnlyAtOneStep(p, f.board, m);
      }
      assert e in f.pieces && e.id != p.id;
    }
  }

  /** A piece without destinations leaves everything as it is. */
  lemma StuckPieceStays(f: Field, p: Piece, r: nat)
    requires Sane(f) && OnBoard(p.pos) && |ValidMoves(p, f.board)| == 0
    ensures Act(f, p, r) == f
  {
  }
}

# Auto-chess battle core in Dafny

This is a model of the game logic of the auto-chess board component, `src/ChessBoard.jsx`. The game has
two phases:

- **Setup.** The player drags pieces from a bank onto an 8x8 board, moves them around, or drops them on a trash
  area.
- **Battle.** Once the battle starts, the component runs a tick at a fixed interval. At every tick, each piece of the
  side to act does one thing:
  - it attacks an adjacent enemy among its destinations; or
  - it moves, preferring destinations that bring it closer to some enemy.

  Then the board is rebuilt from the piece list and the turn passes to the other side. The first side with no
  pieces left loses.

The model has four modules, one per file:

- `Board` (`board.dfy`) holds the pieces, the cells, the board and the game state. It also holds `Rebuild`, which
  writes the board from the piece list. Every state change of the component ends with it.
- `Moves` (`moves.dfy`) holds the adjacency test `isAdjacent` and the move generation `getValidMoves` for pawns,
  knights and rooks.
- `Battle` (`battle.dfy`) holds one battle tick, including the winner check.
- `Setup` (`setup.dfy`) holds the starting layout `initialBoard`, the drop of a dragged piece onto a cell, and
  the drop onto the trash.

The JavaScript program compares pieces by object identity, and it mutates shared objects. The model handles
this as follows:

- Every piece carries an `id` that stands for its object identity.
- Every state is an immutable value.
- The tick works on a working copy of the board and the list, called a `Field`. In the `Field`, the board's
  cells hold the current values of the listed pieces.
- The tick looks each acting piece up by its identity in the working list. It skips the piece when the board no
  longer shows that piece on its cell, which is the sanity check of the program.
- The random draws are the parameter `roll`. The k-th acting piece picks entry `roll(k) % n` of its n
  candidates.

## Model

| member | source | states |
|---|---|---|
| Board.Rebuild | src/ChessBoard.jsx:380-383 | Placing every listed piece on its cell, front to back, gives an 8x8 board. Every occupied cell shows a listed piece that stands there. Every listed piece's cell is occupied. A piece that no later entry shares a cell with is the one shown. |
| Board.ReplaceMembers | src/ChessBoard.jsx:266 | Updating a shared piece object in place changes the list as follows: the new value replaces every entry with that identity, and every other entry stays. |
| Moves.AdjacentCells | src/ChessBoard.jsx:30-34 | A cell passes the adjacency test exactly when it is one of the 17 cells listed around the first: the 3x3 block centred on it, or one of the eight knight's jumps. |
| Moves.AdjacencySymmetric | src/ChessBoard.jsx:30-34 | The adjacency test is symmetric. It accepts every knight's jump as well as the eight surrounding cells. |
| Moves.PawnMoves | src/ChessBoard.jsx:39-47 | A pawn has at most three destinations. A cell is one of them exactly when it is one row forward and on the board, and it is either straight ahead and empty, or one column aside and holding an enemy. |
| Moves.KnightMoves | src/ChessBoard.jsx:48-57 | A knight has at most eight destinations. These are exactly the on-board cells a knight's jump away that are empty or hold an enemy. |
| Moves.Ray | src/ChessBoard.jsx:62-74 | A ray yields exactly the cells in its direction that lie before the first occupied cell, plus that cell if it holds an enemy. |
| Moves.RookMoves | src/ChessBoard.jsx:58-75 | A rook's destinations are exactly the cells that meet all of these: on the board, on its row or column, nothing in between, and empty or holding an enemy. |
| Moves.ValidMoves | src/ChessBoard.jsx:36-78 | Every destination is on the board, differs from the piece's cell, and does not hold a piece of its own colour. |
| Moves.ShortRangeTargetsAdjacent | src/ChessBoard.jsx:30-57 | Every destination of a pawn or a knight passes the adjacency test. So such a piece always attacks a reachable enemy and never moves onto one. |
| Moves.RookAdjacentOnlyAtOneStep | src/ChessBoard.jsx:226-230 | A rook destination passes the adjacency test exactly when it is one step away. So a rook attacks only an enemy next to it along its row or column. |
| Battle.AdjacentEnemies | src/ChessBoard.jsx:226-230 | The attack candidates are exactly the destinations that hold an enemy passing the adjacency test. |
| Battle.Advancing | src/ChessBoard.jsx:283-295 | The preferred moves are exactly the destinations that are strictly closer, in Manhattan distance, to at least one listed enemy. |
| Battle.Pick | src/ChessBoard.jsx:234 | The random choice returns one of the candidates. |
| Battle.ChosenMove | src/ChessBoard.jsx:297-300 | The chosen move is a destination of the piece. It advances towards an enemy whenever some destination does. |
| Battle.AttackStep | src/ChessBoard.jsx:233-280 | The attacked cell is a destination, adjacent, and holds a listed enemy. If the enemy had health 1 or less, it is gone and the attacker now stands on its cell. Otherwise, the enemy is listed with one health less and the attacker stays. No other piece changes. |
| Battle.MoveStep | src/ChessBoard.jsx:371-374 | Without an adjacent enemy, the piece stands on the chosen destination and no other piece changes. If that destination was occupied, the piece is a rook more than one step away, and the enemy stays listed on the same cell. |
| Battle.Strike | src/ChessBoard.jsx:266-279 | On the working board after an attack: if the target had health 1 or less, its cell shows the attacker and the attacker's old cell is empty. Otherwise, its cell shows the target with one health less. Every other cell is unchanged, and the list never grows. AttackStep states the effect on the list. |
| Battle.Relocate | src/ChessBoard.jsx:372-374 | On the working board after a move, the origin is empty and the destination shows the moved piece. Every other cell is unchanged, and the list keeps its length. MoveStep states the effect on the list. |
| Battle.Act | src/ChessBoard.jsx:221-375 | One piece's action keeps the working copy in shape. Its effect is stated by AttackStep, MoveStep and StuckPieceStays. |
| Battle.ActAll | src/ChessBoard.jsx:211-377 | The loop over the acting side keeps the working copy in shape. Its effect over a whole tick is stated by TickKeepsWellFormed. |
| Battle.StuckPieceStays | src/ChessBoard.jsx:221-224 | A piece without destinations leaves the working state unchanged. |
| Battle.Tick | src/ChessBoard.jsx:187-389 | The outcome depends on which sides have pieces. With no white piece, black wins and the state stays. With white pieces but no black piece, white wins and the state stays. Otherwise there is no winner, the turn passes to the other side, and the board is the rebuild of the new list. |
| Battle.TickKeepsWellFormed | src/ChessBoard.jsx:207-389 | A tick keeps the state well formed: consistent board, unique identities, every piece alive. During the tick, the list does not grow, and every piece descends from one that was there. Every piece of the acting side survives with its health. A piece of the other side keeps its cell and never gains health. |
| Setup.InitialState | src/ChessBoard.jsx:4-22 | The starting board is the rebuild of the starting list, and white acts first. |
| Setup.InitialStateWellFormed | src/ChessBoard.jsx:4-22 | The starting state is well formed. |
| Setup.InitialWhiteSide | src/ChessBoard.jsx:6-17 | White starts with five pieces. |
| Setup.InitialBlackSide | src/ChessBoard.jsx:6-17 | Black starts with five pieces. |
| Setup.InitialHealth | src/ChessBoard.jsx:6-17 | Every starting piece has the bank's health for its kind: pawn 2, knight 4, rook 6. |
| Setup.InitialCellsDistinct | src/ChessBoard.jsx:6-17 | No two starting pieces share a cell. |
| Setup.Drop | src/ChessBoard.jsx:120-159 | A drop leaves the board equal to the rebuild of the new list and keeps the turn. |
| Setup.Evict | src/ChessBoard.jsx:126-128 | A piece is kept exactly when it does not stand on the target cell. |
| Setup.MoveMatching | src/ChessBoard.jsx:142-150 | Membership after the move: every piece matching the dragged one by cell, kind and colour is in the list moved to the target. Every other piece is still in it. Each piece in the list is either an unmatched original or a matching one moved to the target. The list keeps its length and order. |
| Setup.DropEvicts | src/ChessBoard.jsx:124-129 | On a consistent state, testing the cell before evicting makes no difference: the occupants of the target leave, everything else stays. |
| Setup.BankDrop | src/ChessBoard.jsx:131-138 | A bank drop creates a new piece with a fresh identity, the dragged kind and colour, the starting health of its kind, on the target cell. The target's earlier occupants are gone and every other piece is kept. |
| Setup.BankDropWellFormed | src/ChessBoard.jsx:131-138 | A bank drop keeps the state well formed: the new piece is alive and its identity is new. |
| Setup.MoveMatchingKeepsIds | src/ChessBoard.jsx:142-150 | Moving pieces keeps identities unique and every piece alive. |
| Setup.BoardDropWellFormed | src/ChessBoard.jsx:120-159 | Moving a board piece onto any cell, its own cell included, keeps the state well formed. |
| Setup.BoardDrop | src/ChessBoard.jsx:124-151 | Moving a board piece onto another cell removes every earlier occupant of that cell. It puts every matching piece on the cell and keeps every other piece. Every listed piece is either kept or a matching piece moved. |
| Setup.DropOntoOwnCellDeletes | src/ChessBoard.jsx:124-150 | Dropping a board piece back onto its own cell, as written, removes it: no piece with its identity is left, and the cell is empty. |
| Setup.DropIntendedKeepsOwnCell | src/ChessBoard.jsx:124-150 | With an eviction that spares the dragged piece, a drop onto its own cell keeps it in place. Every piece on another cell is kept, and the state stays well formed. |
| Setup.TrashDrop | src/ChessBoard.jsx:165-178 | A bank template dropped on the trash changes nothing. A board piece dropped on it leaves the board equal to the rebuild of the list. |
| Setup.TrashKeepsEveryPiece | src/ChessBoard.jsx:165-178 | As written, a trash drop leaves the state unchanged: the filter compares against a copy of the piece, so it matches nothing. |
| Setup.TrashIntendedRemoves | src/ChessBoard.jsx:165-178 | The corrected trash drop removes exactly the pieces matching the dragged one, keeps every other piece, and keeps the state well formed. |

## Left out

- React state, hooks, the interval timer, `setGameOver` and `setWinner`. The tick returns the winner as a value
  instead.
- Rendering, drag-and-drop events and `handleDragStart`. The dragged piece is a parameter of `Drop` and
  `TrashDrop`.
- The attack and move animations and the move indicators (lines 237-263 and 302-334).
- The delayed second `setState` (lines 337-359). It runs 500 ms later, after the tick has already moved the piece,
  and it looks for a piece on the old cell. That concerns timing between ticks, which the model does not have.
- Battle.Tick: requires that the board is the rebuild of the piece list. Every update modelled here leaves the
  state that way. The delayed `setState` above is the one path that can break it. At lines 344-351 it can move a
  different piece of the same kind and colour that reached the old cell during the tick, and it does not rebuild
  the board afterwards.
- `Math.random`. It is the parameter `roll`, so the model covers every sequence of draws but says nothing about
  their distribution.
- Object aliasing between the previous and the new state. The program mutates piece objects in place, so the
  previous state's objects change too. The model keeps every state as a separate value.
- Ticks after the game is over, and the game-started flag. The model has no state for them.
- Battle.Act: its own contract only keeps the working copy in shape. What it does is stated by AttackStep,
  MoveStep and StuckPieceStays.
- Battle.ActAll: its own contract only keeps the working copy in shape. Its effect over a whole tick is stated by
  TickKeepsWellFormed.
- Setup.Drop and Setup.TrashDrop require every listed piece to stand on the board. The program would write
  outside the board otherwise, and every state it builds meets this.
- Nothing in the code keeps two pieces off one cell: a rook can move onto a distant enemy without attacking it
  (see Battle.MoveStep). The model follows the code. The rebuilt board then
  shows whichever of the two pieces comes later in the list.
- A battle with both sides empty is declared won by black, because the program checks white first. The model
  keeps that order.

## Findings

| source | as written | input that shows it | evidently intended | confidence | as-written member | corrected member |
|---|---|---|---|---|---|---|
| src/ChessBoard.jsx:165-178 | The trash filter keeps every piece that is not the dragged object. The dragged object is a copy made when the drag started (lines 110-113), so no piece matches it. | Drag any board piece, such as the white pawn on (3,6) of the starting layout, onto the trash. The piece stays on the board. | The dragged board piece is removed. | high; not executed | Setup.TrashKeepsEveryPiece | Setup.TrashIntendedRemoves |
| src/ChessBoard.jsx:124-150 | When the target is occupied, every piece on it is removed before the dragged piece is looked up by its original cell. | Drag a board piece and drop it back on its own cell. The piece disappears. | The dragged piece itself is not evicted, so it stays where it was. | medium; not executed | Setup.DropOntoOwnCellDeletes | Setup.DropIntendedKeepsOwnCell |

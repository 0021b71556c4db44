# Checkers engine: a verified model

This project models the rules and state engine of a browser checkers game
(`src/components/CheckersGame.js`), together with the coordinate model of a
board square (`src/components/Field.js`), and proves what that engine
promises.

The game keeps a board of `rows × cols` fields, keyed by the linear index
`row * cols + col`. At the start, DARK pieces fill the first `fillRows` rows
and LIGHT pieces the last `fillRows` rows, on the squares whose column has the
same parity as the row. LIGHT moves first. A click is handled in one of three
ways:

- A click on a piece of the player to move selects that piece. It also
  highlights the moves from the piece's square along the two forward
  diagonals. A move is either a simple step onto an empty neighbour, or a
  capture over an opponent's piece onto the empty square behind it.
- A click on a highlighted field plays that move, clears the selection and
  passes the turn.
- Any other click clears the selection.

Modules:

- `Wrappers`: an `Option` type.
- `Field`: a square's row, column, linear index and colour. This module also
  has the arithmetic that inverts the linear index, and JavaScript's
  truncating `%` (`JsRem`).
- `Pieces`: the two colours and a piece's identity and colour. It also holds
  `Links`, both sides of the piece/field relation (`field.piece` on one
  side, `piece.field` on the other) as one value, with `setField` and
  `remove`. The game's `piecesByNum` is read as the same relation (see
  "Left out").
- `Rules`: the pure part of the engine. It covers the configuration, the
  board that `createFields` builds, `getField`, and the moves found from a
  field (`PossibleMoves`). It also covers `movesByNum` as an index of a move
  list (`Index`) and the effect of `movePiece` (`ApplyMove`).
- `Moves`: the properties of move generation and move application.
- `Game`: the imperative engine. `CreateFields` is its double loop. The class
  `CheckersGame` holds the game's mutable state: piece links, `movesByNum`,
  `moves`, `player` and `selectedPiece`. Most of its methods are the
  methods of `CheckersGame.js` under the same names; the exceptions are:
  - `createFields` is the module-level method `CreateFields`, whose result
    the constructor stores as a constant;
  - `createPieces` is `CreatePieces`, with each loop nest in `FillRows`,
    the inner loop in `FillRow` and one iteration in `PlacePiece`;
  - `highlightPossibleMoves` is `HighlightPossibleMoves`, with its first
    `forEach` in `FindMoves` and its second in `RecordMoves`;
  - the first two branches of `playerMoveClick` are `SelectPiece` and
    `PlaySelectedMove`, which `PlayerMoveClick` calls.

  `Valid` is the invariant kept between clicks:
  - the board is the one `createFields` built;
  - the links are consistent;
  - `movesByNum` indexes exactly `moves`;
  - pending moves are exactly those found from the selected piece, which
    belongs to the player to move.

## Model

| member | source | states |
|---|---|---|
| Field.Num | src/components/Field.js:18 | The linear index `row * cols + col` on unbounded integers (JavaScript numbers are exact at board sizes). Its meaning is stated by `NumInverse`, `NumInjective` and `NumInRange`. |
| Field.NewField | src/components/Field.js:4-22 | A field stores its row and column unchanged. Its `num` is `row * cols + col`. It is dark exactly when `(row + col) % 2 == 1`, which matches JavaScript's `Boolean((row + col) % 2)` for every sign of `row + col`. |
| Field.NumInverse | src/components/Field.js:18-19 | For a column in `0 .. cols-1`, division by `cols` gives back the row and the remainder gives back the column. |
| Field.NumInjective | src/components/Field.js:18-19 | Two in-range squares with the same `num` are the same square. |
| Field.NumInRange | src/components/Field.js:18-19 | For an in-range column, `num` lies in `0 .. rows*cols-1` exactly when the row is on the board. |
| Field.NumOfIndex | src/components/CheckersGame.js:113-114 | Every index is the `num` of its quotient and remainder, and the remainder is a valid column. |
| Field.JsRem | src/components/CheckersGame.js:114 | JavaScript's `%` is Euclidean remainder on a non-negative dividend, and that remainder minus the divisor on a negative dividend that is not a multiple. |
| Field.NegatedRem | src/components/CheckersGame.js:114 | The remainder of `-a` is `0` or `b` minus the remainder of `a`. This relates truncating and Euclidean remainders. |
| Pieces.Other | src/components/CheckersGame.js:115 | The other player is never the player itself. |
| Pieces.OtherInvolution | src/components/CheckersGame.js:241-244 | Taking the other player twice gives back the first player. |
| Pieces.Links.SetField | src/components/CheckersGame.js:95 | Linking a piece to a free field keeps both sides consistent. The piece is now on that field and its old field is freed. Every other piece and field keeps its link. |
| Pieces.Links.Remove | src/components/CheckersGame.js:103-106 | Removing a piece keeps both sides consistent. The piece and its field are unlinked. Every other link is kept. |
| Pieces.NoLinks | src/components/CheckersGame.js:26 | The empty board: no field holds a piece and no piece is placed. |
| Rules.BoardFields | src/components/CheckersGame.js:180-213 | `fieldsByNum` after `createFields`, as a map from each index below `rows * cols` to `NewField` of its quotient and remainder (through `FieldsBelow`). `CreateFields` shows that the double loop builds exactly this map; `BoardFieldsAt` and `BoardFieldsKeys` state its contents. |
| Rules.BoardFieldsAt | src/components/CheckersGame.js:184-197 | For an in-range column, the board has a field under the square's `num` exactly when the row is on the board. That field is the one `new Field` makes for that square. |
| Rules.BoardFieldsKeys | src/components/CheckersGame.js:180-213 | The board's keys are exactly `0 .. rows*cols-1`. Each key holds the on-board field whose `num` is that key. |
| Rules.GetField | src/components/CheckersGame.js:161-164 | `getField` over any field map: nothing for a column outside `0 .. cols-1`, otherwise the entry under `row * cols + col`, with `None` for JavaScript's `undefined`. On the built board its result is stated by `GetFieldOnBoard`. |
| Rules.GetFieldOnBoard | src/components/CheckersGame.js:161-164 | `getField` returns nothing for an off-board column or row. For an on-board square it returns that square's field. |
| Rules.Forward | src/components/CheckersGame.js:116 | The row step is +1 exactly for DARK and -1 for LIGHT. |
| Rules.DiagonalMove | src/components/CheckersGame.js:121-149 | One call of the `forEach` callback: the move pushed for one column change, or `None` when nothing is pushed. The occupancy test `field.piece` is a lookup in the links' `occupant` map. Its outcome is characterised by `Moves.DiagonalMoveExactly`. |
| Rules.CollectMoves | src/components/CheckersGame.js:121-150 | The loop over the column changes pushes at most one move per change. |
| Rules.CollectMovesStep | src/components/CheckersGame.js:121-150 | One more iteration appends exactly the move of that diagonal, if there is one. |
| Rules.CollectOverColChanges | src/components/CheckersGame.js:121-150 | Looping over `[1, -1]` collects exactly `PossibleMoves`. |
| Rules.PossibleMoves | src/components/CheckersGame.js:111-150 | At most two moves are found. |
| Rules.Index | src/components/CheckersGame.js:152-156 | Every entry of `movesByNum` is one of the moves, stored under its own target's `num`. |
| Rules.IndexStep | src/components/CheckersGame.js:152-156 | Indexing one more move adds that move under its target's `num`. |
| Rules.IndexKeys | src/components/CheckersGame.js:152-156 | The index's keys are exactly the targets of the moves. |
| Rules.IndexFindsEachMove | src/components/CheckersGame.js:152-156 | When targets are distinct, looking up a move's target gives back that move. |
| Rules.ApplyMove | src/components/CheckersGame.js:92-109 | After a move the links are consistent. The only field that can gain a piece is the target. |
| Moves.DiagonalMoveExactly | src/components/CheckersGame.js:121-150 | On one forward diagonal, a step is offered exactly when the adjacent square is on the board and empty. A capture over it is offered exactly when the adjacent square holds an opponent and the landing square is on the board and empty. Nothing else is offered, and any target is on the board and empty. |
| Moves.PossibleMovesSound | src/components/CheckersGame.js:120-150 | Every move found targets an on-board field with no piece. The target is one row forward (a step to `col±1`) or two rows forward (a capture to `col±2` whose `attacking` is the adjacent diagonal square). |
| Moves.DiagonalsApart | src/components/CheckersGame.js:121-150 | The moves found are exactly those of the two diagonals, and neither diagonal reaches the other's columns. |
| Moves.SimpleMoveExactly | src/components/CheckersGame.js:126-131 | The step to `(row+dir, col±1)` is found if and only if that square is on the board and empty. |
| Moves.CaptureMoveExactly | src/components/CheckersGame.js:132-148 | The capture to `(row+2·dir, col±2)` with `attacking` at `(row+dir, col±1)` is found if and only if the adjacent square holds a piece of the other player and the landing square is on the board and empty. |
| Moves.OwnNeighbourBlocks | src/components/CheckersGame.js:132 | A piece of the mover's own colour on a diagonal produces no move on that diagonal. |
| Moves.PossibleMovesDistinct | src/components/CheckersGame.js:152-156 | The moves found have distinct targets, so `movesByNum` keeps every one of them. |
| Moves.FieldNumSquare | src/components/CheckersGame.js:113-114 | For a board key, `Math.floor(n / cols)` and `n % cols` give an on-board square whose `num` is `n`. |
| Moves.CaptureLinks | src/components/CheckersGame.js:95-107 | Moving a piece to an empty field and then removing the piece on a third field takes exactly that one piece off the board. |
| Moves.CaptureShape | src/components/CheckersGame.js:132-148 | A capture found jumps exactly one diagonal square. That square is on the board and holds a piece of the other player, and the landing square is two rows and two columns away. |
| Moves.CaptureJumpsOpponent | src/components/CheckersGame.js:132-148 | The square jumped by a capture holds an opponent's piece. It is neither the mover's square nor the target. |
| Moves.GeneratedMoveStaysOnBoard | src/components/CheckersGame.js:92-109 | A move found for a placed piece can be applied, and afterwards every piece is still on a board field. |
| Moves.GeneratedMoveApplicable | src/components/CheckersGame.js:92-109 | A move found for a placed piece can be applied. Its target is an empty field other than the source, and a capture's attacked field holds an opponent's piece. |
| Moves.ApplyGeneratedMove | src/components/CheckersGame.js:92-109 | Playing a step moves only the piece. Playing a capture also removes exactly the one opponent piece on the attacked field. No other field's occupancy changes. |
| Game.FieldsBelowStep | src/components/CheckersGame.js:186-193 | Storing the next field of the row-major loop extends the board by exactly that field's index. |
| Game.RowStep | src/components/CheckersGame.js:219 | Stepping `j` by two adds exactly the square at column `j` to the parity squares visited in the row. |
| Game.BandStep | src/components/CheckersGame.js:218-233 | Finishing a row adds exactly that row's parity squares to the band. |
| Game.RowEnd | src/components/CheckersGame.js:219 | The inner loop runs `RowLength` times. |
| Game.RowSquaresBefore | src/components/CheckersGame.js:219 | After `k` iterations the squares filled are exactly the parity squares left of column `i%2 + 2k`. |
| Game.FullRowSquares | src/components/CheckersGame.js:219 | A completed inner loop fills exactly the row's parity squares. |
| Game.RowOnBoard | src/components/CheckersGame.js:222 | Every square the inner loop fills has a field on the board. |
| Game.NextSquare | src/components/CheckersGame.js:219-222 | The square the inner loop visits next is in the row and has not been filled yet. |
| Game.PlaceFresh | src/components/CheckersGame.js:221-223 | A new piece placed on a free square adds exactly that square to the filled ones, in the given colour. |
| Game.PlaceOne | src/components/CheckersGame.js:219-223 | The field looked up at `i * cols + j` exists and is free. Placing the new piece there fills it and keeps every earlier link. |
| Game.CreateFields | src/components/CheckersGame.js:180-213 | The double loop builds exactly the board: one field per square, under its `num`. |
| Game.CheckersGame.constructor | src/components/CheckersGame.js:7-36 | A new game satisfies the invariant and has no pending moves. LIGHT is to move. An on-board square holds a piece exactly when its column has its row's parity and it lies in the first or the last `fillRows` rows. Pieces are DARK on the first rows and LIGHT on the last. |
| Game.CheckersGame.CreatePieces | src/components/CheckersGame.js:215-234 | On the empty board, exactly the parity squares of both bands get a piece, DARK in the first `fillRows` rows and LIGHT in the last. All pieces sit on board fields. |
| Game.CheckersGame.FillRows | src/components/CheckersGame.js:218-225 | One loop nest adds a piece of the given colour on every parity square of its rows, and keeps every earlier link. |
| Game.CheckersGame.FillRow | src/components/CheckersGame.js:219-224 | The inner loop adds a new piece of the colour on exactly the row's parity squares, and keeps every earlier link. |
| Game.CheckersGame.PlacePiece | src/components/CheckersGame.js:221-223 | One iteration adds a new piece of the colour on the next parity square. |
| Game.CheckersGame.SetPlayer | src/components/CheckersGame.js:236-239 | The player to move becomes the given colour. |
| Game.CheckersGame.ChangePlayer | src/components/CheckersGame.js:241-244 | The turn always flips between DARK and LIGHT. |
| Game.CheckersGame.ClearSelection | src/components/CheckersGame.js:42-54 | The move list is empty afterwards. `movesByNum` loses exactly the entries keyed by the current moves' targets. |
| Game.CheckersGame.FindMoves | src/components/CheckersGame.js:111-150 | The loop finds exactly `PossibleMoves` for the player to move, which is at most two moves. |
| Game.CheckersGame.RecordMoves | src/components/CheckersGame.js:152-156 | Each found move is stored in `movesByNum` under its target, on top of the earlier entries. |
| Game.CheckersGame.HighlightPossibleMoves | src/components/CheckersGame.js:111-159 | The current moves become the moves found from the field, and `movesByNum` indexes them. |
| Game.CheckersGame.MovePiece | src/components/CheckersGame.js:92-109 | The links become `ApplyMove` of the old links: the piece is linked to the target field, then for a capture whatever piece sits on the attacked field at that moment is removed (for a hand-made move whose attacked field is its target, that is the moving piece itself, as in the source). For the moves the game generates, the exact effect is `Moves.ApplyGeneratedMove`. |
| Game.CheckersGame.SelectsOwnPiece | src/components/CheckersGame.js:71-74 | The `checkers-piece-<player>` class test: the click is on a piece whose colour is the player to move. The class is read from the state rather than from the DOM. |
| Game.CheckersGame.ChoosesTarget | src/components/CheckersGame.js:78-81 | The `checkers-field-highlight` class test: the clicked field's number is a key of `movesByNum`, which holds exactly the highlighted fields while `Valid` holds. |
| Game.CheckersGame.SelectPiece | src/components/CheckersGame.js:71-77 | Clicking an own piece keeps the invariant and selects that piece. The pending moves are exactly those found from its field. |
| Game.CheckersGame.PlaySelectedMove | src/components/CheckersGame.js:78-86 | Clicking a highlighted field applies its move to the selected piece. That move can always be applied. Then the selection is cleared (no moves, empty `movesByNum`) and the turn flips, in that order. |
| Game.CheckersGame.PlayerMoveClick | src/components/CheckersGame.js:66-90 | Own-piece click: select it and highlight its moves, with the board and turn unchanged. Highlighted-field click: play the move, clear the selection and flip the turn. Any other click: clear the selection only. The invariant is kept in every case. |

## Left out

- DOM and CSS are not modelled: the board element and the event listener
  (src/components/CheckersGame.js:20-23, 34-40), `createFieldStyle` (its
  widths are floating point CSS), `setNamespaceClass`, and the field's DOM
  element with `highlight`/`unhighlight`. `setPlayer` is modelled by its
  state change only.
- `getNum` walks the DOM parent chain. The click is instead an abstract
  input (`Click`): a click on the piece on field `n`, a click on field `n`,
  or anything else.
- The `classList` conditions of `playerMoveClick` are replaced by what the classes
  reflect in the state. "A piece of the player to move" is the occupant's
  colour. "Highlighted" means the field's `num` is a key of `movesByNum`.
- The field number comes from the DOM as a string. JavaScript coerces it to
  a number in `/` and `%` (src/components/CheckersGame.js:113-114) and uses
  it unchanged as a key of `piecesByNum` and `movesByNum` (lines 76, 83),
  while line 154 stores moves under a number that becomes the same string
  key. The model takes the field number as an integer throughout and keys
  its maps by integers.
- `console.log` calls are not modelled.
- `src/components/index.js` (React mounting) is not part of this model.
- Piece.js, consts.js and utils.js are not part of this model. A piece is an
  identity plus an immutable colour, and `new Piece` hands out the next
  identity (`nextPieceId`). Three further modelling choices follow:
  - `setField` is taken to unlink the piece's old field and requires the
    new field to be free or already hold that piece.
  - `select` records the piece as `selectedPiece`, because `movePiece` reads
    it back.
  - `unselect` is visual only.
  - `piecesByNum` is only initialised and read in CheckersGame.js (lines
    26, 76); the model takes it to be kept in step with `field.piece` by
    Piece.js, so both are the `occupant` side of `Links`.
- `Object.assign` with an arbitrary partial configuration is not modelled.
  The constructor takes a complete `Config`; the source's default is
  `Rules.DefaultConfig`.
- Game.CheckersGame.constructor: requires `ConfigOk`, that is a non-empty
  board and `2 * fillRows <= rows`. When the two starting bands overlap, the
  outcome depends on Piece.js, which is not part of this model.
- Game.CheckersGame.CreatePieces: requires the empty board, which is the only
  state the constructor calls it in.
- Game.CheckersGame.MovePiece: requires that the target and attacked fields
  exist and that the target is free. A missing attacked field makes the
  source throw at `attackedField.piece` (line 103); a missing or occupied
  target reaches `Piece.setField`, whose behaviour is not part of this
  model. `PlaySelectedMove` proves these conditions for every generated
  move.
- `fieldsByNum` is a constant of the model. The source fills it once in the
  constructor and never changes it afterwards.
- Kings, multi-jumps, forced captures and game end are not modelled. The
  source does not implement them.

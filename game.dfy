/**
 * The game object of src/components/CheckersGame.js with its DOM work
 * stripped: the board it builds, the pieces it places, the moves it
 * highlights for a selected piece, the move it applies, and whose turn
 * it is. A click is reduced to what was clicked: a piece on a field, a
 * field, or anything else.
 */
module Game {
  import opened Wrappers
  import opened Field
  import opened Pieces
  import opened Rules
  import opened Moves

  /** What a click on the board landed on, identified by field number. */
  datatype Click = OnPiece(fieldNum: int) | OnField(fieldNum: int) | Elsewhere

  /** One more field: the next linear index gets the field of its own square. */
  lemma FieldsBelowStep(cols: int, row: int, col: int)
    requires 0 <= row && 0 <= col < cols
    ensures FieldsBelow(cols, Num(cols, row, col) + 1)
         == FieldsBelow(cols, Num(cols, row, col))[Num(cols, row, col) := NewField(cols, row, col)]
  {
    var num := Num(cols, row, col);
    var grown, updated := FieldsBelow(cols, num + 1), FieldsBelow(cols, num)[num := NewField(cols, row, col)];
    assert grown.Keys == updated.Keys;
    forall n | n in grown
      ensures grown[n] == updated[n]
    {
      if n == num {
        NumInverse(cols, row, col);
      }
    }
  }

  /** Field `n` is on a square of rows `from .. to-1` whose column has the row's parity. */
  ghost predicate InBand(cols: int, from: int, to: int, n: int)
    requires cols > 0
  {
    0 <= n && from <= n / cols < to && (n % cols) % 2 == (n / cols) % 2
  }

  /** Field `n` is on row `row`, left of column `j`, with the row's parity. */
  ghost predicate InRowBefore(cols: int, row: int, j: int, n: int)
    requires cols > 0
  {
    0 <= n && n / cols == row && n % cols < j && (n % cols) % 2 == row % 2
  }

  /** Updating the right operand of a map union updates the union. */
  lemma UnionUpdate<K, V>(a: map<K, V>, b: map<K, V>, k: K, v: V)
    ensures a + b[k := v] == (a + b)[k := v]
  {
  }

  /** Indexing one more move of `ms` on top of `base` adds that move under its target. */
  lemma IndexOnTopStep(base: map<int, Move>, cols: int, ms: seq<Move>, k: int)
    requires 0 <= k < |ms|
    ensures base + Index(cols, ms[..k + 1])
         == (base + Index(cols, ms[..k]))[Num(cols, ms[k].row, ms[k].col) := ms[k]]
  {
    IndexStep(cols, ms, k);
    UnionUpdate(base, Index(cols, ms[..k]), Num(cols, ms[k].row, ms[k].col), ms[k]);
  }

  /** Removing every key of a map leaves the empty map. */
  lemma AllKeysRemoved<K, V>(m: map<K, V>, s: set<K>)
    requires m.Keys <= s
    ensures m - s == map[]
  {
  }

  /** Placing the piece at column `j` extends the placed part of row `row` by two columns. */
  lemma RowStep(cols: int, row: int, j: int)
    requires 0 <= row && 0 <= j < cols && j % 2 == row % 2
    ensures forall n :: InRowBefore(cols, row, j + 2, n) <==> InRowBefore(cols, row, j, n) || n == Num(cols, row, j)
  {
    NumInverse(cols, row, j);
    forall n | 0 <= n
      ensures InRowBefore(cols, row, j + 2, n) <==> InRowBefore(cols, row, j, n) || n == Num(cols, row, j)
    {
      NumOfIndex(cols, n);
    }
  }

  /** A completed row joins the band. */
  lemma BandStep(cols: int, from: int, row: int, j: int)
    requires cols > 0 && from <= row && j >= cols
    ensures forall n :: InBand(cols, from, row + 1, n) <==> InBand(cols, from, row, n) || InRowBefore(cols, row, j, n)
  {
    forall n | 0 <= n
      ensures InBand(cols, from, row + 1, n) <==> InBand(cols, from, row, n) || InRowBefore(cols, row, j, n)
    {
      NumOfIndex(cols, n);
    }
  }

  /** The first `k` squares of row `i` whose column has the row's parity, left to right. */
  ghost function RowSquares(cols: int, i: int, k: nat): set<int>
  {
    if k == 0 then {} else RowSquares(cols, i, k - 1) + {Num(cols, i, i % 2 + 2 * (k - 1))}
  }

  /** How many squares of a row of `cols` columns have the parity of row `i`. */
  function RowLength(cols: int, i: int): nat
    requires cols > 0
  {
    (cols + 1 - i % 2) / 2
  }

  /** The inner loop stops after `RowLength` squares. */
  lemma RowEnd(cols: int, i: int, j: int, k: nat)
    requires cols > 0 && 0 <= i && j == i % 2 + 2 * k && cols <= j <= cols + 1
    ensures k == RowLength(cols, i)
  {
  }

  /** The first `k` parity squares of row `i` are the ones left of column `i % 2 + 2 * k`. */
  lemma {:induction false} RowSquaresBefore(cols: int, i: int, k: nat)
    requires cols > 0 && 0 <= i && i % 2 + 2 * k <= cols + 1
    ensures forall n :: n in RowSquares(cols, i, k) <==> InRowBefore(cols, i, i % 2 + 2 * k, n)
  {
    if k > 0 {
      var j := i % 2 + 2 * (k - 1);
      RowSquaresBefore(cols, i, k - 1);
      assert j % 2 == i % 2;
      RowStep(cols, i, j);
    }
  }

  /** All `RowLength` parity squares of row `i` make up the whole row's parity squares. */
  lemma FullRowSquares(cols: int, i: int)
    requires cols > 0 && 0 <= i
    ensures forall n :: n in RowSquares(cols, i, RowLength(cols, i)) <==> InRowBefore(cols, i, cols, n)
  {
    RowSquaresBefore(cols, i, RowLength(cols, i));
  }

  /** The parity squares of a row of the board are fields of the board. */
  lemma {:induction false} RowOnBoard(rows: int, cols: int, i: int, k: nat)
    requires cols > 0 && 0 <= i < rows && i % 2 + 2 * k <= cols + 1
    ensures RowSquares(cols, i, k) <= BoardFields(rows, cols).Keys
  {
    if k > 0 {
      RowOnBoard(rows, cols, i, k - 1);
      BoardFieldsAt(rows, cols, i, i % 2 + 2 * (k - 1));
    }
  }

  /**
   * The state of the inner loop of `createPieces` once it has filled the
   * `squares` of its row: the links are consistent, every identity handed
   * out is below `nextId`, and exactly those squares have gained a piece
   * of `color`, every other link being kept from `base`.
   */
  ghost predicate RowPlaced(base: Links, links: Links, squares: set<int>, color: Color, nextId: nat)
  {
    && links.Valid()
    && (forall p :: p in links.location ==> p.id < nextId)
    && (forall n :: n in links.occupant <==> n in base.occupant || n in squares)
    && (forall n :: n in base.occupant ==> links.occupant[n] == base.occupant[n])
    && (forall n :: n in squares ==> links.occupant[n].color == color)
  }

  /** The square the inner loop visits next lies in the row and has not been visited yet. */
  lemma NextSquare(cols: int, i: int, k: nat)
    requires 0 <= i && i % 2 + 2 * k < cols
    ensures InRowBefore(cols, i, cols, Num(cols, i, i % 2 + 2 * k))
    ensures Num(cols, i, i % 2 + 2 * k) !in RowSquares(cols, i, k)
  {
    var j := i % 2 + 2 * k;
    assert j % 2 == i % 2;
    NumInverse(cols, i, j);
    RowSquaresBefore(cols, i, k);
    assert !InRowBefore(cols, i, j, Num(cols, i, j));
  }

  /** Linking a fresh piece of `color` to a free square adds that square to the placed ones. */
  lemma PlaceFresh(base: Links, links: Links, squares: set<int>, num: int, color: Color, nextId: nat)
    requires RowPlaced(base, links, squares, color, nextId)
    requires num !in base.occupant && num !in squares
    ensures num !in links.occupant && Piece(nextId, color) !in links.location
    ensures RowPlaced(base, links.SetField(Piece(nextId, color), num), squares + {num}, color, nextId + 1)
  {
  }

  /**
   * One iteration of the inner loop: a fresh piece on the `k`-th parity
   * square of row `i`, at column `i % 2 + 2 * k`.
   */
  lemma PlaceOne(base: Links, links: Links, fields: map<int, Field>, rows: int, cols: int,
                 i: int, k: nat, color: Color, nextId: nat)
    requires 0 <= i < rows && i % 2 + 2 * k < cols
    requires fields == BoardFields(rows, cols)
    requires RowPlaced(base, links, RowSquares(cols, i, k), color, nextId)
    requires forall n :: InRowBefore(cols, i, cols, n) ==> n !in base.occupant
    ensures var num := Num(cols, i, i % 2 + 2 * k);
      && num in fields && fields[num].num == num
      && num !in links.occupant && Piece(nextId, color) !in links.location
      && RowPlaced(base, links.SetField(Piece(nextId, color), num), RowSquares(cols, i, k + 1), color, nextId + 1)
  {
    var num := Num(cols, i, i % 2 + 2 * k);
    BoardFieldsAt(rows, cols, i, i % 2 + 2 * k);
    NextSquare(cols, i, k);
    assert RowSquares(cols, i, k + 1) == RowSquares(cols, i, k) + {num};
    PlaceFresh(base, links, RowSquares(cols, i, k), num, color, nextId);
  }

  /**
   * `createFields`: one field per square, row by row. The board never
   * changes after construction, so the game keeps the result as a constant.
   */
  method CreateFields(rows: int, cols: int) returns (fields: map<int, Field>)
    requires cols > 0 && rows >= 0
    ensures fields == BoardFields(rows, cols)
  {
    fields := map[];
    var row := 0;
    while row < rows
      invariant 0 <= row <= rows
      invariant fields == FieldsBelow(cols, row * cols)
    {
      var col := 0;
      while col < cols
        invariant 0 <= col <= cols
        invariant fields == FieldsBelow(cols, Num(cols, row, col))
      {
        var field := NewField(cols, row, col);
        FieldsBelowStep(cols, row, col);
        fields := fields[field.num := field];
        col := col + 1;
      }
      assert Num(cols, row, cols) == (row + 1) * cols;
      row := row + 1;
    }
  }

  class CheckersGame {
    const config: Config
    /** `fieldsByNum`: every field of the board under its linear index. */
    const fieldsByNum: map<int, Field>
    /** `field.piece`, `piece.field` and `piecesByNum` together. */
    var links: Links
    /** `movesByNum`: the highlighted moves under their targets' linear indices. */
    var movesByNum: map<int, Move>
    /** `moves`: the moves of the current selection. */
    var moves: seq<Move>
    /** `player`: whose turn it is. */
    var player: Color
    /** `selectedPiece`, which `Piece.select` records. */
    var selectedPiece: Option<Piece>
    /** The identity the next `new Piece` receives. */
    var nextPieceId: nat

    /** The board and the piece links are consistent. */
    ghost predicate BoardValid()
      reads this`links
    {
      && ConfigOk(config)
      && fieldsByNum == BoardFields(config.rows, config.cols)
      && links.Valid()
      && links.occupant.Keys <= fieldsByNum.Keys
    }

    /**
     * The object invariant between clicks: `movesByNum` indexes exactly the
     * current moves, and moves are pending only while a piece of the
     * player to move is selected, being the moves found from its field.
     */
    ghost predicate Valid()
      reads this
    {
      && BoardValid()
      && IndexesMoves(config.cols, movesByNum, moves)
      && (moves != [] ==>
            && selectedPiece.Some?
            && selectedPiece.value in links.location
            && selectedPiece.value.color == player
            && moves == PossibleMoves(fieldsByNum, links.occupant, config.cols, player,
                                      links.location[selectedPiece.value]))
    }

    /**
     * A new game: the board is built, each side's pieces are placed on its
     * first `fillRows` rows on the squares whose column has the row's
     * parity, and LIGHT moves first.
     */
    constructor (config: Config)
      requires ConfigOk(config)
      ensures Valid()
      ensures this.config == config
      ensures player == LIGHT && moves == [] && movesByNum == map[]
      ensures forall row, col :: OnBoard(config.rows, config.cols, row, col) ==>
        (Num(config.cols, row, col) in links.occupant <==>
           col % 2 == row % 2 && (row < config.fillRows || row >= config.rows - config.fillRows))
      ensures forall row, col :: OnBoard(config.rows, config.cols, row, col) && Num(config.cols, row, col) in links.occupant ==>
        links.occupant[Num(config.cols, row, col)].color == if row < config.fillRows then DARK else LIGHT
    {
      var fields := CreateFields(config.rows, config.cols);
      this.config := config;
      fieldsByNum := fields;
      links := NoLinks();
      movesByNum := map[];
      moves := [];
      player := DARK;
      selectedPiece := None;
      nextPieceId := 0;
      new;
      CreatePieces();
      SetPlayer(LIGHT);
      forall row, col | OnBoard(config.rows, config.cols, row, col)
        ensures Num(config.cols, row, col) in links.occupant <==>
           col % 2 == row % 2 && (row < config.fillRows || row >= config.rows - config.fillRows)
        ensures Num(config.cols, row, col) in links.occupant ==>
           links.occupant[Num(config.cols, row, col)].color == if row < config.fillRows then DARK else LIGHT
      {
        NumInverse(config.cols, row, col);
      }
    }

    /**
     * `createPieces` on the empty board: DARK pieces on the first
     * `fillRows` rows, LIGHT pieces on the last `fillRows` rows, each on the
     * columns with the row's parity.
     */
    method CreatePieces()
      requires ConfigOk(config) && fieldsByNum == BoardFields(config.rows, config.cols)
      requires links == NoLinks()
      modifies this`links, this`nextPieceId
      ensures links.Valid() && links.occupant.Keys <= fieldsByNum.Keys
      ensures forall n :: n in links.occupant <==>
        InBand(config.cols, 0, config.fillRows, n) || InBand(config.cols, config.rows - config.fillRows, config.rows, n)
      ensures forall n :: n in links.occupant ==>
        links.occupant[n].color == if n / config.cols < config.fillRows then DARK else LIGHT
    {
      var rows, cols, fillRows := config.rows, config.cols, config.fillRows;
      FillRows(0, fillRows, DARK);
      FillRows(rows - fillRows, rows, LIGHT);
    }

    /** One loop nest of `createPieces`: a new piece of `color` on each parity square of rows `from .. to-1`. */
    method FillRows(from: int, to: int, color: Color)
      requires ConfigOk(config) && fieldsByNum == BoardFields(config.rows, config.cols)
      requires 0 <= from <= to <= config.rows
      requires links.Valid() && links.occupant.Keys <= fieldsByNum.Keys
      requires forall p :: p in links.location ==> p.id < nextPieceId
      requires forall n :: InBand(config.cols, from, to, n) ==> n !in links.occupant
      modifies this`links, this`nextPieceId
      ensures links.Valid() && links.occupant.Keys <= fieldsByNum.Keys
      ensures forall p :: p in links.location ==> p.id < nextPieceId
      ensures forall n :: n in links.occupant <==> n in old(links.occupant) || InBand(config.cols, from, to, n)
      ensures forall n :: n in old(links.occupant) ==> links.occupant[n] == old(links.occupant)[n]
      ensures forall n :: InBand(config.cols, from, to, n) ==> links.occupant[n].color == color
    {
      var cols := config.cols;
      var i := from;
      while i < to
        invariant from <= i <= to
        invariant links.Valid() && links.occupant.Keys <= fieldsByNum.Keys
        invariant forall p :: p in links.location ==> p.id < nextPieceId
        invariant forall n :: n in links.occupant <==> n in old(links.occupant) || InBand(cols, from, i, n)
        invariant forall n :: n in old(links.occupant) ==> links.occupant[n] == old(links.occupant)[n]
        invariant forall n :: InBand(cols, from, i, n) ==> links.occupant[n].color == color
      {
        forall n | InRowBefore(cols, i, cols, n)
          ensures InBand(cols, from, to, n) && !InBand(cols, from, i, n)
        {
        }
        FillRow(i, color);
        FullRowSquares(cols, i);
        RowOnBoard(config.rows, cols, i, RowLength(cols, i));
        BandStep(cols, from, i, cols);
        i := i + 1;
      }
    }

    /** The inner loop of `createPieces`: a new piece of `color` on each parity square of row `i`. */
    method FillRow(i: int, color: Color)
      requires ConfigOk(config) && fieldsByNum == BoardFields(config.rows, config.cols)
      requires 0 <= i < config.rows
      requires links.Valid() && links.occupant.Keys <= fieldsByNum.Keys
      requires forall p :: p in links.location ==> p.id < nextPieceId
      requires forall n :: InRowBefore(config.cols, i, config.cols, n) ==> n !in links.occupant
      modifies this`links, this`nextPieceId
      ensures RowPlaced(old(links), links, RowSquares(config.cols, i, RowLength(config.cols, i)),
                        color, nextPieceId)
    {
      var cols := config.cols;
      var j := i % 2;
      ghost var k: nat := 0;
      while j < cols
        invariant j == i % 2 + 2 * k && j <= cols + 1
        invariant RowPlaced(old(links), links, RowSquares(cols, i, k), color, nextPieceId)
      {
        PlacePiece(old(links), i, j, k, color);
        j, k := j + 2, k + 1;
      }
      RowEnd(cols, i, j, k);
    }

    /** The body of the inner loop of `createPieces`: `new Piece(this, color)` is set on the field at row `i`, column `j`. */
    method PlacePiece(ghost base: Links, i: int, j: int, ghost k: nat, color: Color)
      requires ConfigOk(config) && fieldsByNum == BoardFields(config.rows, config.cols)
      requires 0 <= i < config.rows && j == i % 2 + 2 * k && j < config.cols
      requires RowPlaced(base, links, RowSquares(config.cols, i, k), color, nextPieceId)
      requires forall n :: InRowBefore(config.cols, i, config.cols, n) ==> n !in base.occupant
      modifies this`links, this`nextPieceId
      ensures RowPlaced(base, links, RowSquares(config.cols, i, k + 1), color, nextPieceId)
    {
      PlaceOne(base, links, fieldsByNum, config.rows, config.cols, i, k, color, nextPieceId);
      var piece := Piece(nextPieceId, color);
      nextPieceId := nextPieceId + 1;
      var field := fieldsByNum[i * config.cols + j];
      links := links.SetField(piece, field.num);
    }

    /** `setPlayer`. */
    method SetPlayer(p: Color)
      modifies this`player
      ensures player == p
    {
      player := p;
    }

    /** `changePlayer`: the turn passes to the other colour. */
    method ChangePlayer()
      modifies this`player
      ensures player == Other(old(player))
    {
      var otherPlayer := if player == DARK then LIGHT else DARK;
      SetPlayer(otherPlayer);
    }

    /**
     * `clearSelection`: deletes the index entry of every current move and
     * empties the move list. (Unselecting the piece and unhighlighting the
     * fields are visual only.)
     */
    method ClearSelection()
      modifies this`movesByNum, this`moves
      ensures moves == []
      ensures movesByNum == old(movesByNum) - TargetNums(config.cols, old(moves))
    {
      var k := 0;
      while k < |moves|
        invariant 0 <= k <= |moves| && moves == old(moves)
        invariant movesByNum == old(movesByNum) - TargetNums(config.cols, moves[..k])
      {
        var move := moves[k];
        assert moves[..k + 1] == moves[..k] + [move];
        assert TargetNums(config.cols, moves[..k + 1])
            == TargetNums(config.cols, moves[..k]) + {Num(config.cols, move.row, move.col)};
        movesByNum := movesByNum - {Num(config.cols, move.row, move.col)};
        k := k + 1;
      }
      assert moves[..|moves|] == moves;
      moves := [];
    }

    /**
     * The first pass of `highlightPossibleMoves`: for each column change of
     * `[1, -1]`, the simple move onto an empty diagonal neighbour, or the
     * capture over an opponent's piece onto an empty landing field.
     */
    method FindMoves(fieldNum: int) returns (found: seq<Move>)
      requires config.cols > 0
      ensures found == PossibleMoves(fieldsByNum, links.occupant, config.cols, player, fieldNum)
      ensures |found| <= 2
    {
      var cols := config.cols;
      var row := fieldNum / cols;
      var col := JsRem(fieldNum, cols);
      var otherPlayer := if player == DARK then LIGHT else DARK;
      var rowChange := if player == DARK then 1 else -1;
      var possibleRow := row + rowChange;

      found := [];
      var i := 0;
      while i < |ColChanges|
        invariant 0 <= i <= |ColChanges|
        invariant found == CollectMoves(fieldsByNum, links.occupant, cols, player, row, col, ColChanges[..i])
      {
        var colChange := ColChanges[i];
        CollectMovesStep(fieldsByNum, links.occupant, cols, player, row, col, ColChanges, i);
        ghost var expected := DiagonalMove(fieldsByNum, links.occupant, cols, player, row, col, colChange);
        var field := GetField(fieldsByNum, cols, possibleRow, col + colChange);
        if field.Some? {
          if field.value.num !in links.occupant {
            found := found + [Move(possibleRow, col + colChange, None)];
          } else if links.occupant[field.value.num].color == otherPlayer {
            var attackRow := possibleRow + rowChange;
            var attackCol := col + colChange * 2;
            var landing := GetField(fieldsByNum, cols, attackRow, attackCol);
            if landing.Some? && landing.value.num !in links.occupant {
              found := found + [Move(attackRow, attackCol, Some(Coord(possibleRow, col + colChange)))];
            } else {
              assert expected == None;
            }
          } else {
            assert expected == None;
          }
        } else {
          assert expected == None;
        }
        i := i + 1;
      }
      assert ColChanges[..|ColChanges|] == ColChanges;
      CollectOverColChanges(fieldsByNum, links.occupant, cols, player, fieldNum);
    }

    /**
     * The second pass of `highlightPossibleMoves`: stores each found move in
     * `movesByNum` under its target's linear index, later moves winning.
     */
    method RecordMoves(found: seq<Move>)
      requires config.cols > 0
      modifies this`movesByNum
      ensures movesByNum == old(movesByNum) + Index(config.cols, found)
    {
      var cols := config.cols;
      var k := 0;
      assert found[..0] == [];
      while k < |found|
        invariant 0 <= k <= |found|
        invariant movesByNum == old(movesByNum) + Index(cols, found[..k])
      {
        var move := found[k];
        IndexOnTopStep(old(movesByNum), cols, found, k);
        movesByNum := movesByNum[Num(cols, move.row, move.col) := move];
        k := k + 1;
      }
      assert found[..|found|] == found;
    }

    /**
     * `highlightPossibleMoves(fieldNum)`: looks along the two forward
     * diagonals of the player to move, records each move found under its
     * target's linear index, and makes the found moves the current ones.
     */
    method HighlightPossibleMoves(fieldNum: int)
      requires config.cols > 0
      modifies this`moves, this`movesByNum
      ensures moves == PossibleMoves(fieldsByNum, links.occupant, config.cols, player, fieldNum)
      ensures movesByNum == old(movesByNum) + Index(config.cols, moves)
    {
      var found := FindMoves(fieldNum);
      RecordMoves(found);
      moves := found;
    }

    /**
     * `movePiece`: links the piece to the target field, then, for a capture,
     * removes the piece found on the attacked field at this moment, if any.
     */
    method MovePiece(piece: Piece, move: Move)
      requires CanApply(links, fieldsByNum, config.cols, piece, move)
      modifies this`links
      ensures links == ApplyMove(old(links), fieldsByNum, config.cols, piece, move)
    {
      var cols := config.cols;
      var field := GetField(fieldsByNum, cols, move.row, move.col).value;
      links := links.SetField(piece, field.num);
      if move.attacking.Some? {
        var attacking := move.attacking.value;
        var attackedField := GetField(fieldsByNum, cols, attacking.row, attacking.col).value;
        if attackedField.num in links.occupant {
          var attackedPiece := links.occupant[attackedField.num];
          links := links.Remove(attackedPiece);
        }
      }
    }

    /** The click is on a piece of the player to move. */
    ghost predicate SelectsOwnPiece(click: Click)
      reads this
    {
      click.OnPiece? && click.fieldNum in links.occupant && links.occupant[click.fieldNum].color == player
    }

    /** The click is on a highlighted field, that is one holding a pending move. */
    ghost predicate ChoosesTarget(click: Click)
      reads this
    {
      click.OnField? && click.fieldNum in movesByNum
    }

    /**
     * The first branch of `playerMoveClick`: the selection is cleared, the
     * clicked piece of the player to move is selected and its moves are
     * highlighted.
     */
    method SelectPiece(fieldNum: int)
      requires Valid() && fieldNum in links.occupant && links.occupant[fieldNum].color == player
      modifies this`movesByNum, this`moves, this`selectedPiece
      ensures Valid()
      ensures selectedPiece == Some(old(links.occupant[fieldNum]))
      ensures moves == PossibleMoves(fieldsByNum, links.occupant, config.cols, player, fieldNum)
    {
      ClearSelection();
      assert movesByNum == map[] by {
        AllKeysRemoved(old(movesByNum), TargetNums(config.cols, old(moves)));
      }
      var piece := links.occupant[fieldNum];
      selectedPiece := Some(piece);
      HighlightPossibleMoves(fieldNum);
      assert movesByNum == Index(config.cols, moves);
      IndexKeys(config.cols, moves);
      assert links.location[piece] == fieldNum;
    }

    /**
     * The second branch of `playerMoveClick`: the pending move stored under
     * the clicked field is applied to the selected piece, the selection is
     * cleared and the turn passes.
     */
    method PlaySelectedMove(fieldNum: int)
      requires Valid() && fieldNum in movesByNum
      modifies this`links, this`movesByNum, this`moves, this`player
      ensures Valid()
      ensures old(selectedPiece).Some?
      ensures CanApply(old(links), fieldsByNum, config.cols, old(selectedPiece).value, old(movesByNum)[fieldNum])
      ensures links == ApplyMove(old(links), fieldsByNum, config.cols, old(selectedPiece).value, old(movesByNum)[fieldNum])
      ensures player == Other(old(player))
      ensures moves == [] && movesByNum == map[]
    {
      var move := movesByNum[fieldNum];
      var piece := selectedPiece.value;
      assert CanApply(links, fieldsByNum, config.cols, piece, move)
          && ApplyMove(links, fieldsByNum, config.cols, piece, move).occupant.Keys <= fieldsByNum.Keys by {
        assert move in moves && piece in links.location;
        GeneratedMoveStaysOnBoard(config.rows, config.cols, links, player, piece, move);
      }
      MovePiece(piece, move);
      assert BoardValid();
      ghost var moved := links;
      ClearSelection();
      assert movesByNum == map[] by {
        AllKeysRemoved(old(movesByNum), TargetNums(config.cols, old(moves)));
      }
      ChangePlayer();
      assert links == moved;
      assert BoardValid();
    }

    /**
     * `playerMoveClick`: a click on an own piece selects it and highlights
     * its moves; a click on a highlighted field applies that move, clears
     * the selection and passes the turn; any other click clears the
     * selection.
     */
    method PlayerMoveClick(click: Click)
      requires Valid()
      modifies this`links, this`movesByNum, this`moves, this`player, this`selectedPiece
      ensures Valid()
      ensures old(SelectsOwnPiece(click)) ==>
        && links == old(links) && player == old(player)
        && selectedPiece == Some(old(links.occupant[click.fieldNum]))
        && moves == PossibleMoves(fieldsByNum, links.occupant, config.cols, player, click.fieldNum)
      ensures old(ChoosesTarget(click)) ==>
        && old(selectedPiece).Some?
        && CanApply(old(links), fieldsByNum, config.cols, old(selectedPiece).value, old(movesByNum)[click.fieldNum])
        && links == ApplyMove(old(links), fieldsByNum, config.cols, old(selectedPiece).value, old(movesByNum)[click.fieldNum])
        && player == Other(old(player))
        && moves == [] && movesByNum == map[]
      ensures !old(SelectsOwnPiece(click)) && !old(ChoosesTarget(click)) ==>
        && links == old(links) && player == old(player) && selectedPiece == old(selectedPiece)
        && moves == [] && movesByNum == map[]
    {
      if click.OnPiece? && click.fieldNum in links.occupant && links.occupant[click.fieldNum].color == player {
        SelectPiece(click.fieldNum);
      } else if click.OnField? && click.fieldNum in movesByNum {
        PlaySelectedMove(click.fieldNum);
      } else {
        ClearSelection();
        assert movesByNum == map[] by {
          AllKeysRemoved(old(movesByNum), TargetNums(config.cols, old(moves)));
        }
      }
    }
  }
}

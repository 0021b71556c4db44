/**
 * The pure part of the rules engine of src/components/CheckersGame.js:
 * the board of fields keyed by linear index, `getField`, the moves
 * `highlightPossibleMoves` finds from a field, the index `movesByNum` it
 * builds, and what `movePiece` does to the piece/field links.
 */
module Rules {
  import opened Wrappers
  import opened Field
  import opened Pieces

  /** Board dimensions and the number of rows each side starts on. */
  datatype Config = Config(rows: int, cols: int, fillRows: int)

  /** The configuration used when the caller passes none. */
  const DefaultConfig: Config := Config(8, 8, 2)

  /** Configurations the engine handles: a non-empty board whose two starting bands do not overlap. */
  predicate ConfigOk(c: Config)
  {
    c.rows > 0 && c.cols > 0 && 0 <= c.fillRows && 2 * c.fillRows <= c.rows
  }

  predicate OnBoard(rows: int, cols: int, row: int, col: int)
  {
    0 <= row < rows && 0 <= col < cols
  }

  /** The fields numbered below `count`, as `createFields` creates them in row-major order. */
  function FieldsBelow(cols: int, count: int): map<int, Field>
    requires cols > 0
  {
    map n | 0 <= n < count :: NewField(cols, n / cols, n % cols)
  }

  /** `fieldsByNum` as `createFields` leaves it: one field per index `0 .. rows*cols-1`. */
  function BoardFields(rows: int, cols: int): map<int, Field>
    requires cols > 0
  {
    FieldsBelow(cols, rows * cols)
  }

  /**
   * Each on-board square has its own field, stored under its linear index,
   * and an in-range column with an off-board row has no field.
   */
  lemma BoardFieldsAt(rows: int, cols: int, row: int, col: int)
    requires 0 <= col < cols
    ensures Num(cols, row, col) in BoardFields(rows, cols) <==> 0 <= row < rows
    ensures 0 <= row < rows ==> BoardFields(rows, cols)[Num(cols, row, col)] == NewField(cols, row, col)
  {
    NumInRange(rows, cols, row, col);
    NumInverse(cols, row, col);
  }

  /** The board's keys are exactly `0 .. rows*cols-1`, each the index of its own field. */
  lemma BoardFieldsKeys(rows: int, cols: int, n: int)
    requires cols > 0
    ensures n in BoardFields(rows, cols) <==> 0 <= n < rows * cols
    ensures n in BoardFields(rows, cols) ==>
      var f := BoardFields(rows, cols)[n];
      f.num == n && OnBoard(rows, cols, f.row, f.col)
  {
    if 0 <= n < rows * cols {
      NumOfIndex(cols, n);
      NumInRange(rows, cols, n / cols, n % cols);
    }
  }

  /**
   * `getField`: nothing for an off-board column; otherwise whatever the
   * board stores under the linear index, which is nothing when the row is
   * off the board.
   */
  function GetField(fields: map<int, Field>, cols: int, row: int, col: int): Option<Field>
  {
    if col < 0 || col >= cols then None
    else if Num(cols, row, col) in fields then Some(fields[Num(cols, row, col)])
    else None
  }

  /** On the board `createFields` builds, `getField` finds exactly the on-board squares. */
  lemma GetFieldOnBoard(rows: int, cols: int, row: int, col: int)
    requires cols > 0
    ensures GetField(BoardFields(rows, cols), cols, row, col)
         == if OnBoard(rows, cols, row, col) then Some(NewField(cols, row, col)) else None
  {
    if 0 <= col < cols {
      BoardFieldsAt(rows, cols, row, col);
    }
  }

  datatype Coord = Coord(row: int, col: int)

  /** A move record: the target square and, for a capture, the jumped square. */
  datatype Move = Move(row: int, col: int, attacking: Option<Coord>)

  /** The row step of the player to move: DARK advances down, LIGHT up. */
  function Forward(player: Color): (d: int)
    ensures d == 1 || d == -1
    ensures d == 1 <==> player == DARK
  {
    if player == DARK then 1 else -1
  }

  /** The column steps tried, in the order of the `[1, -1]` in `highlightPossibleMoves` of CheckersGame.js. */
  const ColChanges: seq<int> := [1, -1]

  /** The move, if any, along the forward diagonal with column step `colChange`. */
  function DiagonalMove(fields: map<int, Field>, occupant: map<int, Piece>, cols: int,
                        player: Color, row: int, col: int, colChange: int): Option<Move>
  {
    var rowChange := Forward(player);
    var possibleRow := row + rowChange;
    match GetField(fields, cols, possibleRow, col + colChange)
    case None => None
    case Some(field) =>
      if field.num !in occupant then
        Some(Move(possibleRow, col + colChange, None))
      else if occupant[field.num].color == Other(player) then
        var attackRow, attackCol := possibleRow + rowChange, col + colChange * 2;
        match GetField(fields, cols, attackRow, attackCol)
        case Some(landing) =>
          if landing.num !in occupant then
            Some(Move(attackRow, attackCol, Some(Coord(possibleRow, col + colChange))))
          else None
        case None => None
      else None
  }

  function OptionToSeq(o: Option<Move>): seq<Move>
  {
    match o
    case Some(m) => [m]
    case None => []
  }

  /** The moves pushed while looping over `changes`, in order. */
  function CollectMoves(fields: map<int, Field>, occupant: map<int, Piece>, cols: int,
                        player: Color, row: int, col: int, changes: seq<int>): (ms: seq<Move>)
    ensures |ms| <= |changes|
    decreases |changes|
  {
    if changes == [] then []
    else
      CollectMoves(fields, occupant, cols, player, row, col, changes[..|changes| - 1])
        + OptionToSeq(DiagonalMove(fields, occupant, cols, player, row, col, changes[|changes| - 1]))
  }

  /** One more iteration of the `forEach` in `highlightPossibleMoves` of CheckersGame.js appends the move of that diagonal, if any. */
  lemma CollectMovesStep(fields: map<int, Field>, occupant: map<int, Piece>, cols: int,
                         player: Color, row: int, col: int, changes: seq<int>, i: int)
    requires 0 <= i < |changes|
    ensures CollectMoves(fields, occupant, cols, player, row, col, changes[..i + 1])
         == CollectMoves(fields, occupant, cols, player, row, col, changes[..i])
          + OptionToSeq(DiagonalMove(fields, occupant, cols, player, row, col, changes[i]))
  {
    assert changes[..i + 1][..i] == changes[..i];
  }

  /**
   * The moves `highlightPossibleMoves(fieldNum)` finds for the player to
   * move, with row `Math.floor(fieldNum / cols)` and column `fieldNum % cols`.
   */
  function PossibleMoves(fields: map<int, Field>, occupant: map<int, Piece>, cols: int,
                         player: Color, fieldNum: int): (ms: seq<Move>)
    requires cols > 0
    ensures |ms| <= 2
  {
    var row, col := fieldNum / cols, JsRem(fieldNum, cols);
    OptionToSeq(DiagonalMove(fields, occupant, cols, player, row, col, 1))
      + OptionToSeq(DiagonalMove(fields, occupant, cols, player, row, col, -1))
  }

  /** Looping over the column changes `[1, -1]` collects exactly the possible moves. */
  lemma CollectOverColChanges(fields: map<int, Field>, occupant: map<int, Piece>, cols: int,
                              player: Color, fieldNum: int)
    requires cols > 0
    ensures CollectMoves(fields, occupant, cols, player, fieldNum / cols, JsRem(fieldNum, cols), ColChanges)
         == PossibleMoves(fields, occupant, cols, player, fieldNum)
  {
    assert ColChanges[..1] == [1];
    assert [1][..0] == [];
  }

  /** `movesByNum` built from a move list: each move under its target's linear index, later ones winning. */
  function Index(cols: int, ms: seq<Move>): (idx: map<int, Move>)
    ensures forall k :: k in idx ==> idx[k] in ms && Num(cols, idx[k].row, idx[k].col) == k
    decreases |ms|
  {
    if ms == [] then map[]
    else
      var last := ms[|ms| - 1];
      var init := ms[..|ms| - 1];
      assert ms == init + [last];
      Index(cols, init)[Num(cols, last.row, last.col) := last]
  }

  /** Indexing one more move adds it under its target. */
  lemma IndexStep(cols: int, ms: seq<Move>, k: int)
    requires 0 <= k < |ms|
    ensures Index(cols, ms[..k + 1]) == Index(cols, ms[..k])[Num(cols, ms[k].row, ms[k].col) := ms[k]]
  {
    assert ms[..k + 1][..k] == ms[..k];
  }

  /** The linear indices of the targets of `ms`. */
  function TargetNums(cols: int, ms: seq<Move>): set<int>
  {
    set m | m in ms :: Num(cols, m.row, m.col)
  }

  /** The index has exactly the targets of the moves as its keys. */
  lemma {:induction false} IndexKeys(cols: int, ms: seq<Move>)
    ensures Index(cols, ms).Keys == TargetNums(cols, ms)
    decreases |ms|
  {
    if ms != [] {
      var last := ms[|ms| - 1];
      var init := ms[..|ms| - 1];
      IndexKeys(cols, init);
      assert ms == init + [last];
      assert TargetNums(cols, ms) == TargetNums(cols, init) + {Num(cols, last.row, last.col)};
    }
  }

  /** `byNum` holds exactly the targets of `ms`, each under its own linear index. */
  ghost predicate IndexesMoves(cols: int, byNum: map<int, Move>, ms: seq<Move>)
  {
    && byNum.Keys == TargetNums(cols, ms)
    && forall n :: n in byNum ==> byNum[n] in ms && Num(cols, byNum[n].row, byNum[n].col) == n
  }

  /** Moves whose targets are pairwise distinct. */
  ghost predicate DistinctTargets(cols: int, ms: seq<Move>)
  {
    forall i, j :: 0 <= i < j < |ms| ==> Num(cols, ms[i].row, ms[i].col) != Num(cols, ms[j].row, ms[j].col)
  }

  /** When targets are distinct, looking a move's target up in the index gives back that move. */
  lemma {:induction false} IndexFindsEachMove(cols: int, ms: seq<Move>, i: int)
    requires DistinctTargets(cols, ms)
    requires 0 <= i < |ms|
    ensures Num(cols, ms[i].row, ms[i].col) in Index(cols, ms)
    ensures Index(cols, ms)[Num(cols, ms[i].row, ms[i].col)] == ms[i]
    decreases |ms|
  {
    var init := ms[..|ms| - 1];
    if i < |ms| - 1 {
      assert DistinctTargets(cols, init) by {
        forall a, b | 0 <= a < b < |init|
          ensures Num(cols, init[a].row, init[a].col) != Num(cols, init[b].row, init[b].col)
        {
          assert init[a] == ms[a] && init[b] == ms[b];
        }
      }
      IndexFindsEachMove(cols, init, i);
      assert init[i] == ms[i];
    }
  }

  /**
   * What `movePiece` needs so that it does not fail: a placed piece, an
   * existing target field that is free (or already holds the piece), and
   * an existing attacked field for a capture.
   */
  ghost predicate CanApply(links: Links, fields: map<int, Field>, cols: int, piece: Piece, move: Move)
  {
    && links.Valid() && piece in links.location
    && GetField(fields, cols, move.row, move.col).Some?
    && (var target := GetField(fields, cols, move.row, move.col).value.num;
        target !in links.occupant || links.occupant[target] == piece)
    && (move.attacking.Some? ==>
          GetField(fields, cols, move.attacking.value.row, move.attacking.value.col).Some?)
  }

  /**
   * `movePiece`: the piece is linked to the target field; then, for a
   * capture, the attacked field is looked up again and whatever piece is on
   * it at that moment is removed.
   */
  function ApplyMove(links: Links, fields: map<int, Field>, cols: int, piece: Piece, move: Move): (r: Links)
    requires CanApply(links, fields, cols, piece, move)
    ensures r.Valid()
    ensures r.occupant.Keys <= links.occupant.Keys + {GetField(fields, cols, move.row, move.col).value.num}
  {
    var field := GetField(fields, cols, move.row, move.col).value;
    var moved := links.SetField(piece, field.num);
    match move.attacking
    case None => moved
    case Some(attacking) =>
      var attackedField := GetField(fields, cols, attacking.row, attacking.col).value;
      if attackedField.num in moved.occupant then moved.Remove(moved.occupant[attackedField.num])
      else moved
  }
}

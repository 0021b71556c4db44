/**
 * What the move generation and move application of
 * src/components/CheckersGame.js promise, proved about the functions of
 * module Rules on the board that `createFields` builds.
 */
module Moves {
  import opened Wrappers
  import opened Field
  import opened Pieces
  import opened Rules

  /**
   * One forward diagonal, completely: a simple step to the adjacent square
   * exactly when it is on the board and empty; a capture over it exactly
   * when it holds an opponent and the landing square is on the board and
   * empty; nothing else.
   */
  lemma DiagonalMoveExactly(rows: int, cols: int, occupant: map<int, Piece>, player: Color,
                            row: int, col: int, dc: int)
    requires cols > 0
    ensures var d := Forward(player);
      var dm := DiagonalMove(BoardFields(rows, cols), occupant, cols, player, row, col, dc);
      && (dm == Some(Move(row + d, col + dc, None)) <==>
            OnBoard(rows, cols, row + d, col + dc) && Num(cols, row + d, col + dc) !in occupant)
      && (dm == Some(Move(row + 2 * d, col + 2 * dc, Some(Coord(row + d, col + dc)))) <==>
            && OnBoard(rows, cols, row + d, col + dc)
            && Num(cols, row + d, col + dc) in occupant
            && occupant[Num(cols, row + d, col + dc)].color == Other(player)
            && OnBoard(rows, cols, row + 2 * d, col + 2 * dc)
            && Num(cols, row + 2 * d, col + 2 * dc) !in occupant)
      && (dm.Some? ==>
            || dm == Some(Move(row + d, col + dc, None))
            || dm == Some(Move(row + 2 * d, col + 2 * dc, Some(Coord(row + d, col + dc)))))
      && (dm.Some? ==>
            OnBoard(rows, cols, dm.value.row, dm.value.col) && Num(cols, dm.value.row, dm.value.col) !in occupant)
  {
    var d := Forward(player);
    GetFieldOnBoard(rows, cols, row + d, col + dc);
    GetFieldOnBoard(rows, cols, row + d + d, col + dc * 2);
    assert row + d + d == row + 2 * d && col + dc * 2 == col + 2 * dc;
  }

  /** A move on the board from `fieldNum` has one of the four forward shapes. */
  ghost predicate ForwardShape(player: Color, row: int, col: int, m: Move)
  {
    var d := Forward(player);
    || m == Move(row + d, col + 1, None)
    || m == Move(row + d, col - 1, None)
    || m == Move(row + 2 * d, col + 2, Some(Coord(row + d, col + 1)))
    || m == Move(row + 2 * d, col - 2, Some(Coord(row + d, col - 1)))
  }

  /**
   * Every move found targets an on-board field with no piece, one or two
   * rows forward, and is a simple step or a capture over the adjacent
   * diagonal square.
   */
  lemma PossibleMovesSound(rows: int, cols: int, occupant: map<int, Piece>, player: Color, fieldNum: int)
    requires cols > 0
    ensures var row, col := fieldNum / cols, JsRem(fieldNum, cols);
      forall m :: m in PossibleMoves(BoardFields(rows, cols), occupant, cols, player, fieldNum) ==>
        && OnBoard(rows, cols, m.row, m.col)
        && Num(cols, m.row, m.col) !in occupant
        && ForwardShape(player, row, col, m)
  {
    var row, col := fieldNum / cols, JsRem(fieldNum, cols);
    var fields := BoardFields(rows, cols);
    var right := DiagonalMove(fields, occupant, cols, player, row, col, 1);
    var left := DiagonalMove(fields, occupant, cols, player, row, col, -1);
    DiagonalMoveExactly(rows, cols, occupant, player, row, col, 1);
    DiagonalMoveExactly(rows, cols, occupant, player, row, col, -1);
    forall m | m in PossibleMoves(fields, occupant, cols, player, fieldNum)
      ensures OnBoard(rows, cols, m.row, m.col) && Num(cols, m.row, m.col) !in occupant
      ensures ForwardShape(player, row, col, m)
    {
      assert (right.Some? && m == right.value) || (left.Some? && m == left.value);
    }
  }

  /** The moves found are those of the two diagonals, and the other diagonal never reaches column `col + dc` or `col + 2*dc`. */
  lemma DiagonalsApart(rows: int, cols: int, occupant: map<int, Piece>, player: Color,
                       fieldNum: int, dc: int)
    requires cols > 0
    requires dc == 1 || dc == -1
    ensures var row, col := fieldNum / cols, JsRem(fieldNum, cols);
      var fields := BoardFields(rows, cols);
      var mine := DiagonalMove(fields, occupant, cols, player, row, col, dc);
      var other := DiagonalMove(fields, occupant, cols, player, row, col, -dc);
      && (forall m :: m in PossibleMoves(fields, occupant, cols, player, fieldNum) <==>
            (mine.Some? && m == mine.value) || (other.Some? && m == other.value))
      && (other.Some? ==> other.value.col != col + dc && other.value.col != col + 2 * dc)
  {
    var row, col := fieldNum / cols, JsRem(fieldNum, cols);
    var other := DiagonalMove(BoardFields(rows, cols), occupant, cols, player, row, col, -dc);
    assert other.Some? ==> other.value.col == col - dc || other.value.col == col - 2 * dc;
  }

  /**
   * The simple step along a diagonal is offered exactly when the adjacent
   * square is on the board and empty.
   */
  lemma SimpleMoveExactly(rows: int, cols: int, occupant: map<int, Piece>, player: Color,
                          fieldNum: int, dc: int)
    requires cols > 0
    requires dc == 1 || dc == -1
    ensures var row, col, d := fieldNum / cols, JsRem(fieldNum, cols), Forward(player);
      (Move(row + d, col + dc, None) in PossibleMoves(BoardFields(rows, cols), occupant, cols, player, fieldNum)
       <==> OnBoard(rows, cols, row + d, col + dc) && Num(cols, row + d, col + dc) !in occupant)
  {
    DiagonalsApart(rows, cols, occupant, player, fieldNum, dc);
    DiagonalMoveExactly(rows, cols, occupant, player, fieldNum / cols, JsRem(fieldNum, cols), dc);
  }

  /**
   * The capture along a diagonal, with the jumped square recorded under
   * `attacking`, is offered exactly when the adjacent square holds an
   * opponent and the landing square is on the board and empty.
   */
  lemma CaptureMoveExactly(rows: int, cols: int, occupant: map<int, Piece>, player: Color,
                           fieldNum: int, dc: int)
    requires cols > 0
    requires dc == 1 || dc == -1
    ensures var row, col, d := fieldNum / cols, JsRem(fieldNum, cols), Forward(player);
      Move(row + 2 * d, col + 2 * dc, Some(Coord(row + d, col + dc)))
        in PossibleMoves(BoardFields(rows, cols), occupant, cols, player, fieldNum)
      <==>
        && OnBoard(rows, cols, row + d, col + dc)
        && Num(cols, row + d, col + dc) in occupant
        && occupant[Num(cols, row + d, col + dc)].color == Other(player)
        && OnBoard(rows, cols, row + 2 * d, col + 2 * dc)
        && Num(cols, row + 2 * d, col + 2 * dc) !in occupant
  {
    DiagonalsApart(rows, cols, occupant, player, fieldNum, dc);
    DiagonalMoveExactly(rows, cols, occupant, player, fieldNum / cols, JsRem(fieldNum, cols), dc);
  }

  /** A piece of the mover's own colour on a diagonal blocks every move along it. */
  lemma OwnNeighbourBlocks(rows: int, cols: int, occupant: map<int, Piece>, player: Color,
                           fieldNum: int, dc: int)
    requires cols > 0
    requires dc == 1 || dc == -1
    requires var row, col, d := fieldNum / cols, JsRem(fieldNum, cols), Forward(player);
      Num(cols, row + d, col + dc) in occupant && occupant[Num(cols, row + d, col + dc)].color == player
    ensures var col := JsRem(fieldNum, cols);
      forall m :: m in PossibleMoves(BoardFields(rows, cols), occupant, cols, player, fieldNum) ==>
        m.col != col + dc && m.col != col + 2 * dc
  {
    var row, col := fieldNum / cols, JsRem(fieldNum, cols);
    var mine := DiagonalMove(BoardFields(rows, cols), occupant, cols, player, row, col, dc);
    assert mine.None? by {
      DiagonalMoveExactly(rows, cols, occupant, player, row, col, dc);
    }
    DiagonalsApart(rows, cols, occupant, player, fieldNum, dc);
  }

  /** The (at most two) moves found have distinct targets, so `movesByNum` loses none of them. */
  lemma PossibleMovesDistinct(rows: int, cols: int, occupant: map<int, Piece>, player: Color, fieldNum: int)
    requires cols > 0
    ensures DistinctTargets(cols, PossibleMoves(BoardFields(rows, cols), occupant, cols, player, fieldNum))
  {
    var row, col := fieldNum / cols, JsRem(fieldNum, cols);
    var fields := BoardFields(rows, cols);
    var ms := PossibleMoves(fields, occupant, cols, player, fieldNum);
    PossibleMovesSound(rows, cols, occupant, player, fieldNum);
    DiagonalMoveExactly(rows, cols, occupant, player, row, col, 1);
    DiagonalMoveExactly(rows, cols, occupant, player, row, col, -1);
    if |ms| == 2 {
      assert ms[0].col > col > ms[1].col;
      if Num(cols, ms[0].row, ms[0].col) == Num(cols, ms[1].row, ms[1].col) {
        NumInjective(cols, ms[0].row, ms[0].col, ms[1].row, ms[1].col);
      }
    }
  }

  /** The square a field number denotes, with the JavaScript remainder. */
  lemma FieldNumSquare(rows: int, cols: int, n: int)
    requires cols > 0
    requires n in BoardFields(rows, cols)
    ensures JsRem(n, cols) == n % cols
    ensures OnBoard(rows, cols, n / cols, n % cols)
    ensures Num(cols, n / cols, n % cols) == n
  {
    BoardFieldsKeys(rows, cols, n);
    NumOfIndex(cols, n);
    NumInRange(rows, cols, n / cols, n % cols);
  }

  /** Removing a key other than the one just updated commutes with the update. */
  lemma UpdateThenRemove<K, V>(m: map<K, V>, k: K, v: V, j: K)
    requires k != j
    ensures m[k := v] - {j} == (m - {j})[k := v]
  {
  }

  /** `setField` to an empty target: only the source and the target change. */
  lemma RelocateLinks(links: Links, piece: Piece, tgt: int)
    requires links.Valid() && piece in links.location && tgt !in links.occupant
    ensures var src := links.location[piece];
      links.SetField(piece, tgt) == Links((links.occupant - {src})[tgt := piece], links.location[piece := tgt])
  {
  }

  /**
   * `setField` to an empty target followed by `remove` of whatever sits on
   * a third field: exactly that piece leaves the board.
   */
  lemma CaptureLinks(links: Links, piece: Piece, tgt: int, an: int)
    requires links.Valid() && piece in links.location && tgt !in links.occupant
    requires an in links.occupant && an != links.location[piece] && an != tgt
    ensures var src, q := links.location[piece], links.occupant[an];
      var moved := links.SetField(piece, tgt);
      && an in moved.occupant && moved.occupant[an] == q
      && var r := moved.Remove(q);
      && r.location == (links.location - {q})[piece := tgt]
      && r.occupant == (links.occupant - {src, an})[tgt := piece]
      && |r.location| == |links.location| - 1
  {
    var src, q := links.location[piece], links.occupant[an];
    RelocateLinks(links, piece, tgt);
    var moved := links.SetField(piece, tgt);
    assert q != piece;
    assert an in moved.occupant && moved.occupant[an] == q && moved.location[q] == an;
    var r := moved.Remove(q);
    assert r == Links(moved.occupant - {an}, moved.location - {q});
    UpdateThenRemove(links.location, piece, tgt, q);
    UpdateThenRemove(links.occupant - {src}, tgt, piece, an);
    assert links.occupant - {src} - {an} == links.occupant - {src, an};
    assert r.location.Keys == links.location.Keys - {q};
  }

  /** Applying a generated move leaves every piece on a field of the board. */
  lemma GeneratedMoveStaysOnBoard(rows: int, cols: int, links: Links, player: Color, piece: Piece, m: Move)
    requires cols > 0
    requires links.Valid()
    requires links.occupant.Keys <= BoardFields(rows, cols).Keys
    requires piece in links.location
    requires m in PossibleMoves(BoardFields(rows, cols), links.occupant, cols, player, links.location[piece])
    ensures CanApply(links, BoardFields(rows, cols), cols, piece, m)
    ensures ApplyMove(links, BoardFields(rows, cols), cols, piece, m).occupant.Keys <= BoardFields(rows, cols).Keys
  {
    GeneratedMoveApplicable(rows, cols, links, player, piece, m);
  }

  /**
   * A capture found from `fieldNum` jumps over the adjacent square of one
   * forward diagonal, which holds an opponent, onto the next square of it.
   */
  lemma CaptureShape(rows: int, cols: int, occupant: map<int, Piece>, player: Color, fieldNum: int, m: Move)
    requires cols > 0
    requires m in PossibleMoves(BoardFields(rows, cols), occupant, cols, player, fieldNum)
    requires m.attacking.Some?
    ensures var row, col, d := fieldNum / cols, JsRem(fieldNum, cols), Forward(player);
      var dc := m.attacking.value.col - col;
      && (dc == 1 || dc == -1)
      && m == Move(row + 2 * d, col + 2 * dc, Some(Coord(row + d, col + dc)))
      && OnBoard(rows, cols, row + d, col + dc)
      && Num(cols, row + d, col + dc) in occupant
      && occupant[Num(cols, row + d, col + dc)].color == Other(player)
  {
    var row, col, d := fieldNum / cols, JsRem(fieldNum, cols), Forward(player);
    PossibleMovesSound(rows, cols, occupant, player, fieldNum);
    assert ForwardShape(player, row, col, m);
    if m == Move(row + 2 * d, col + 2, Some(Coord(row + d, col + 1))) {
      CaptureMoveExactly(rows, cols, occupant, player, fieldNum, 1);
    } else {
      CaptureMoveExactly(rows, cols, occupant, player, fieldNum, -1);
    }
  }

  /**
   * The jumped square of a capture found for a placed piece is on the
   * board, holds an opponent, and is neither the source nor the target.
   */
  lemma CaptureJumpsOpponent(rows: int, cols: int, links: Links, player: Color, piece: Piece, m: Move)
    requires cols > 0
    requires links.Valid()
    requires links.occupant.Keys <= BoardFields(rows, cols).Keys
    requires piece in links.location
    requires m in PossibleMoves(BoardFields(rows, cols), links.occupant, cols, player, links.location[piece])
    requires m.attacking.Some?
    ensures var a := m.attacking.value;
      var src, tgt, an := links.location[piece], Num(cols, m.row, m.col), Num(cols, a.row, a.col);
      && OnBoard(rows, cols, a.row, a.col)
      && an in links.occupant && an != src && an != tgt
      && links.occupant[an].color == Other(player)
  {
    var src := links.location[piece];
    var row, col, d := src / cols, src % cols, Forward(player);
    FieldNumSquare(rows, cols, src);
    CaptureShape(rows, cols, links.occupant, player, src, m);
    var a := m.attacking.value;
    var an := Num(cols, a.row, a.col);
    if an == src {
      NumInjective(cols, row, col, a.row, a.col);
    }
    if an == Num(cols, m.row, m.col) {
      NumInjective(cols, m.row, m.col, a.row, a.col);
    }
  }

  /**
   * A move found for a placed piece can be applied: its target is an
   * on-board, empty field other than the source, and a capture's jumped
   * square holds an opponent and is neither the source nor the target.
   */
  lemma GeneratedMoveApplicable(rows: int, cols: int, links: Links, player: Color, piece: Piece, m: Move)
    requires cols > 0
    requires links.Valid()
    requires links.occupant.Keys <= BoardFields(rows, cols).Keys
    requires piece in links.location
    requires m in PossibleMoves(BoardFields(rows, cols), links.occupant, cols, player, links.location[piece])
    ensures CanApply(links, BoardFields(rows, cols), cols, piece, m)
    ensures var src, tgt := links.location[piece], Num(cols, m.row, m.col);
      && src != tgt && tgt !in links.occupant
      && GetField(BoardFields(rows, cols), cols, m.row, m.col).value.num == tgt
      && (m.attacking.Some? ==>
            var an := Num(cols, m.attacking.value.row, m.attacking.value.col);
            && GetField(BoardFields(rows, cols), cols, m.attacking.value.row, m.attacking.value.col).value.num == an
            && an in links.occupant && an != src && an != tgt
            && links.occupant[an].color == Other(player))
  {
    var src := links.location[piece];
    var tgt := Num(cols, m.row, m.col);
    var row, col, d := src / cols, src % cols, Forward(player);
    assert OnBoard(rows, cols, row, col) && src == Num(cols, row, col) by {
      FieldNumSquare(rows, cols, src);
    }
    assert OnBoard(rows, cols, m.row, m.col) && tgt !in links.occupant && ForwardShape(player, row, col, m) by {
      FieldNumSquare(rows, cols, src);
      PossibleMovesSound(rows, cols, links.occupant, player, src);
    }
    GetFieldOnBoard(rows, cols, m.row, m.col);
    if src == tgt {
      NumInjective(cols, row, col, m.row, m.col);
    }
    if m.attacking.Some? {
      var a := m.attacking.value;
      CaptureJumpsOpponent(rows, cols, links, player, piece, m);
      GetFieldOnBoard(rows, cols, a.row, a.col);
    }
  }

  /**
   * Applying a move found for a placed piece changes exactly what the
   * rules say: a simple move only vacates the source and fills the target;
   * a capture also removes exactly the opponent's piece on the jumped
   * square, so one piece fewer is on the board. No other field's
   * occupancy changes.
   */
  lemma ApplyGeneratedMove(rows: int, cols: int, links: Links, player: Color, piece: Piece, m: Move)
    requires cols > 0
    requires links.Valid()
    requires links.occupant.Keys <= BoardFields(rows, cols).Keys
    requires piece in links.location
    requires m in PossibleMoves(BoardFields(rows, cols), links.occupant, cols, player, links.location[piece])
    ensures CanApply(links, BoardFields(rows, cols), cols, piece, m)
    ensures var src, tgt := links.location[piece], Num(cols, m.row, m.col);
      var r := ApplyMove(links, BoardFields(rows, cols), cols, piece, m);
      && (m.attacking.None? ==>
            && r.location == links.location[piece := tgt]
            && r.occupant == (links.occupant - {src})[tgt := piece])
      && (m.attacking.Some? ==>
            var an := Num(cols, m.attacking.value.row, m.attacking.value.col);
            && an in links.occupant && links.occupant[an].color == Other(player)
            && r.location == (links.location - {links.occupant[an]})[piece := tgt]
            && r.occupant == (links.occupant - {src, an})[tgt := piece]
            && |r.location| == |links.location| - 1)
  {
    var tgt := Num(cols, m.row, m.col);
    GeneratedMoveApplicable(rows, cols, links, player, piece, m);
    RelocateLinks(links, piece, tgt);
    if m.attacking.Some? {
      var a := m.attacking.value;
      CaptureLinks(links, piece, tgt, Num(cols, a.row, a.col));
    }
  }
}

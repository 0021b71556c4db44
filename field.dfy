/**
 * The coordinate model of one board square (src/components/Field.js):
 * a field remembers its row and column, its linear index
 * `row * cols + col`, and whether it is a dark or a light square.
 */
module Field {

  /** The linear index under which the board stores the field at (row, col). */
  function Num(cols: int, row: int, col: int): int
  {
    row * cols + col
  }

  /** A field as the game sees it; the DOM element is not modelled. */
  datatype Field = Field(row: int, col: int, num: int, dark: bool)

  /**
   * The `Field` constructor: stores the arguments, computes the linear
   * index, and marks the square dark when `Boolean((row + col) % 2)` holds,
   * that is when the JavaScript remainder is non-zero.
   */
  function NewField(cols: int, row: int, col: int): (f: Field)
    ensures f.row == row && f.col == col
    ensures f.num == Num(cols, row, col)
    ensures f.dark <==> (row + col) % 2 == 1
  {
    Field(row, col, Num(cols, row, col), JsRem(row + col, 2) != 0)
  }

  /** A product with a factor of at least one is at least the other factor. */
  lemma MulAtLeast(k: int, cols: int)
    requires k >= 1 && cols > 0
    ensures k * cols >= cols
  {
  }

  /**
   * For an in-range column the linear index is inverted by division and
   * remainder: this is how the game recovers (row, col) from a field number.
   */
  lemma NumInverse(cols: int, row: int, col: int)
    requires 0 <= col < cols
    ensures Num(cols, row, col) / cols == row
    ensures Num(cols, row, col) % cols == col
  {
    var n := Num(cols, row, col);
    var q, r := n / cols, n % cols;
    assert q * cols + r == row * cols + col;
    assert (row - q) * cols == r - col;
    if row - q >= 1 {
      MulAtLeast(row - q, cols);
    } else if q - row >= 1 {
      MulAtLeast(q - row, cols);
    }
  }

  /**
   * JavaScript's `%`, which truncates toward zero: on a negative dividend
   * with a non-zero Euclidean remainder it is that remainder minus `b`.
   */
  function JsRem(a: int, b: int): (r: int)
    requires b > 0
    ensures r == if a >= 0 || a % b == 0 then a % b else a % b - b
  {
    if a >= 0 then a % b
    else
      NegatedRem(a, b);
      -((-a) % b)
  }

  /** The Euclidean remainder of `-a` in terms of that of `a`. */
  lemma NegatedRem(a: int, b: int)
    requires b > 0
    ensures (-a) % b == if a % b == 0 then 0 else b - a % b
  {
    var q, m := a / b, a % b;
    assert a == q * b + m;
    if m == 0 {
      assert Num(b, -q, 0) == -a by {
        assert (-q) * b == -(q * b);
      }
      NumInverse(b, -q, 0);
    } else {
      assert Num(b, -q - 1, b - m) == -a by {
        assert (-q - 1) * b == -(q * b) - b;
      }
      NumInverse(b, -q - 1, b - m);
    }
  }

  /** Every integer is the linear index of its quotient and remainder. */
  lemma NumOfIndex(cols: int, n: int)
    requires cols > 0
    ensures 0 <= n % cols < cols
    ensures Num(cols, n / cols, n % cols) == n
  {
  }

  /** Two in-range coordinates with the same linear index are the same coordinate. */
  lemma NumInjective(cols: int, r1: int, c1: int, r2: int, c2: int)
    requires 0 <= c1 < cols && 0 <= c2 < cols
    requires Num(cols, r1, c1) == Num(cols, r2, c2)
    ensures r1 == r2 && c1 == c2
  {
    NumInverse(cols, r1, c1);
    NumInverse(cols, r2, c2);
  }

  /**
   * For an in-range column, the linear index lies in `0 .. rows*cols-1`
   * exactly when the row is in `0 .. rows-1`.
   */
  lemma NumInRange(rows: int, cols: int, row: int, col: int)
    requires 0 <= col < cols
    ensures 0 <= Num(cols, row, col) < rows * cols <==> 0 <= row < rows
  {
    var n := Num(cols, row, col);
    NumInverse(cols, row, col);
    if 0 <= row < rows {
      MulAtLeast(rows - row, cols);
      assert rows * cols - row * cols == (rows - row) * cols;
      assert row * cols >= 0 by {
        if row > 0 { MulAtLeast(row, cols); }
      }
    } else if row < 0 {
      MulAtLeast(-row, cols);
      assert row * cols == -((-row) * cols);
    } else {
      MulAtLeast(row - rows + 1, cols);
      assert (row - rows + 1) * cols == row * cols - rows * cols + cols;
    }
  }
}

/**
 * The board dimensions of the game: a (columns, rows) pair with row-major
 * cell numbering. Sizes are `usize` in the program; here they are unbounded
 * naturals (overflow of `columns * rows` is not modelled).
 */
module GridSizes {

  datatype GridSize = GridSize(cols: nat, rows: nat) {

    /** `GridSize::new(cols, rows)`: reading the size back gives the arguments. */
    static function New(cols: nat, rows: nat): (s: GridSize)
      ensures s.Columns() == cols && s.Rows() == rows
    {
      GridSize(cols, rows)
    }

    function Columns(): nat { cols }

    function Rows(): nat { rows }

    /** Number of cells on a board of this size: none exactly when a dimension is zero. */
    function Capacity(): (n: nat)
      ensures n == 0 <==> cols == 0 || rows == 0
    {
      cols * rows
    }

    /**
     * Row-major slot number of cell (col, row): the cells of one row take
     * the `cols` consecutive slots starting at `row * cols`.
     */
    function IndexOf(col: nat, row: nat): (i: nat)
      ensures row * cols <= i
      ensures col < cols ==> i < (row + 1) * cols
    {
      col + row * cols
    }

    /** The cell whose slot number is `i`: the inverse of `IndexOf`. */
    function CellOf(i: nat): (cell: (nat, nat))
      requires cols > 0
      ensures cell.0 < cols
    {
      (i % cols, i / cols)
    }
  }

  /** Every in-range cell has a slot number below the capacity. */
  lemma IndexOfInRange(s: GridSize, col: nat, row: nat)
    requires col < s.Columns() && row < s.Rows()
    ensures s.IndexOf(col, row) < s.Capacity()
  {
    var c := s.Columns();
    assert row * c <= (s.Rows() - 1) * c by {
      MulLeq(row, s.Rows() - 1, c);
    }
    assert (s.Rows() - 1) * c == s.Rows() * c - c;
  }

  lemma MulLeq(a: nat, b: nat, c: nat)
    requires a <= b
    ensures a * c <= b * c
  {
    assert b * c == a * c + (b - a) * c;
  }

  /** Slot numbering is the inverse of `CellOf` on in-range cells ... */
  lemma CellOfIndexOf(s: GridSize, col: nat, row: nat)
    requires col < s.Columns()
    ensures s.CellOf(s.IndexOf(col, row)) == (col, row)
  {
    var c := s.Columns();
    var i := s.IndexOf(col, row);
    DivModUnique(i, c, row, col);
  }

  /** ... and `CellOf` maps every slot below the capacity back to an in-range cell. */
  lemma IndexOfCellOf(s: GridSize, i: nat)
    requires i < s.Capacity()
    ensures s.Columns() > 0
    ensures s.CellOf(i).0 < s.Columns() && s.CellOf(i).1 < s.Rows()
    ensures s.IndexOf(s.CellOf(i).0, s.CellOf(i).1) == i
  {
    var c := s.Columns();
    assert c > 0;
    var q, r := i / c, i % c;
    assert i == r + q * c;
    if q >= s.Rows() {
      MulLeq(s.Rows(), q, c);
      assert false;
    }
  }

  /** Distinct in-range cells have distinct slot numbers. */
  lemma IndexOfInjective(s: GridSize, c1: nat, r1: nat, c2: nat, r2: nat)
    requires c1 < s.Columns() && c2 < s.Columns()
    requires s.IndexOf(c1, r1) == s.IndexOf(c2, r2)
    ensures c1 == c2 && r1 == r2
  {
    CellOfIndexOf(s, c1, r1);
    CellOfIndexOf(s, c2, r2);
  }

  /** Euclidean division of `col + row * c` by `c` gives back `row` and `col`. */
  lemma DivModUnique(n: nat, c: nat, q: nat, r: nat)
    requires r < c && n == r + q * c
    ensures n / c == q && n % c == r
  {
    var q', r' := n / c, n % c;
    assert n == r' + q' * c;
    if q' < q {
      MulLeq(q' + 1, q, c);
      assert false;
    } else if q < q' {
      MulLeq(q + 1, q', c);
      assert false;
    }
  }
}

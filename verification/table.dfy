/**
 The sample-by-retention-time matrix the pipeline passes between its steps:
 rows are sample names, columns are retention times rounded to hundredths of
 a minute, and every (sample, retention time) cell holds an area.
 */
module Table {
  import opened Order
  import opened Sums

  /** A sample name, the row label. */
  type Sample = string

  /** A retention time in hundredths of a minute (3.25 min is 325), the column label. */
  type Rt = int

  datatype Matrix = Matrix(rows: seq<Sample>, cols: seq<Rt>, cell: map<(Sample, Rt), real>) {

    /** The value of a cell; zero outside the matrix. */
    function At(s: Sample, c: Rt): real {
      if (s, c) in cell then cell[(s, c)] else 0.0
    }

    /** The values of one row, as a function of the column. */
    function Row(s: Sample): Rt -> real {
      c => At(s, c)
    }
  }

  /**
   A well-formed matrix: distinct rows, columns strictly ascending by
   retention time, and a value in exactly the cells of rows times columns.
   */
  ghost predicate Valid(m: Matrix) {
    && Distinct(m.rows)
    && StrictlySorted(m.cols, RtLess)
    && (forall k :: k in m.cell ==> k.0 in m.rows && k.1 in m.cols)
    && (forall s, c :: s in m.rows && c in m.cols ==> (s, c) in m.cell)
  }

  /** The cells of a grid, indexed by row and column labels. */
  function Grid(rows: seq<Sample>, cols: seq<Rt>): (g: set<(Sample, Rt)>)
    ensures forall k :: k in g <==> k.0 in rows && k.1 in cols
  {
    var g := set s, c | s in rows && c in cols :: (s, c);
    forall k: (Sample, Rt) | k.0 in rows && k.1 in cols ensures k in g {
      var (s, c) := k;
      assert (s, c) in g;
    }
    g
  }

  /** The sum of a row over the given columns. */
  function RowTotal(m: Matrix, s: Sample, cols: seq<Rt>): real {
    SumOver(cols, m.Row(s))
  }
}

/** get_design_matrix: the per-interferogram design matrix, filled column by
    column into a freshly allocated array (exact reals stand for float32). */
module DesignMatrix {
  import opened Wrappers
  import opened Raster
  import opened OrbitalModel

  /** Builds the design matrix of `ifg`: one row per cell in row-major order,
      the polynomial terms of the cell's (x, y) distances, then a column of ones
      when `offset` is set. Raises InvalidDegree for an unknown degree. */
  method GetDesignMatrix(ifg: Interferogram, degree: Degree, offset: bool)
    returns (r: Result<array2<real>, OrbitalError>)
    ensures r.Failure? <==> !degree.IsKnown()
    ensures r.Failure? ==> r.error == InvalidDegree
    ensures r.Success? ==> fresh(r.value)
    ensures r.Success? ==> r.value.Length0 == ifg.NumCells()
                           && r.value.Length1 == GetNumParams(degree, offset).value
    ensures r.Success? ==> Rows(r.value) == DesignRows(ifg.Geometry(), degree, offset)
  {
    if !degree.IsKnown() {
      return Failure(InvalidDegree);
    }
    var ncells := ifg.NumCells();
    var nparams := GetNumParams(degree, offset).value;
    var data := new real[ncells, nparams];
    ghost var g := ifg.Geometry();
    assert ncells == g.NumCells();
    var k := 0;
    while k < ncells
      invariant 0 <= k <= ncells
      invariant forall k', j :: 0 <= k' < k && 0 <= j < nparams ==>
        data[k', j] == DesignRow(degree, offset, g.X(k'), g.Y(k'))[j]
    {
      var x := (k % ifg.NCols()) as real * ifg.xSize;
      var y := (k / ifg.NCols()) as real * ifg.ySize;
      assert x == g.X(k) && y == g.Y(k);
      FillRow(data, k, degree, offset, x, y);
      k := k + 1;
    }
    RowsFromCells(data, DesignRows(g, degree, offset));
    return Success(data);
  }

  /** Writes the terms of the pixel at (x, y) into row k, as the column
      assignments of the source do for every row at once. */
  method FillRow(data: array2<real>, k: nat, degree: Degree, offset: bool, x: real, y: real)
    requires degree.IsKnown() && k < data.Length0
    requires data.Length1 == GetNumParams(degree, offset).value
    modifies data
    ensures forall j :: 0 <= j < data.Length1 ==> data[k, j] == DesignRow(degree, offset, x, y)[j]
    ensures forall k', j :: 0 <= k' < data.Length0 && k' != k && 0 <= j < data.Length1 ==>
      data[k', j] == old(data[k', j])
  {
    if degree == Planar {
      data[k, 0] := x;
      data[k, 1] := y;
    } else if degree == Quadratic {
      data[k, 0] := x * x;
      data[k, 1] := y * y;
      data[k, 2] := x * y;
      data[k, 3] := x;
      data[k, 4] := y;
    } else {
      data[k, 0] := x * (y * y);
      data[k, 1] := x * x;
      data[k, 2] := y * y;
      data[k, 3] := x * y;
      data[k, 4] := x;
      data[k, 5] := y;
    }
    if offset {
      data[k, data.Length1 - 1] := 1.0;
    }
  }

  /** Cell (row, col) of the grid is design-matrix row row * ncols + col, with
      x = col * x_size and y = row * y_size. */
  lemma DesignRowOfCell(g: Grid, degree: Degree, offset: bool, row: nat, col: nat)
    requires degree.IsKnown() && row < g.nrows && col < g.ncols
    ensures row * g.ncols + col < g.NumCells()
    ensures DesignRows(g, degree, offset)[row * g.ncols + col]
         == DesignRow(degree, offset, col as real * g.xSize, row as real * g.ySize)
  {
    RowMajorBound(row, col, g.nrows, g.ncols);
    RowMajorJoin(row, col, g.ncols);
    var k := row * g.ncols + col;
    assert g.X(k) == col as real * g.xSize;
    assert g.Y(k) == row as real * g.ySize;
  }

  /** The last column is all ones exactly when the offset is modelled (on any
      grid with a cell: cell 0 has y = 0 in the last polynomial column). */
  lemma LastColumnOnesIffOffset(g: Grid, degree: Degree, offset: bool)
    requires degree.IsKnown() && g.NumCells() > 0
    ensures var rows := DesignRows(g, degree, offset);
      (forall k :: 0 <= k < |rows| ==> rows[k][|rows[k]| - 1] == 1.0) <==> offset
  {
    var rows := DesignRows(g, degree, offset);
    if !offset {
      assert g.Y(0) == 0.0;
      assert rows[0][|rows[0]| - 1] == 0.0;
    }
  }

  /** The polynomial columns do not depend on the offset flag: the offset only
      appends a column. */
  lemma PolynomialColumnsIgnoreOffset(g: Grid, degree: Degree, k: nat)
    requires degree.IsKnown() && k < g.NumCells()
    ensures var n := GetNumParams(degree, false).value;
      DesignRows(g, degree, true)[k][..n] == DesignRows(g, degree, false)[k]
      && DesignRows(g, degree, true)[k][n] == 1.0
  {
  }
}

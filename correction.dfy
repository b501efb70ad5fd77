/** The correction steps of pyrate/orbital.py that both methods share (NaN
    masking of the least-squares system, the forward model, the in-place
    subtraction) and the independent method built from them. A solver is a
    parameter: the model states what happens to the phase for whatever
    coefficients it returns. */
module Correction {
  import opened Wrappers
  import opened Vectors
  import opened Raster
  import opened Masking
  import opened OrbitalModel
  import opened DesignMatrix

  /** No two interferograms share a phase raster, so correcting one leaves
      the others as they were. */
  ghost predicate DistinctPhases(ifgs: seq<Interferogram>)
  {
    forall i, j :: 0 <= i < j < |ifgs| ==> ifgs[i].phase != ifgs[j].phase
  }

  /** A matrix handed to a solver: its rows and its column count. */
  datatype Matrix = Matrix(rows: seq<seq<real>>, ncols: nat)

  /** A linear solver (scipy's `lstsq`, or numpy's `pinv` followed by `dot`):
      whatever coefficients it settles on, it returns one per column. */
  type Solver = f: (Matrix, seq<real>) -> seq<real> | forall a: Matrix, b: seq<real> :: |f(a, b)| == a.ncols
    witness (a: Matrix, b: seq<real>) => Zeros(a.ncols)

  /** `dm[~isnan(v)]` and `v[~isnan(v)]`: one mask, taken from the phase
      vector, keeps the same rows of the matrix and entries of the vector. */
  function MaskedSystem(rows: seq<seq<real>>, ncols: nat, v: seq<Option<real>>): (sys: (Matrix, seq<real>))
    requires |rows| == |v|
    ensures sys.0.ncols == ncols
    ensures |sys.0.rows| == |sys.1| == |ValidIndices(v)|
    ensures forall j :: 0 <= j < |sys.1| ==>
      sys.0.rows[j] == rows[ValidIndices(v)[j]] && v[ValidIndices(v)[j]] == Some(sys.1[j])
  {
    (Matrix(KeepValid(rows, v), ncols), ValidValues(v))
  }

  /** `dot(dm, model)`: the modelled surface at every cell. */
  function Forward(rows: seq<seq<real>>, c: seq<real>): (orb: seq<real>)
    requires forall k :: 0 <= k < |rows| ==> |rows[k]| == |c|
    ensures |orb| == |rows|
  {
    seq(|rows|, k requires 0 <= k < |rows| => Dot(rows[k], c))
  }

  /** A float vector that holds no NaN. */
  function Known(xs: seq<real>): (v: seq<Option<real>>)
    ensures |v| == |xs|
  {
    seq(|xs|, k requires 0 <= k < |xs| => Some(xs[k]))
  }

  /** `phase - c` for one cell: NaN on either side gives NaN. */
  function SubtractCell(p: Option<real>, c: Option<real>): Option<real>
  {
    if p.Some? && c.Some? then Some(p.value - c.value) else None
  }

  /** `phase -= corr`, cell by cell, on the flattened raster. */
  function Subtract(v: seq<Option<real>>, corr: seq<Option<real>>): (w: seq<Option<real>>)
    requires |v| == |corr|
    ensures |w| == |v|
  {
    seq(|v|, k requires 0 <= k < |v| => SubtractCell(v[k], corr[k]))
  }

  /** Subtracting a NaN-free correction keeps every NaN a NaN, creates none,
      and moves every other cell by exactly its correction. */
  lemma SubtractKnown(v: seq<Option<real>>, corr: seq<real>, k: nat)
    requires |v| == |corr| && k < |v|
    ensures Subtract(v, Known(corr))[k].Some? <==> v[k].Some?
    ensures v[k].Some? ==> Subtract(v, Known(corr))[k].value == v[k].value - corr[k]
  {
  }

  /** The NaN mask survives a NaN-free correction: the next masking step keeps
      the same cells. */
  lemma {:induction false} SubtractKeepsMask(v: seq<Option<real>>, corr: seq<real>)
    requires |v| == |corr|
    ensures ValidIndices(Subtract(v, Known(corr))) == ValidIndices(v)
    decreases |v|
  {
    if v != [] {
      var n := |v| - 1;
      assert Subtract(v, Known(corr))[..n] == Subtract(v[..n], Known(corr[..n]));
      SubtractKeepsMask(v[..n], corr[..n]);
    }
  }

  /** Two corrections in a row are one correction by their sum: correcting
      a raster a second time removes the surface again rather than leaving
      it as it was, which is why a run skips datasets already flagged. */
  lemma SubtractTwice(v: seq<Option<real>>, a: seq<real>, b: seq<real>)
    requires |v| == |a| == |b|
    ensures Subtract(Subtract(v, Known(a)), Known(b)) == Subtract(v, Known(Add(a, b)))
  {
    var lhs, rhs := Subtract(Subtract(v, Known(a)), Known(b)), Subtract(v, Known(Add(a, b)));
    forall k | 0 <= k < |v|
      ensures lhs[k] == rhs[k]
    {
      if v[k].Some? {
        assert lhs[k].value == v[k].value - a[k] - b[k];
      }
    }
  }

  /** `a[r, :] -= row` in place. */
  method SubtractRow(a: array2<Option<real>>, r: nat, row: seq<Option<real>>)
    requires r < a.Length0 && |row| == a.Length1
    modifies a
    ensures forall i, j :: 0 <= i < a.Length0 && 0 <= j < a.Length1 ==>
      a[i, j] == if i == r then SubtractCell(old(a[i, j]), row[j]) else old(a[i, j])
  {
    for c := 0 to a.Length1
      invariant forall i, j :: 0 <= i < a.Length0 && 0 <= j < a.Length1 ==>
        a[i, j] == if i == r && j < c then SubtractCell(old(a[i, j]), row[j]) else old(a[i, j])
    {
      a[r, c] := SubtractCell(a[r, c], row[c]);
    }
  }

  /** `a -= corr` in place on a 2-D raster, `corr` in row-major order. */
  method SubtractInPlace(a: array2<Option<real>>, corr: seq<Option<real>>)
    requires |corr| == a.Length0 * a.Length1
    modifies a
    ensures Flatten(a) == Subtract(old(Flatten(a)), corr)
  {
    ghost var before := Flatten(a);
    var rows := Chunks(corr, a.Length0, a.Length1);
    for r := 0 to a.Length0
      invariant forall i, j :: 0 <= i < a.Length0 && 0 <= j < a.Length1 ==>
        a[i, j] == if i < r then SubtractCell(old(a[i, j]), rows[i][j]) else old(a[i, j])
    {
      SubtractRow(a, r, rows[r]);
    }
    forall k | 0 <= k < a.Length0 * a.Length1
      ensures Flatten(a)[k] == Subtract(before, corr)[k]
    {
      RowMajorSplit(k, a.Length0, a.Length1);
      FlattenAt(a, k / a.Length1, k % a.Length1);
      ChunkAt(corr, a.Length0, a.Length1, k / a.Length1);
    }
  }

  /** The coefficients the independent method fits to one interferogram:
      the solver applied to its design matrix and phase, NaN rows masked. */
  function IndependentFit(v: seq<Option<real>>, g: Grid, degree: Degree, offset: bool, lstsq: Solver): (c: seq<real>)
    requires degree.IsKnown() && |v| == g.NumCells()
    ensures |c| == GetNumParams(degree, offset).value
  {
    var sys := MaskedSystem(DesignRows(g, degree, offset), GetNumParams(degree, offset).value, v);
    lstsq(sys.0, sys.1)
  }

  /** The phase the independent method leaves: the fitted surface, evaluated
      at every cell, subtracted from the phase. */
  function IndependentCorrected(v: seq<Option<real>>, g: Grid, degree: Degree, offset: bool, lstsq: Solver)
    : (w: seq<Option<real>>)
    requires degree.IsKnown() && |v| == g.NumCells()
    ensures |w| == |v|
  {
    Subtract(v, Known(Forward(DesignRows(g, degree, offset), IndependentFit(v, g, degree, offset, lstsq))))
  }

  /** _independent_correction: after it, pixel (row, col) has lost the fitted
      polynomial at x = col * x_size, y = row * y_size, plus the fitted
      constant when offsets are on; NaN pixels stay NaN. */
  lemma IndependentCorrectionRemovesSurface(v: seq<Option<real>>, g: Grid, degree: Degree, offset: bool,
                                            lstsq: Solver, row: nat, col: nat)
    requires degree.IsKnown() && |v| == g.NumCells() && row < g.nrows && col < g.ncols
    ensures row * g.ncols + col < |v|
    ensures var k, c, n := row * g.ncols + col, IndependentFit(v, g, degree, offset, lstsq),
                           GetNumParams(degree, false).value;
      && (IndependentCorrected(v, g, degree, offset, lstsq)[k].Some? <==> v[k].Some?)
      && (v[k].Some? ==>
            IndependentCorrected(v, g, degree, offset, lstsq)[k].value
            == v[k].value - (Polynomial(degree, c[..n], col as real * g.xSize, row as real * g.ySize)
                             + (if offset then c[n] else 0.0)))
  {
    var k, c := row * g.ncols + col, IndependentFit(v, g, degree, offset, lstsq);
    var x, y := col as real * g.xSize, row as real * g.ySize;
    DesignRowOfCell(g, degree, offset, row, col);
    DesignRowEvaluatesPolynomial(degree, offset, x, y, c);
    SubtractKnown(v, Forward(DesignRows(g, degree, offset), c), k);
  }

  /** The independent method does not change which pixels are NaN. */
  lemma IndependentCorrectionKeepsMask(v: seq<Option<real>>, g: Grid, degree: Degree, offset: bool, lstsq: Solver)
    requires degree.IsKnown() && |v| == g.NumCells()
    ensures ValidIndices(IndependentCorrected(v, g, degree, offset, lstsq)) == ValidIndices(v)
  {
    SubtractKeepsMask(v, Forward(DesignRows(g, degree, offset), IndependentFit(v, g, degree, offset, lstsq)));
  }

  /** _independent_correction: fit the surface to the interferogram's non-NaN
      pixels and subtract it, in place, from every pixel. */
  method IndependentCorrection(ifg: Interferogram, degree: Degree, offset: bool, lstsq: Solver)
    returns (r: Outcome<OrbitalError>)
    modifies ifg.phase
    ensures r.Fail? <==> !degree.IsKnown()
    ensures r.Fail? ==> r.error == InvalidDegree && Flatten(ifg.phase) == old(Flatten(ifg.phase))
    ensures r.Pass? ==>
      Flatten(ifg.phase) == IndependentCorrected(old(Flatten(ifg.phase)), ifg.Geometry(), degree, offset, lstsq)
  {
    var vphase := Flatten(ifg.phase);
    var dm := GetDesignMatrix(ifg, degree, offset);
    if dm.Failure? {
      return Fail(dm.error);
    }
    var sys := MaskedSystem(Rows(dm.value), dm.value.Length1, vphase);
    var model := lstsq(sys.0, sys.1);
    var correction := Forward(Rows(dm.value), model);
    SubtractInPlace(ifg.phase, Known(correction));
    return Pass;
  }
}

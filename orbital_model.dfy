/** The entities of pyrate/orbital.py: the degree and method selectors, the
    orbital-error conditions, an interferogram's pixel grid, the interferogram
    itself, the parameter count and the polynomial basis of one pixel. */
module OrbitalModel {
  import opened Wrappers
  import opened Vectors

  /** An acquisition date, as a day number. */
  type Epoch = int

  /** PLANAR, QUADRATIC, PART_CUBIC, or any other value a caller may pass. */
  datatype Degree = Planar | Quadratic | PartCubic | OtherDegree(name: string) {
    predicate IsKnown() { !OtherDegree? }
  }

  /** INDEPENDENT_METHOD, NETWORK_METHOD, or any other value a caller may pass. */
  datatype Method = IndependentMethod | NetworkMethod | OtherMethod(name: string)

  /** The conditions the core raises. All are OrbitalError in the source except
      EmptyStack, the ValueError numpy raises when asked to stack no rasters. */
  datatype OrbitalError =
    | InvalidDegree
    | UnknownMethod
    | MismatchedLookCount
    | MismatchedLookTypes
    | InvalidIfgCount
    | MixedCorrection
    | EmptyStack

  /** The pixel geometry of an interferogram: its shape and cell sizes. */
  datatype Grid = Grid(nrows: nat, ncols: nat, xSize: real, ySize: real) {
    function NumCells(): nat { nrows * ncols }

    /** The x distance of flat cell k: its column times the cell width. */
    function X(k: nat): real
      requires k < NumCells()
    {
      (k % ncols) as real * xSize
    }

    /** The y distance of flat cell k: its row times the cell height. */
    function Y(k: nat): real
      requires k < NumCells()
    {
      (k / ncols) as real * ySize
    }
  }

  /** An interferogram: a phase raster (None for NaN) corrected in place, its
      cell sizes, its two epochs and the ORBITAL_ERROR metadata item of its dataset. */
  class Interferogram {
    const phase: array2<Option<real>>
    const xSize: real
    const ySize: real
    const master: Epoch
    const slave: Epoch
    var orbitalFlag: Option<string>

    constructor (phase: array2<Option<real>>, xSize: real, ySize: real,
                 master: Epoch, slave: Epoch, orbitalFlag: Option<string>)
      ensures this.phase == phase && this.xSize == xSize && this.ySize == ySize
      ensures this.master == master && this.slave == slave && this.orbitalFlag == orbitalFlag
    {
      this.phase := phase;
      this.xSize := xSize;
      this.ySize := ySize;
      this.master := master;
      this.slave := slave;
      this.orbitalFlag := orbitalFlag;
    }

    function NRows(): nat { phase.Length0 }

    function NCols(): nat { phase.Length1 }

    function NumCells(): nat { NRows() * NCols() }

    function Geometry(): Grid { Grid(NRows(), NCols(), xSize, ySize) }
  }

  /** The polynomial terms of one pixel at distance (x, y), in column order. */
  function Basis(degree: Degree, x: real, y: real): (terms: seq<real>)
    requires degree.IsKnown()
  {
    match degree
    case Planar => [x, y]
    case Quadratic => [x * x, y * y, x * y, x, y]
    case PartCubic => [x * (y * y), x * x, y * y, x * y, x, y]
  }

  /** get_num_params: the number of model parameters of a degree, plus one for the offset. */
  function GetNumParams(degree: Degree, offset: bool): (r: Result<nat, OrbitalError>)
    ensures r.Failure? <==> !degree.IsKnown()
    ensures r.Failure? ==> r.error == InvalidDegree
    ensures degree == Planar ==> r == Success(if offset then 3 else 2)
    ensures degree == Quadratic ==> r == Success(if offset then 6 else 5)
    ensures degree == PartCubic ==> r == Success(if offset then 7 else 6)
    ensures r.Success? ==> r.value == |Basis(degree, 0.0, 0.0)| + (if offset then 1 else 0)
  {
    if !degree.IsKnown() then Failure(InvalidDegree)
    else
      var nparams := match degree
        case Planar => 2
        case Quadratic => 5
        case PartCubic => 6;
      Success(if offset then nparams + 1 else nparams)
  }

  /** One design-matrix row: the polynomial terms, then a 1 when the offset is modelled. */
  function DesignRow(degree: Degree, offset: bool, x: real, y: real): (row: seq<real>)
    requires degree.IsKnown()
    ensures |row| == GetNumParams(degree, offset).value
  {
    Basis(degree, x, y) + (if offset then [1.0] else [])
  }

  /** The design matrix of a grid: one row per cell, in row-major order. */
  function DesignRows(g: Grid, degree: Degree, offset: bool): (rows: seq<seq<real>>)
    requires degree.IsKnown()
    ensures |rows| == g.NumCells()
    ensures forall k :: 0 <= k < |rows| ==> |rows[k]| == GetNumParams(degree, offset).value
  {
    seq(g.NumCells(), k requires 0 <= k < g.NumCells() => DesignRow(degree, offset, g.X(k), g.Y(k)))
  }

  /** The orbital surface a coefficient vector describes, written out term
      by term: each monomial of the degree times its coefficient. */
  function Polynomial(degree: Degree, c: seq<real>, x: real, y: real): real
    requires degree.IsKnown() && |c| == GetNumParams(degree, false).value
  {
    match degree
    case Planar => x * c[0] + y * c[1]
    case Quadratic => (x * x) * c[0] + (y * y) * c[1] + (x * y) * c[2] + x * c[3] + y * c[4]
    case PartCubic => (x * (y * y)) * c[0] + (x * x) * c[1] + (y * y) * c[2] + (x * y) * c[3] + x * c[4] + y * c[5]
  }

  /** A design row times a coefficient vector is the polynomial at that pixel,
      plus the constant coefficient when the offset column is present. */
  lemma DesignRowEvaluatesPolynomial(degree: Degree, offset: bool, x: real, y: real, c: seq<real>)
    requires degree.IsKnown() && |c| == GetNumParams(degree, offset).value
    ensures var n := GetNumParams(degree, false).value;
      Dot(DesignRow(degree, offset, x, y), c)
        == Polynomial(degree, c[..n], x, y) + (if offset then c[n] else 0.0)
  {
    var n := GetNumParams(degree, false).value;
    var b := Basis(degree, x, y);
    BasisEvaluatesPolynomial(degree, x, y, c[..n]);
    if offset {
      assert DesignRow(degree, offset, x, y) == b + [1.0];
      assert c == c[..n] + [c[n]];
      DotAppend(b, [1.0], c[..n], [c[n]]);
    } else {
      assert DesignRow(degree, offset, x, y) == b;
      assert c == c[..n];
    }
  }

  /** The polynomial terms times a coefficient vector is the polynomial. */
  lemma BasisEvaluatesPolynomial(degree: Degree, x: real, y: real, c: seq<real>)
    requires degree.IsKnown() && |c| == GetNumParams(degree, false).value
    ensures Dot(Basis(degree, x, y), c) == Polynomial(degree, c, x, y)
  {
    match degree
    case Planar =>
      DotTwo(x, y, c);
    case Quadratic =>
      DotFive(x * x, y * y, x * y, x, y, c);
      QuadraticAsCombination(x, y, c);
    case PartCubic =>
      DotSix(x * (y * y), x * x, y * y, x * y, x, y, c);
      PartCubicAsCombination(x, y, c);
  }

  /** Five terms weighted by five coefficients. */
  function Combination5(m0: real, m1: real, m2: real, m3: real, m4: real, c: seq<real>): real
    requires |c| == 5
  {
    m0 * c[0] + m1 * c[1] + m2 * c[2] + m3 * c[3] + m4 * c[4]
  }

  /** Six terms weighted by six coefficients. */
  function Combination6(m0: real, m1: real, m2: real, m3: real, m4: real, m5: real, c: seq<real>): real
    requires |c| == 6
  {
    m0 * c[0] + Combination5(m1, m2, m3, m4, m5, c[1..])
  }

  lemma QuadraticAsCombination(x: real, y: real, c: seq<real>)
    requires |c| == 5
    ensures Polynomial(Quadratic, c, x, y) == Combination5(x * x, y * y, x * y, x, y, c)
  {
  }

  lemma PartCubicAsCombination(x: real, y: real, c: seq<real>)
    requires |c| == 6
    ensures Polynomial(PartCubic, c, x, y) == Combination6(x * (y * y), x * x, y * y, x * y, x, y, c)
  {
  }

  lemma DotTwo(a0: real, a1: real, c: seq<real>)
    requires |c| == 2
    ensures Dot([a0, a1], c) == a0 * c[0] + a1 * c[1]
  {
    assert [a0, a1][1..] == [a1];
    assert Dot([a1], c[1..]) == a1 * c[1] + Dot([], c[2..]) by {
      assert [a1][1..] == [];
      assert c[1..][1..] == c[2..];
    }
  }

  lemma DotFive(a0: real, a1: real, a2: real, a3: real, a4: real, c: seq<real>)
    requires |c| == 5
    ensures Dot([a0, a1, a2, a3, a4], c) == Combination5(a0, a1, a2, a3, a4, c)
  {
    var u := [a0, a1, a2, a3, a4];
    assert u[0..] == u && c[0..] == c;
    DotStep(u, c, 0);
    DotStep(u, c, 1);
    DotStep(u, c, 2);
    assert u[3..] == [a3, a4];
    DotTwo(a3, a4, c[3..]);
  }

  lemma DotSix(a0: real, a1: real, a2: real, a3: real, a4: real, a5: real, c: seq<real>)
    requires |c| == 6
    ensures Dot([a0, a1, a2, a3, a4, a5], c) == Combination6(a0, a1, a2, a3, a4, a5, c)
  {
    var u := [a0, a1, a2, a3, a4, a5];
    assert u[0..] == u && c[0..] == c;
    DotStep(u, c, 0);
    assert u[1..] == [a1, a2, a3, a4, a5];
    DotFive(a1, a2, a3, a4, a5, c[1..]);
  }

  lemma DotStep(u: seq<real>, v: seq<real>, i: nat)
    requires i < |u| == |v|
    ensures Dot(u[i..], v[i..]) == u[i] * v[i] + Dot(u[i + 1..], v[i + 1..])
  {
    assert u[i..][1..] == u[i + 1..];
    assert v[i..][1..] == v[i + 1..];
  }
}

/** _network_correction of pyrate/orbital.py: one joint inversion over all
    interferograms (or their multilooked copies), split into per-epoch
    coefficient blocks; each interferogram then loses the difference of its
    two epochs' surfaces and, with offsets, the median of what remains. */
module NetworkCorrection {
  import opened Wrappers
  import opened Vectors
  import opened Raster
  import opened Masking
  import opened OrbitalModel
  import opened DesignMatrix
  import opened NetworkMatrix
  import opened Correction

  /** `vstack` of the flattened phases: cell k of interferogram i at i * ncells + k. */
  function Stack(src: seq<Interferogram>): (v: seq<Option<real>>)
    requires SameShape(src)
    reads set i | 0 <= i < |src| :: src[i].phase
    ensures |v| == |src| * CellCount(src)
  {
    seq(|src| * CellCount(src), j requires 0 <= j < |src| * CellCount(src)
                                   reads set i | 0 <= i < |src| :: src[i].phase =>
      StackEntry(src, j))
  }

  function CellCount(src: seq<Interferogram>): nat
  {
    if src == [] then 0 else src[0].NumCells()
  }

  function StackEntry(src: seq<Interferogram>, j: nat): Option<real>
    requires SameShape(src) && j < |src| * CellCount(src)
    reads set i | 0 <= i < |src| :: src[i].phase
  {
    RowMajorSplit(j, |src|, CellCount(src));
    Flatten(src[j / CellCount(src)].phase)[j % CellCount(src)]
  }

  /** Entry i * ncells + k of the stack is cell k of interferogram i. */
  lemma StackAt(src: seq<Interferogram>, i: nat, k: nat)
    requires SameShape(src) && i < |src| && k < CellCount(src)
    ensures i * CellCount(src) + k < |Stack(src)|
    ensures Stack(src)[i * CellCount(src) + k] == Flatten(src[i].phase)[k]
  {
    RowMajorBound(i, k, |src|, CellCount(src));
    RowMajorJoin(i, k, CellCount(src));
  }

  /** What _network_correction takes for granted of its arguments: the
      multilooked set (or `ifgs` itself) pairs up with `ifgs`, each set shares
      one raster shape, and `ids` numbers the epochs both sets share. */
  ghost predicate NetworkInputs(ifgs: seq<Interferogram>, src: seq<Interferogram>, ids: map<Epoch, nat>)
  {
    && |src| == |ifgs|
    && SameShape(src) && SameShape(ifgs)
    && IsEpochIndex(ids, Epochs(src))
    && Epochs(src) == Epochs(ifgs)
  }

  /** `dot(pinv(tmp, 1e-6), fd)`: the solver applied to the network design
      matrix of `src` and the stacked phase, NaN rows masked. */
  function NetworkFit(src: seq<Interferogram>, degree: Degree, offset: bool, ids: map<Epoch, nat>, pinv: Solver)
    : (c: seq<real>)
    requires degree.IsKnown() && |src| > 0 && SameShape(src) && IsEpochIndex(ids, Epochs(src))
    reads set i | 0 <= i < |src| :: src[i].phase
    ensures |c| == NetworkLayout(src, degree, offset).Width()
  {
    var L := NetworkLayout(src, degree, offset);
    var sys := MaskedSystem(NetworkDesignRows(src, degree, offset, ids), L.Width(), Stack(src));
    pinv(sys.0, sys.1)
  }

  /** `dm.dot(coefs[ids[slave]] - coefs[ids[master]])` for epoch indices p. */
  function PairOrbit(basis: seq<seq<real>>, coefs: seq<seq<real>>, p: (nat, nat)): (orb: seq<real>)
    requires p.0 < |coefs| && p.1 < |coefs| && |coefs[p.0]| == |coefs[p.1]|
    requires forall k :: 0 <= k < |basis| ==> |basis[k]| == |coefs[p.1]|
    ensures |orb| == |basis|
  {
    Forward(basis, Sub(coefs[p.1], coefs[p.0]))
  }

  /** The orbital surface each interferogram of `ifgs` loses: the trends of
      the vector the solver fits to `src`. */
  function NetworkOrbits(ifgs: seq<Interferogram>, src: seq<Interferogram>, degree: Degree, offset: bool,
                         ids: map<Epoch, nat>, pinv: Solver): (orbs: seq<seq<real>>)
    requires NetworkInputs(ifgs, src, ids) && degree.IsKnown() && |ifgs| > 0
    reads set i | 0 <= i < |src| :: src[i].phase
    ensures |orbs| == |ifgs|
    ensures forall i :: 0 <= i < |ifgs| ==> |orbs[i]| == ifgs[0].NumCells()
  {
    TrendsFrom(ifgs, src, degree, offset, ids, NetworkFit(src, degree, offset, ids, pinv))
  }

  /** The trends a solved vector gives: `model` cut into one block of ncoef
      coefficients per epoch (`[model[i:i+ncoef] for i in range(0,
      len(set(ids)) * ncoef, ncoef)]`), and each interferogram's two epoch
      blocks differenced and expanded over the grid of ifgs[0]. */
  function TrendsFrom(ifgs: seq<Interferogram>, src: seq<Interferogram>, degree: Degree, offset: bool,
                      ids: map<Epoch, nat>, model: seq<real>): (orbs: seq<seq<real>>)
    requires NetworkInputs(ifgs, src, ids) && degree.IsKnown() && |ifgs| > 0
    requires |model| == NetworkLayout(src, degree, offset).Width()
    ensures |orbs| == |ifgs|
    ensures forall i :: 0 <= i < |ifgs| ==> |orbs[i]| == ifgs[0].NumCells()
  {
    var L := NetworkLayout(src, degree, offset);
    OrbitsFor(DesignRows(ifgs[0].Geometry(), degree, false), Chunks(model, L.nepochs, L.ncoef),
              PairsOf(ifgs, src, degree, ids), L.ncoef)
  }

  /** The epoch index pairs of `ifgs`, each inside the epoch blocks of the
      network layout of `src`. */
  function PairsOf(ifgs: seq<Interferogram>, src: seq<Interferogram>, degree: Degree, ids: map<Epoch, nat>)
    : (pairs: seq<(nat, nat)>)
    requires NetworkInputs(ifgs, src, ids) && degree.IsKnown() && |ifgs| > 0
    ensures |pairs| == |ifgs|
    ensures forall i :: 0 <= i < |pairs| ==> pairs[i].0 < |Epochs(src)| && pairs[i].1 < |Epochs(src)|
  {
    PairsWellFormed(ifgs, degree, false, ids);
    Pairs(ifgs, ids)
  }

  /** One pair trend per interferogram. */
  function OrbitsFor(basis: seq<seq<real>>, coefs: seq<seq<real>>, pairs: seq<(nat, nat)>, w: nat)
    : (orbs: seq<seq<real>>)
    requires forall i :: 0 <= i < |pairs| ==> pairs[i].0 < |coefs| && pairs[i].1 < |coefs|
    requires forall e :: 0 <= e < |coefs| ==> |coefs[e]| == w
    requires forall k :: 0 <= k < |basis| ==> |basis[k]| == w
    ensures |orbs| == |pairs|
    ensures forall i :: 0 <= i < |pairs| ==> |orbs[i]| == |basis|
  {
    seq(|pairs|, i requires 0 <= i < |pairs| => PairOrbit(basis, coefs, pairs[i]))
  }

  /** numpy's `median(tmp[~isnan(tmp)])`, NaN for an all-NaN raster. */
  function MedianOffset(tmp: seq<Option<real>>, median: seq<real> -> real): (m: Option<real>)
    ensures m.None? <==> forall k :: 0 <= k < |tmp| ==> tmp[k].None?
    ensures m.Some? ==> m == Some(median(ValidValues(tmp)))
  {
    var vals := ValidValues(tmp);
    if |vals| == 0 then None
    else
      assert tmp[ValidIndices(tmp)[0]].Some?;
      Some(median(vals))
  }

  /** `orb + m` for a scalar m that may be NaN. */
  function Shifted(orb: seq<real>, m: Option<real>): (v: seq<Option<real>>)
    ensures |v| == |orb|
  {
    seq(|orb|, k requires 0 <= k < |orb| => if m.Some? then Some(orb[k] + m.value) else None)
  }

  /** The phase the loop body of _network_correction leaves for one
      interferogram: `phase -= orb`, or with offsets `phase -= orb + median(phase - orb)`. */
  function NetworkCorrected(v: seq<Option<real>>, orb: seq<real>, offset: bool, median: seq<real> -> real)
    : (w: seq<Option<real>>)
    requires |v| == |orb|
    ensures |w| == |v|
  {
    if offset then Subtract(v, Shifted(orb, MedianOffset(Subtract(v, Known(orb)), median)))
    else Subtract(v, Known(orb))
  }

  /** The trend of a pair is the difference of its two epochs' surfaces:
      the slave epoch's polynomial minus the master epoch's, at each pixel. */
  lemma PairOrbitIsSurfaceDifference(g: Grid, degree: Degree, coefs: seq<seq<real>>, p: (nat, nat), k: nat)
    requires degree.IsKnown() && k < g.NumCells()
    requires p.0 < |coefs| && p.1 < |coefs|
    requires |coefs[p.0]| == |coefs[p.1]| == GetNumParams(degree, false).value
    ensures PairOrbit(DesignRows(g, degree, false), coefs, p)[k]
         == Polynomial(degree, coefs[p.1], g.X(k), g.Y(k)) - Polynomial(degree, coefs[p.0], g.X(k), g.Y(k))
  {
    var b := DesignRows(g, degree, false)[k];
    assert b == Basis(degree, g.X(k), g.Y(k));
    DotSub(b, coefs[p.1], coefs[p.0]);
    BasisEvaluatesPolynomial(degree, g.X(k), g.Y(k), coefs[p.1]);
    BasisEvaluatesPolynomial(degree, g.X(k), g.Y(k), coefs[p.0]);
  }

  /** An interferogram whose epochs coincide loses no trend. */
  lemma SameEpochOrbitIsZero(basis: seq<seq<real>>, coefs: seq<seq<real>>, e: nat)
    requires e < |coefs| && forall k :: 0 <= k < |basis| ==> |basis[k]| == |coefs[e]|
    ensures PairOrbit(basis, coefs, (e, e)) == Zeros(|basis|)
  {
    var c := coefs[e];
    assert Sub(c, c) == Zeros(|c|);
    forall k | 0 <= k < |basis|
      ensures PairOrbit(basis, coefs, (e, e))[k] == 0.0
    {
      DotWithZeros(basis[k]);
    }
  }

  /** Swapping master and slave negates the trend. */
  lemma PairOrbitAntisymmetric(basis: seq<seq<real>>, coefs: seq<seq<real>>, p: (nat, nat), k: nat)
    requires p.0 < |coefs| && p.1 < |coefs| && |coefs[p.0]| == |coefs[p.1]|
    requires forall k :: 0 <= k < |basis| ==> |basis[k]| == |coefs[p.1]|
    requires k < |basis|
    ensures PairOrbit(basis, coefs, (p.1, p.0))[k] == -PairOrbit(basis, coefs, p)[k]
  {
    DotSub(basis[k], coefs[p.1], coefs[p.0]);
    DotSub(basis[k], coefs[p.0], coefs[p.1]);
  }

  /** The trend the loop subtracts from interferogram i at cell k is exactly
      what the fitted network model predicts for that observation, less the
      interferogram's own offset coefficient: the coefficient blocks read back
      are the blocks the network design matrix placed. */
  lemma PairOrbitIsNetworkPrediction(L: Layout, basis: seq<seq<real>>, pairs: seq<(nat, nat)>,
                                     i: nat, k: nat, model: seq<real>)
    requires WellFormed(L, basis, pairs) && i < L.nifgs && k < L.ncells && |model| == L.Width()
    requires pairs[i].0 != pairs[i].1
    ensures i * L.ncells + k < L.nifgs * L.ncells && L.nepochs * L.ncoef <= |model|
    ensures Dot(NetworkRows(L, basis, pairs)[i * L.ncells + k], model)
         == PairOrbit(basis, Chunks(model, L.nepochs, L.ncoef), pairs[i])[k]
            + (if L.offset then model[L.OffsetCol() + i] else 0.0)
  {
    var coefs := Chunks(model, L.nepochs, L.ncoef);
    NetworkRowPredictsPairTrend(L, basis, pairs, i, k, model);
    ChunkAt(model, L.nepochs, L.ncoef, pairs[i].0);
    ChunkAt(model, L.nepochs, L.ncoef, pairs[i].1);
  }

  /** Without a single valid pixel the median is NaN, yet nothing is lost:
      the raster was all NaN already and stays so. */
  lemma AllNaNStaysAllNaN(v: seq<Option<real>>, orb: seq<real>, median: seq<real> -> real)
    requires |v| == |orb| && ValidValues(Subtract(v, Known(orb))) == []
    ensures forall k :: 0 <= k < |v| ==> v[k].None?
    ensures NetworkCorrected(v, orb, true, median) == v
  {
    SubtractKeepsMask(v, orb);
    assert |ValidIndices(v)| == 0;
  }

  /** With offsets, every valid pixel loses its trend and then the median of
      the detrended valid pixels; NaN pixels stay NaN. */
  lemma NetworkCorrectedWithOffset(v: seq<Option<real>>, orb: seq<real>, median: seq<real> -> real, k: nat)
    requires |v| == |orb| && k < |v|
    ensures var vals := ValidValues(Subtract(v, Known(orb)));
      && (NetworkCorrected(v, orb, true, median)[k].Some? <==> v[k].Some?)
      && (v[k].Some? ==> |vals| > 0)
      && (v[k].Some? ==>
            NetworkCorrected(v, orb, true, median)[k].value == v[k].value - orb[k] - median(vals))
  {
    var tmp := Subtract(v, Known(orb));
    if v[k].Some? {
      SubtractKeepsMask(v, orb);
      assert k in ValidIndices(v);
    }
  }

  /** A non-empty sample whose every value is c. */
  predicate ConstantSample(xs: seq<real>, c: real)
  {
    |xs| > 0 && forall j :: 0 <= j < |xs| ==> xs[j] == c
  }

  /** What an exact trend leaves once detrended: c at every valid pixel. */
  lemma ExactTrendResidue(v: seq<Option<real>>, orb: seq<real>, c: real)
    requires |v| == |orb|
    requires forall k :: 0 <= k < |v| && v[k].Some? ==> v[k].value == orb[k] + c
    ensures var vals := ValidValues(Subtract(v, Known(orb)));
      |vals| > 0 ==> ConstantSample(vals, c)
  {
    var tmp := Subtract(v, Known(orb));
    var vals := ValidValues(tmp);
    SubtractKeepsMask(v, orb);
    forall j | 0 <= j < |vals|
      ensures vals[j] == c
    {
      assert Some(vals[j]) == tmp[ValidIndices(v)[j]];
    }
  }

  /** A phase that is exactly its trend plus one constant comes out flat at
      zero with offsets on, for any median that returns the common value of
      a constant sample; NaN pixels stay NaN. */
  lemma ExactTrendLeavesZero(v: seq<Option<real>>, orb: seq<real>, c: real, median: seq<real> -> real)
    requires |v| == |orb|
    requires forall k :: 0 <= k < |v| && v[k].Some? ==> v[k].value == orb[k] + c
    requires forall xs: seq<real> :: ConstantSample(xs, c) ==> median(xs) == c
    ensures forall k :: 0 <= k < |v| ==>
      NetworkCorrected(v, orb, true, median)[k] == if v[k].Some? then Some(0.0) else None
  {
    ExactTrendResidue(v, orb, c);
    forall k | 0 <= k < |v|
      ensures NetworkCorrected(v, orb, true, median)[k] == if v[k].Some? then Some(0.0) else None
    {
      NetworkCorrectedWithOffset(v, orb, median, k);
    }
  }

  /** The loop of _network_correction over ifgs: interferogram i loses orbs[i]
      (and, with offsets, its median), in place. */
  method CorrectEach(ifgs: seq<Interferogram>, orbs: seq<seq<real>>, offset: bool, median: seq<real> -> real)
    requires DistinctPhases(ifgs) && |orbs| == |ifgs|
    requires forall i :: 0 <= i < |ifgs| ==> |orbs[i]| == ifgs[i].phase.Length0 * ifgs[i].phase.Length1
    modifies set i | 0 <= i < |ifgs| :: ifgs[i].phase
    ensures forall i :: 0 <= i < |ifgs| ==>
      Flatten(ifgs[i].phase) == NetworkCorrected(old(Flatten(ifgs[i].phase)), orbs[i], offset, median)
  {
    for i := 0 to |ifgs|
      invariant forall j :: 0 <= j < i ==>
        Flatten(ifgs[j].phase) == NetworkCorrected(old(Flatten(ifgs[j].phase)), orbs[j], offset, median)
      invariant forall j :: i <= j < |ifgs| ==> Flatten(ifgs[j].phase) == old(Flatten(ifgs[j].phase))
    {
      assert forall j :: 0 <= j < |ifgs| && j != i ==> ifgs[j].phase != ifgs[i].phase;
      CorrectOne(ifgs[i], orbs[i], offset, median);
    }
  }

  /** The body of that loop for one interferogram. */
  method CorrectOne(ifg: Interferogram, orb: seq<real>, offset: bool, median: seq<real> -> real)
    requires |orb| == ifg.phase.Length0 * ifg.phase.Length1
    modifies ifg.phase
    ensures Flatten(ifg.phase) == NetworkCorrected(old(Flatten(ifg.phase)), orb, offset, median)
  {
    if offset {
      var tmp := Subtract(Flatten(ifg.phase), Known(orb));
      SubtractInPlace(ifg.phase, Shifted(orb, MedianOffset(tmp, median)));
    } else {
      SubtractInPlace(ifg.phase, Known(orb));
    }
  }

  /** The solve of _network_correction: stack the phases of `src`, build its
      network design matrix, mask NaN rows and hand both to the solver. */
  method SolveNetwork(src: seq<Interferogram>, degree: Degree, offset: bool, ids: map<Epoch, nat>, pinv: Solver)
    returns (r: Result<seq<real>, OrbitalError>)
    requires |src| > 0 && SameShape(src) && IsEpochIndex(ids, Epochs(src))
    ensures r.Failure? <==> !degree.IsKnown()
    ensures r.Failure? ==> r.error == InvalidDegree
    ensures r.Success? ==> r.value == NetworkFit(src, degree, offset, ids, pinv)
  {
    var vphase := Stack(src);
    var ndm := GetNetworkDesignMatrix(src, degree, offset, ids);
    if ndm.Failure? {
      return Failure(ndm.error);
    }
    var L := NetworkLayout(src, degree, offset);
    var sys := MaskedSystem(Rows(ndm.value), L.Width(), vphase);
    return Success(pinv(sys.0, sys.1));
  }

  /** The per-interferogram trends of _network_correction: the solved vector
      cut into epoch blocks, and each pair's block difference expanded over
      the design matrix of ifgs[0] without offset column. */
  method NetworkTrends(ifgs: seq<Interferogram>, src: seq<Interferogram>, degree: Degree, offset: bool,
                       ids: map<Epoch, nat>, pinv: Solver)
    returns (r: Result<seq<seq<real>>, OrbitalError>)
    requires NetworkInputs(ifgs, src, ids) && |ifgs| > 0
    ensures r.Failure? <==> !degree.IsKnown()
    ensures r.Failure? ==> r.error == InvalidDegree
    ensures r.Success? ==> degree.IsKnown() && r.value == old(NetworkOrbits(ifgs, src, degree, offset, ids, pinv))
    ensures r.Success? ==> forall i :: 0 <= i < |ifgs| ==> |r.value[i]| == ifgs[i].phase.Length0 * ifgs[i].phase.Length1
    ensures forall i :: 0 <= i < |ifgs| ==> Flatten(ifgs[i].phase) == old(Flatten(ifgs[i].phase))
  {
    var model := SolveNetwork(src, degree, offset, ids, pinv);
    if model.Failure? {
      return Failure(model.error);
    }
    return Success(TrendsFrom(ifgs, src, degree, offset, ids, model.value));
  }

  /** _network_correction once its stack is known not to be empty. */
  method CorrectNetwork(ifgs: seq<Interferogram>, src: seq<Interferogram>, degree: Degree, offset: bool,
                        ids: map<Epoch, nat>, pinv: Solver, median: seq<real> -> real)
    returns (r: Outcome<OrbitalError>)
    requires NetworkInputs(ifgs, src, ids) && |ifgs| > 0 && DistinctPhases(ifgs)
    modifies set i | 0 <= i < |ifgs| :: ifgs[i].phase
    ensures r.Fail? <==> !degree.IsKnown()
    ensures r.Fail? ==> r.error == InvalidDegree
    ensures r.Fail? ==> forall i :: 0 <= i < |ifgs| ==> Flatten(ifgs[i].phase) == old(Flatten(ifgs[i].phase))
    ensures r.Pass? ==> degree.IsKnown() && forall i :: 0 <= i < |ifgs| ==>
      Flatten(ifgs[i].phase)
        == NetworkCorrected(old(Flatten(ifgs[i].phase)), old(NetworkOrbits(ifgs, src, degree, offset, ids, pinv))[i],
                            offset, median)
  {
    var orbs := NetworkTrends(ifgs, src, degree, offset, ids, pinv);
    if orbs.Failure? {
      return Fail(orbs.error);
    }
    CorrectEach(ifgs, orbs.value, offset, median);
    return Pass;
  }

  /** _network_correction: fit one joint model to `src` (the multilooked
      copies when given, else `ifgs` itself) and subtract each interferogram's
      pair trend from its phase in place. */
  method NetworkCorrection(ifgs: seq<Interferogram>, degree: Degree, offset: bool,
                           mlooked: Option<seq<Interferogram>>, ids: map<Epoch, nat>,
                           pinv: Solver, median: seq<real> -> real)
    returns (r: Outcome<OrbitalError>)
    requires NetworkInputs(ifgs, Source(ifgs, mlooked), ids)
    requires DistinctPhases(ifgs)
    modifies set i | 0 <= i < |ifgs| :: ifgs[i].phase
    ensures r.Fail? <==> |ifgs| == 0 || !degree.IsKnown()
    ensures r.Fail? ==> r.error == if |ifgs| == 0 then EmptyStack else InvalidDegree
    ensures r.Fail? ==> forall i :: 0 <= i < |ifgs| ==> Flatten(ifgs[i].phase) == old(Flatten(ifgs[i].phase))
    ensures r.Pass? ==> |ifgs| > 0 && degree.IsKnown() && forall i :: 0 <= i < |ifgs| ==>
      Flatten(ifgs[i].phase)
        == NetworkCorrected(old(Flatten(ifgs[i].phase)),
                            old(NetworkOrbits(ifgs, Source(ifgs, mlooked), degree, offset, ids, pinv))[i],
                            offset, median)
  {
    var src := Source(ifgs, mlooked);
    if |src| == 0 {
      return Fail(EmptyStack);
    }
    r := CorrectNetwork(ifgs, src, degree, offset, ids, pinv, median);
  }

  /** `src_ifgs = ifgs if m_ifgs is None else m_ifgs`. */
  function Source(ifgs: seq<Interferogram>, mlooked: Option<seq<Interferogram>>): (src: seq<Interferogram>)
    ensures mlooked.Some? ==> src == mlooked.value
    ensures mlooked.None? ==> src == ifgs
  {
    if mlooked.Some? then mlooked.value else ifgs
  }
}

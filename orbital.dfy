/** orbital_correction and _validate_mlooked of pyrate/orbital.py: validate
    the degree and the method (and the multilooked set), then run one of the
    two correction methods; a rejected call touches no phase. */
module Orbital {
  import opened Wrappers
  import opened Raster
  import opened OrbitalModel
  import opened NetworkMatrix
  import opened Correction
  import opened NetworkCorrection

  /** `all(tmp)` over a list of flags: true exactly when every flag is. */
  function All(tmp: seq<bool>): (every: bool)
    ensures every <==> forall j :: 0 <= j < |tmp| ==> tmp[j]
  {
    if tmp == [] then true
    else
      assert forall j :: 1 <= j < |tmp| ==> tmp[j] == tmp[1..][j - 1];
      tmp[0] && All(tmp[1..])
  }

  /** `[hasattr(i, 'phase_data') for i in mlooked]`: `None` stands for an
      element that is not an interferogram. */
  function HasPhase(mlooked: seq<Option<Interferogram>>): (tmp: seq<bool>)
    ensures |tmp| == |mlooked|
    ensures forall j :: 0 <= j < |mlooked| ==> (tmp[j] <==> mlooked[j].Some?)
  {
    seq(|mlooked|, j requires 0 <= j < |mlooked| => mlooked[j].Some?)
  }

  /** _validate_mlooked: as many multilooked copies as interferograms, and
      every one of them an interferogram; the count is checked first. */
  function ValidateMlooked(mlooked: seq<Option<Interferogram>>, nifgs: nat): (r: Outcome<OrbitalError>)
    ensures r.Pass? <==> |mlooked| == nifgs && forall j :: 0 <= j < |mlooked| ==> mlooked[j].Some?
    ensures |mlooked| != nifgs ==> r == Fail(MismatchedLookCount)
    ensures |mlooked| == nifgs && r.Fail? ==> r == Fail(MismatchedLookTypes)
  {
    if |mlooked| != nifgs then Fail(MismatchedLookCount)
    else if !All(HasPhase(mlooked)) then Fail(MismatchedLookTypes)
    else Pass
  }

  /** The multilooked set once every element is known to be an interferogram. */
  function Looked(mlooked: Option<seq<Option<Interferogram>>>): (m: Option<seq<Interferogram>>)
    requires mlooked.Some? ==> forall j :: 0 <= j < |mlooked.value| ==> mlooked.value[j].Some?
    ensures m.Some? <==> mlooked.Some?
    ensures m.Some? ==> |m.value| == |mlooked.value|
    ensures m.Some? ==> forall j :: 0 <= j < |m.value| ==> mlooked.value[j] == Some(m.value[j])
  {
    if mlooked.None? then None
    else Some(seq(|mlooked.value|, j requires 0 <= j < |mlooked.value| => mlooked.value[j].value))
  }

  /** The multilooked set passes validation, or there is none. */
  predicate MlookedAccepted(mlooked: Option<seq<Option<Interferogram>>>, nifgs: nat)
  {
    mlooked.None? || ValidateMlooked(mlooked.value, nifgs).Pass?
  }

  /** What the network method takes for granted once validation passed. */
  ghost predicate NetworkReady(ifgs: seq<Interferogram>, mlooked: Option<seq<Option<Interferogram>>>,
                               ids: map<Epoch, nat>)
  {
    MlookedAccepted(mlooked, |ifgs|) ==> NetworkInputs(ifgs, Source(ifgs, Looked(mlooked)), ids)
  }

  /** Whether orbital_correction goes ahead, or which error it raises first:
      the degree, then the method, then (network) the multilooked set and
      the stack. */
  function Verdict(degree: Degree, method_: Method, mlooked: Option<seq<Option<Interferogram>>>, nifgs: nat)
    : (r: Outcome<OrbitalError>)
    ensures r.Pass? <==>
      degree.IsKnown() &&
      (method_.IndependentMethod? || (method_.NetworkMethod? && MlookedAccepted(mlooked, nifgs) && nifgs > 0))
    ensures !degree.IsKnown() ==> r == Fail(InvalidDegree)
    ensures degree.IsKnown() && method_.OtherMethod? ==> r == Fail(UnknownMethod)
    ensures degree.IsKnown() && method_.NetworkMethod? && mlooked.Some? && |mlooked.value| != nifgs ==>
      r == Fail(MismatchedLookCount)
    ensures (degree.IsKnown() && method_.NetworkMethod? && mlooked.Some? && |mlooked.value| == nifgs &&
             !MlookedAccepted(mlooked, nifgs)) ==> r == Fail(MismatchedLookTypes)
    ensures degree.IsKnown() && method_.NetworkMethod? && MlookedAccepted(mlooked, nifgs) && nifgs == 0 ==>
      r == Fail(EmptyStack)
  {
    if !degree.IsKnown() then Fail(InvalidDegree)
    else match method_
      case NetworkMethod =>
        if !MlookedAccepted(mlooked, nifgs) then ValidateMlooked(mlooked.value, nifgs)
        else if nifgs == 0 then Fail(EmptyStack)
        else Pass
      case IndependentMethod => Pass
      case OtherMethod(_) => Fail(UnknownMethod)
  }

  /** The loop `for i in ifgs: _independent_correction(i, degree, offset)`. */
  method CorrectIndependently(ifgs: seq<Interferogram>, degree: Degree, offset: bool, lstsq: Solver)
    requires degree.IsKnown() && DistinctPhases(ifgs)
    modifies set i | 0 <= i < |ifgs| :: ifgs[i].phase
    ensures forall i :: 0 <= i < |ifgs| ==>
      Flatten(ifgs[i].phase) == IndependentCorrected(old(Flatten(ifgs[i].phase)), ifgs[i].Geometry(), degree, offset, lstsq)
  {
    for i := 0 to |ifgs|
      invariant forall j :: 0 <= j < i ==>
        Flatten(ifgs[j].phase)
          == IndependentCorrected(old(Flatten(ifgs[j].phase)), ifgs[j].Geometry(), degree, offset, lstsq)
      invariant forall j :: i <= j < |ifgs| ==> Flatten(ifgs[j].phase) == old(Flatten(ifgs[j].phase))
    {
      assert forall j :: 0 <= j < |ifgs| && j != i ==> ifgs[j].phase != ifgs[i].phase;
      var r := IndependentCorrection(ifgs[i], degree, offset, lstsq);
    }
  }

  /** orbital_correction: an invalid degree, an unknown method or a rejected
      multilooked set fails before any phase changes; otherwise every
      interferogram is corrected in place by the chosen method. */
  method OrbitalCorrection(ifgs: seq<Interferogram>, degree: Degree, method_: Method,
                           mlooked: Option<seq<Option<Interferogram>>>, offset: bool, ids: map<Epoch, nat>,
                           lstsq: Solver, pinv: Solver, median: seq<real> -> real)
    returns (r: Outcome<OrbitalError>)
    requires DistinctPhases(ifgs)
    requires method_.NetworkMethod? ==> NetworkReady(ifgs, mlooked, ids)
    modifies set i | 0 <= i < |ifgs| :: ifgs[i].phase
    ensures r == Verdict(degree, method_, mlooked, |ifgs|)
    ensures r.Fail? ==> forall i :: 0 <= i < |ifgs| ==> Flatten(ifgs[i].phase) == old(Flatten(ifgs[i].phase))
    ensures r.Pass? && method_.IndependentMethod? ==> forall i :: 0 <= i < |ifgs| ==>
      Flatten(ifgs[i].phase)
        == IndependentCorrected(old(Flatten(ifgs[i].phase)), ifgs[i].Geometry(), degree, offset, lstsq)
    ensures r.Pass? && method_.NetworkMethod? ==>
      degree.IsKnown() && MlookedAccepted(mlooked, |ifgs|) && |ifgs| > 0 &&
      forall i :: 0 <= i < |ifgs| ==>
        Flatten(ifgs[i].phase)
          == NetworkCorrected(old(Flatten(ifgs[i].phase)),
                              old(NetworkOrbits(ifgs, Source(ifgs, Looked(mlooked)), degree, offset, ids, pinv))[i],
                              offset, median)
  {
    if !degree.IsKnown() {
      return Fail(InvalidDegree);
    }
    match method_
    case NetworkMethod =>
      if mlooked.Some? {
        var valid := ValidateMlooked(mlooked.value, |ifgs|);
        if valid.Fail? {
          return valid;
        }
      }
      r := NetworkCorrection.NetworkCorrection(ifgs, degree, offset, Looked(mlooked), ids, pinv, median);
    case IndependentMethod =>
      CorrectIndependently(ifgs, degree, offset, lstsq);
      return Pass;
    case OtherMethod(_) =>
      return Fail(UnknownMethod);
  }
}

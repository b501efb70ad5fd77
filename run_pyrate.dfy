/** The orbital-correction steps of pyrate/scripts/run_pyrate.py: the
    ORBITAL_ERROR flag protocol around orbital_correction, the mixed-flag
    check, the reference-pixel guard, the warp test and the output paths. */
module RunPyrate {
  import opened Wrappers
  import opened Raster
  import opened OrbitalModel
  import opened Correction
  import opened NetworkCorrection
  import opened Orbital

  /** META_REMOVED, the value of the ORBITAL_ERROR item of a corrected dataset. */
  const META_REMOVED: string := "REMOVED"

  // ---------------------------------------------------------------- warp_required

  /** prepifg's crop option: ALREADY_SAME_SIZE or any other one. */
  datatype CropOption = AlreadySameSize | OtherCrop(code: int)

  /** warp_required: rasters must be resampled when either looks factor
      exceeds one, or cropped when a crop other than ALREADY_SAME_SIZE is set. */
  function WarpRequired(xlooks: int, ylooks: int, crop: Option<CropOption>): (r: bool)
    ensures r <==> xlooks > 1 || ylooks > 1 || (crop.Some? && crop.value.OtherCrop?)
  {
    if xlooks > 1 || ylooks > 1 then true
    else if crop.None? || crop.value == AlreadySameSize then false
    else true
  }

  /** Multilooking always warps, whatever the crop option. */
  lemma LooksForceWarp(xlooks: int, ylooks: int, crop: Option<CropOption>, crop': Option<CropOption>)
    requires xlooks > 1 || ylooks > 1
    ensures WarpRequired(xlooks, ylooks, crop) && WarpRequired(xlooks, ylooks, crop')
  {
  }

  // ----------------------------------------------------------- check_orbital_ifgs

  /** `sum([f == META_REMOVED for f in flags])`. */
  function RemovedCount(flags: seq<Option<string>>): (count: nat)
    ensures count <= |flags|
  {
    if flags == [] then 0
    else (if flags[0] == Some(META_REMOVED) then 1 else 0) + RemovedCount(flags[1..])
  }

  /** No flag reads REMOVED exactly when the count is zero. */
  lemma {:induction false} NoneRemoved(flags: seq<Option<string>>)
    ensures RemovedCount(flags) == 0 <==> forall i :: 0 <= i < |flags| ==> flags[i] != Some(META_REMOVED)
  {
    if flags != [] {
      NoneRemoved(flags[1..]);
      assert forall i :: 1 <= i < |flags| ==> flags[i] == flags[1..][i - 1];
    }
  }

  /** Every flag reads REMOVED exactly when the count is the length. */
  lemma {:induction false} AllRemoved(flags: seq<Option<string>>)
    ensures RemovedCount(flags) == |flags| <==> forall i :: 0 <= i < |flags| ==> flags[i] == Some(META_REMOVED)
  {
    if flags != [] {
      AllRemoved(flags[1..]);
      assert forall i :: 1 <= i < |flags| ==> flags[i] == flags[1..][i - 1];
    }
  }

  /** check_orbital_ifgs: a set in which some interferograms carry the
      REMOVED flag and others do not is an error. */
  function CheckOrbitalIfgs(flags: seq<Option<string>>): (r: Outcome<OrbitalError>)
    ensures r.Fail? ==> r.error == MixedCorrection
    ensures r.Fail? <==>
      (exists i :: 0 <= i < |flags| && flags[i] == Some(META_REMOVED)) &&
      (exists j :: 0 <= j < |flags| && flags[j] != Some(META_REMOVED))
  {
    NoneRemoved(flags);
    AllRemoved(flags);
    var count := RemovedCount(flags);
    if count < |flags| && count > 0 then Fail(MixedCorrection) else Pass
  }

  // ------------------------------------------------------------ remove_orbital_error

  /** A metadata value Python reads as true: present and not empty. */
  predicate Truthy(flag: Option<string>)
  {
    flag.Some? && flag.value != ""
  }

  /** The ORBITAL_ERROR items of the interferograms' datasets, in order. */
  function Flags(ifgs: seq<Interferogram>): (flags: seq<Option<string>>)
    reads ifgs
    ensures |flags| == |ifgs|
    ensures forall i :: 0 <= i < |ifgs| ==> flags[i] == ifgs[i].orbitalFlag
  {
    seq(|ifgs|, i reads ifgs requires 0 <= i < |ifgs| => ifgs[i].orbitalFlag)
  }

  /** remove_orbital_error returns at once: fitting is off, or every flag is
      set (`all(flags)`): present and not the empty string. */
  function Skipped(orbitalFit: bool, flags: seq<Option<string>>): (skip: bool)
    ensures !orbitalFit ==> skip
    ensures orbitalFit ==> (skip <==> forall i :: 0 <= i < |flags| ==> flags[i].Some? && flags[i].value != "")
  {
    !orbitalFit || forall i :: 0 <= i < |flags| ==> Truthy(flags[i])
  }

  /** The skip test reads any set flag as done: a set whose flags are all
      set, some REMOVED and some not, returns before the mixed-flag check
      that would have rejected it. */
  lemma SetFlagsBypassMixedCheck(other: string)
    requires other != "" && other != META_REMOVED
    ensures Skipped(true, [Some(META_REMOVED), Some(other)])
    ensures CheckOrbitalIfgs([Some(META_REMOVED), Some(other)]) == Fail(MixedCorrection)
  {
    var flags := [Some(META_REMOVED), Some(other)];
    assert flags[0] == Some(META_REMOVED) && flags[1] != Some(META_REMOVED);
  }

  /** The multilooked copies handed to orbital_correction: those prepifg
      makes when either fitting looks factor exceeds one, else none. */
  function Mlooked(looksX: int, looksY: int, resampled: seq<Interferogram>): (m: Option<seq<Option<Interferogram>>>)
    ensures m.Some? <==> looksX > 1 || looksY > 1
    ensures m.Some? ==> |m.value| == |resampled| && forall j :: 0 <= j < |m.value| ==> m.value[j] == Some(resampled[j])
  {
    if looksX > 1 || looksY > 1 then Some(seq(|resampled|, j requires 0 <= j < |resampled| => Some(resampled[j])))
    else None
  }

  /** The closing loop: every dataset's ORBITAL_ERROR item becomes REMOVED. */
  method MarkRemoved(ifgs: seq<Interferogram>)
    modifies set i | 0 <= i < |ifgs| :: ifgs[i]
    ensures forall i :: 0 <= i < |ifgs| ==> ifgs[i].orbitalFlag == Some(META_REMOVED)
    ensures forall i :: 0 <= i < |ifgs| ==> Flatten(ifgs[i].phase) == old(Flatten(ifgs[i].phase))
  {
    for i := 0 to |ifgs|
      invariant forall j :: 0 <= j < i ==> ifgs[j].orbitalFlag == Some(META_REMOVED)
    {
      ifgs[i].orbitalFlag := Some(META_REMOVED);
    }
  }

  /** A corrected set is skipped by the next run: REMOVED is a set flag. */
  lemma RemovedIsSkipped(orbitalFit: bool, flags: seq<Option<string>>)
    requires forall i :: 0 <= i < |flags| ==> flags[i] == Some(META_REMOVED)
    ensures Skipped(orbitalFit, flags)
    ensures CheckOrbitalIfgs(flags) == Pass
  {
    assert Truthy(Some(META_REMOVED));
  }

  /** What a successful orbital_correction with the offset on leaves in
      every phase, method by method. */
  twostate predicate CorrectedWithOffset(ifgs: seq<Interferogram>, degree: Degree, method_: Method,
                                         mlooked: Option<seq<Option<Interferogram>>>, ids: map<Epoch, nat>,
                                         lstsq: Solver, pinv: Solver, median: seq<real> -> real)
    requires method_.NetworkMethod? ==> NetworkReady(ifgs, mlooked, ids)
    reads set i | 0 <= i < |ifgs| :: ifgs[i].phase
  {
    && Verdict(degree, method_, mlooked, |ifgs|).Pass?
    && (method_.IndependentMethod? ==> forall i :: 0 <= i < |ifgs| ==>
          Flatten(ifgs[i].phase)
            == IndependentCorrected(old(Flatten(ifgs[i].phase)), ifgs[i].Geometry(), degree, true, lstsq))
    && (method_.NetworkMethod? ==> forall i :: 0 <= i < |ifgs| ==>
          Flatten(ifgs[i].phase)
            == NetworkCorrected(old(Flatten(ifgs[i].phase)),
                                old(NetworkOrbits(ifgs, Source(ifgs, Looked(mlooked)), degree, true, ids, pinv))[i],
                                true, median))
  }

  /** The tail of remove_orbital_error once it is not skipped: the
      mixed-flags check, orbital_correction with the offset on, then every
      flag set to REMOVED. */
  method CorrectAndMark(ifgs: seq<Interferogram>, degree: Degree, method_: Method,
                        mlooked: Option<seq<Option<Interferogram>>>, ids: map<Epoch, nat>,
                        lstsq: Solver, pinv: Solver, median: seq<real> -> real)
    returns (r: Outcome<OrbitalError>)
    requires DistinctPhases(ifgs)
    requires method_.NetworkMethod? ==> NetworkReady(ifgs, mlooked, ids)
    modifies set i | 0 <= i < |ifgs| :: ifgs[i]
    modifies set i | 0 <= i < |ifgs| :: ifgs[i].phase
    ensures r == if old(CheckOrbitalIfgs(Flags(ifgs))).Fail? then Fail(MixedCorrection)
                 else Verdict(degree, method_, mlooked, |ifgs|)
    ensures r.Fail? ==> Flags(ifgs) == old(Flags(ifgs))
    ensures r.Fail? ==> forall i :: 0 <= i < |ifgs| ==> Flatten(ifgs[i].phase) == old(Flatten(ifgs[i].phase))
    ensures r.Pass? ==> forall i :: 0 <= i < |ifgs| ==> ifgs[i].orbitalFlag == Some(META_REMOVED)
    ensures r.Pass? ==> CorrectedWithOffset(ifgs, degree, method_, mlooked, ids, lstsq, pinv, median)
  {
    var check := CheckOrbitalIfgs(Flags(ifgs));
    if check.Fail? {
      return check;
    }
    r := OrbitalCorrection(ifgs, degree, method_, mlooked, true, ids, lstsq, pinv, median);
    if r.Pass? {
      MarkRemoved(ifgs);
    }
  }

  /** remove_orbital_error with the offset left at its default (on). It does
      nothing when skipped; it fails on a mixed flag set or when
      orbital_correction does, leaving phases and flags as they were; and
      otherwise corrects every phase in place (as CorrectAndMark states) and
      marks every dataset REMOVED, so that a second run is skipped.
      `resampled` stands for what prepifg writes. */
  method RemoveOrbitalError(ifgs: seq<Interferogram>, orbitalFit: bool, degree: Degree, method_: Method,
                            looksX: int, looksY: int, resampled: seq<Interferogram>, ids: map<Epoch, nat>,
                            lstsq: Solver, pinv: Solver, median: seq<real> -> real)
    returns (r: Outcome<OrbitalError>)
    requires DistinctPhases(ifgs)
    requires method_.NetworkMethod? ==> NetworkReady(ifgs, Mlooked(looksX, looksY, resampled), ids)
    modifies set i | 0 <= i < |ifgs| :: ifgs[i]
    modifies set i | 0 <= i < |ifgs| :: ifgs[i].phase
    ensures old(Skipped(orbitalFit, Flags(ifgs))) ==> r == Pass
    ensures !old(Skipped(orbitalFit, Flags(ifgs))) ==>
      r == if old(CheckOrbitalIfgs(Flags(ifgs))).Fail? then Fail(MixedCorrection)
           else Verdict(degree, method_, Mlooked(looksX, looksY, resampled), |ifgs|)
    ensures r.Fail? || old(Skipped(orbitalFit, Flags(ifgs))) ==> Flags(ifgs) == old(Flags(ifgs))
    ensures r.Fail? || old(Skipped(orbitalFit, Flags(ifgs))) ==>
      forall i :: 0 <= i < |ifgs| ==> Flatten(ifgs[i].phase) == old(Flatten(ifgs[i].phase))
    ensures r.Pass? && !old(Skipped(orbitalFit, Flags(ifgs))) ==>
      forall i :: 0 <= i < |ifgs| ==> ifgs[i].orbitalFlag == Some(META_REMOVED)
    ensures r.Pass? && !old(Skipped(orbitalFit, Flags(ifgs))) ==>
      CorrectedWithOffset(ifgs, degree, method_, Mlooked(looksX, looksY, resampled), ids, lstsq, pinv, median)
    ensures r.Pass? ==> Skipped(orbitalFit, Flags(ifgs))
  {
    if Skipped(orbitalFit, Flags(ifgs)) {
      return Pass;
    }
    r := CorrectAndMark(ifgs, degree, method_, Mlooked(looksX, looksY, resampled), ids, lstsq, pinv, median);
    if r.Pass? {
      RemovedIsSkipped(orbitalFit, Flags(ifgs));
    }
  }

  // ------------------------------------------------------------ find_reference_pixel

  /** The ValueError conditions of find_reference_pixel, and the IndexError
      of reading `ifgs[0]` from an empty list. */
  datatype RefPixelError = NoInterferograms | InvalidRefX(refx: int) | InvalidRefY(refy: int)

  /** find_reference_pixel as written: a preset pixel is returned as
      (refy, refx), a computed one as (refx, refy). `computed` is the
      (y, x) pair refpixel.ref_pixel would return. */
  function FindReferencePixelAsWritten(ifgs: seq<Interferogram>, refx: int, refy: int, computed: (int, int))
    : (r: Result<(int, int), RefPixelError>)
    ensures |ifgs| > 0 && refx >= 0 && refy >= 0 && r.Success? ==> r.value == (refy, refx)
    ensures |ifgs| > 0 && (refx < 0 || refy < 0) && r.Success? ==> r.value == (computed.1, computed.0)
  {
    if |ifgs| == 0 then Failure(NoInterferograms)
    else if refx > ifgs[0].NCols() as int - 1 then Failure(InvalidRefX(refx))
    else if refy > ifgs[0].NRows() as int - 1 then Failure(InvalidRefY(refy))
    else if refx >= 0 && refy >= 0 then Success((refy, refx))
    else Success((computed.1, computed.0))
  }

  /** The two branches disagree on the order: a preset pixel off the
      diagonal comes back swapped relative to the same pixel computed. */
  lemma AsWrittenOrderDiffers(ifgs: seq<Interferogram>, x: nat, y: nat)
    requires |ifgs| > 0 && x < ifgs[0].NCols() && y < ifgs[0].NRows() && x != y
    ensures FindReferencePixelAsWritten(ifgs, x, y, (0, 0)) != FindReferencePixelAsWritten(ifgs, -1, -1, (y, x))
  {
    assert FindReferencePixelAsWritten(ifgs, x, y, (0, 0)) == Success((y, x));
    assert FindReferencePixelAsWritten(ifgs, -1, -1, (y, x)) == Success((x, y));
  }

  /** find_reference_pixel returning (x, y) from both branches, as its
      caller unpacks it (`refpx, refpy = ...`). The bounds are checked x
      first; a negative coordinate asks for a computed pixel. */
  function FindReferencePixel(ifgs: seq<Interferogram>, refx: int, refy: int, computed: (int, int))
    : (r: Result<(int, int), RefPixelError>)
    ensures r == Failure(NoInterferograms) <==> |ifgs| == 0
    ensures |ifgs| > 0 && refx >= ifgs[0].NCols() ==> r == Failure(InvalidRefX(refx))
    ensures |ifgs| > 0 && refx < ifgs[0].NCols() && refy >= ifgs[0].NRows() ==> r == Failure(InvalidRefY(refy))
    ensures r.Success? <==> |ifgs| > 0 && refx < ifgs[0].NCols() && refy < ifgs[0].NRows()
    ensures r.Success? && refx >= 0 && refy >= 0 ==> r.value == (refx, refy)
    ensures r.Success? && (refx < 0 || refy < 0) ==> r.value == (computed.1, computed.0)
  {
    if |ifgs| == 0 then Failure(NoInterferograms)
    else if refx > ifgs[0].NCols() as int - 1 then Failure(InvalidRefX(refx))
    else if refy > ifgs[0].NRows() as int - 1 then Failure(InvalidRefY(refy))
    else if refx >= 0 && refy >= 0 then Success((refx, refy))
    else Success((computed.1, computed.0))
  }

  /** Presetting a pixel gives the same answer as having it computed. */
  lemma PresetMatchesComputed(ifgs: seq<Interferogram>, x: nat, y: nat, other: (int, int))
    requires |ifgs| > 0 && x < ifgs[0].NCols() && y < ifgs[0].NRows()
    ensures FindReferencePixel(ifgs, x, y, other) == FindReferencePixel(ifgs, -1, -1, (y, x)) == Success((x, y))
  {
  }

  // ------------------------------------------------------------------ dest_ifg_paths

  /** os.path.basename on a POSIX path: what follows the last '/'. */
  function Basename(p: string): (b: string)
    ensures |b| <= |p| && b == p[|p| - |b|..]
    ensures '/' !in b
    ensures |b| < |p| ==> p[|p| - |b| - 1] == '/'
  {
    LastSegmentIsSuffix(p);
    LastSegment(p)
  }

  /** The characters after the last '/', collected from the end. */
  function LastSegment(p: string): string
  {
    if p == [] || p[|p| - 1] == '/' then []
    else LastSegment(p[..|p| - 1]) + [p[|p| - 1]]
  }

  lemma {:induction false} LastSegmentIsSuffix(p: string)
    ensures var b := LastSegment(p);
      && |b| <= |p| && b == p[|p| - |b|..]
      && '/' !in b
      && (|b| < |p| ==> p[|p| - |b| - 1] == '/')
  {
    if p != [] && p[|p| - 1] != '/' {
      var q := p[..|p| - 1];
      LastSegmentIsSuffix(q);
      assert p == q + [p[|p| - 1]];
    }
  }

  /** `a` needs a '/' before anything is appended: it is not empty and
      does not already end in one. */
  predicate NeedsSeparator(a: string)
  {
    a != [] && a[|a| - 1] != '/'
  }

  /** `j` is `a`, then exactly one '/' when `a` needs one (none otherwise),
      then `b`, and nothing else. */
  predicate JoinedUnder(j: string, a: string, b: string)
  {
    var sep := if NeedsSeparator(a) then 1 else 0;
    && |j| == |a| + sep + |b|
    && j[..|a|] == a
    && (sep == 1 ==> j[|a|] == '/')
    && j[|a| + sep..] == b
  }

  /** Two paths that are both `a` joined with `b` are one path. */
  lemma JoinedUnderDetermines(j1: string, j2: string, a: string, b: string)
    requires JoinedUnder(j1, a, b) && JoinedUnder(j2, a, b)
    ensures j1 == j2
  {
    var sep := if NeedsSeparator(a) then 1 else 0;
    forall k | 0 <= k < |j1|
      ensures j1[k] == j2[k]
    {
      if k < |a| {
        assert j1[k] == j1[..|a|][k] && j2[k] == j2[..|a|][k];
      } else if k >= |a| + sep {
        assert j1[k] == j1[|a| + sep..][k - |a| - sep] && j2[k] == j2[|a| + sep..][k - |a| - sep];
      }
    }
  }

  /** A path that merely starts with the directory's name is not joined
      under it: "/outx" is not "outx" joined under "/out". */
  lemma PrefixIsNotJoin()
    ensures !JoinedUnder("/outx", "/out", "outx")
    ensures JoinedUnder("/out/outx", "/out", "outx")
  {
    assert NeedsSeparator("/out");
    assert "/out/outx"[5..] == "outx";
  }

  /** os.path.join of two POSIX path parts: an absolute second part
      replaces the first; otherwise the parts are joined with one '/'
      exactly when the first needs it. */
  function Join(a: string, b: string): (j: string)
    ensures |b| > 0 && b[0] == '/' ==> j == b
    ensures (|b| == 0 || b[0] != '/') ==> JoinedUnder(j, a, b)
  {
    if |b| > 0 && b[0] == '/' then b
    else if !NeedsSeparator(a) then a + b
    else a + "/" + b
  }

  /** A name without '/' is the basename of itself after a separator. */
  lemma BasenameAfterSeparator(a: string, b: string)
    requires a == [] || a[|a| - 1] == '/'
    requires '/' !in b
    ensures Basename(a + b) == b
  {
    SegmentAfterSeparator(a, b);
  }

  lemma {:induction false} SegmentAfterSeparator(a: string, b: string)
    requires a == [] || a[|a| - 1] == '/'
    requires '/' !in b
    ensures LastSegment(a + b) == b
    decreases |b|
  {
    if b != [] {
      var n := |b| - 1;
      assert b[n] in b;
      assert (a + b)[..|a + b| - 1] == a + b[..n];
      SegmentAfterSeparator(a, b[..n]);
      assert b[..n] + [b[n]] == b;
    }
  }

  /** Joining a basename onto a directory keeps the basename. */
  lemma BasenameOfJoin(outdir: string, p: string)
    ensures Basename(Join(outdir, Basename(p))) == Basename(p)
  {
    var b := Basename(p);
    if !NeedsSeparator(outdir) {
      BasenameAfterSeparator(outdir, b);
    } else {
      assert outdir + "/" + b == (outdir + "/") + b;
      BasenameAfterSeparator(outdir + "/", b);
    }
  }

  /** `os.path.join(outdir, os.path.basename(p))`: the basename of `p`
      directly under `outdir`, and so named as `p`. */
  function DestPath(outdir: string, p: string): (d: string)
    ensures '/' !in Basename(p) && JoinedUnder(d, outdir, Basename(p))
    ensures Basename(d) == Basename(p)
  {
    BasenameOfJoin(outdir, p);
    Join(outdir, Basename(p))
  }

  /** dest_ifg_paths: one output path per input, in order, each the
      input's basename directly under `outdir`. */
  function DestIfgPaths(ifgPaths: seq<string>, outdir: string): (dest: seq<string>)
    ensures |dest| == |ifgPaths|
    ensures forall i :: 0 <= i < |ifgPaths| ==>
      JoinedUnder(dest[i], outdir, Basename(ifgPaths[i])) && Basename(dest[i]) == Basename(ifgPaths[i])
  {
    seq(|ifgPaths|, i requires 0 <= i < |ifgPaths| => DestPath(outdir, ifgPaths[i]))
  }
}

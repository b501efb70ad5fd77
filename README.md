# PyRate orbital correction, modelled in Dafny

This project models the orbital-error correction of PyRate, the InSAR
time-series package. The model covers two files.

`pyrate/orbital.py` is the correction engine:
- the parameter count of the PLANAR, QUADRATIC and PART_CUBIC surfaces;
- the per-interferogram design matrix;
- the network design matrix, with one column block per epoch and one offset column per interferogram;
- the independent method, a masked least-squares fit per interferogram, subtracted in place;
- the network method, a joint pseudo-inverse fit over all interferograms or their multilooked copies. The solved vector is cut into per-epoch coefficient blocks. Each interferogram then loses the difference of its slave and master surfaces, and with offsets also the median of what remains.

`pyrate/scripts/run_pyrate.py` contributes the steps around that engine:
- `remove_orbital_error`, with its ORBITAL_ERROR metadata flags and the REMOVED marker;
- `check_orbital_ifgs`;
- the guard and preset branch of `find_reference_pixel`;
- `warp_required`;
- `dest_ifg_paths`.

The model's structure:
- An interferogram is a class. Its phase raster is an `array2<Option<real>>`, where `None` stands for NaN, and it is corrected in place. Its ORBITAL_ERROR flag is a mutable field.
- The design matrices are built into freshly allocated arrays by loops, as the source's slice assignments do.
- Every in-place method is proved against a pure specification function on the flattened raster. The properties the source relies on are lemmas about those functions:
  - the design row evaluates the polynomial;
  - the NaN mask survives a correction;
  - a network row predicts the pair's surface difference;
  - an exact trend is corrected to zero;
  - a corrected set is skipped by the next run.

Modules: `Wrappers`, `Vectors`, `Raster`, `Masking`, `OrbitalModel`, `DesignMatrix`, `NetworkMatrix`, `Correction`, `NetworkCorrection`, `Orbital` (from `pyrate/orbital.py`) and `RunPyrate` (from `pyrate/scripts/run_pyrate.py`).

Two behaviours of the code that a reader might not expect are modelled as written:
- An interferogram whose master and slave epochs coincide does not get a zero row block in the network design matrix. The slave write overwrites the master write, so the block holds +basis alone (`NetworkMatrix.SameEpochRowKeepsSlaveBasis`). Only the trend subtracted afterwards is zero (`NetworkCorrection.SameEpochOrbitIsZero`).
- An empty interferogram list on the network path fails in numpy's `vstack` (a ValueError, `EmptyStack` here) before the network design matrix builder can raise its own "Invalid number of Ifgs".

## Model

| member | source | states |
|---|---|---|
| OrbitalModel.GetNumParams | pyrate/orbital.py:98-113 | 2, 5 or 6 parameters for PLANAR, QUADRATIC or PART_CUBIC, plus one when the offset is on. Any other degree fails with InvalidDegree. The count equals the number of basis terms plus the offset column |
| OrbitalModel.DesignRow | pyrate/orbital.py:202-219 | One design-matrix row has get_num_params entries |
| OrbitalModel.DesignRows | pyrate/orbital.py:192-219 | One row per cell, each get_num_params wide |
| OrbitalModel.DesignRowEvaluatesPolynomial | pyrate/orbital.py:202-219 | A design row times a coefficient vector is the degree's polynomial at (x, y), plus the last coefficient when the offset column is present |
| OrbitalModel.BasisEvaluatesPolynomial | pyrate/orbital.py:202-217 | The polynomial columns times the coefficients equal the polynomial, written out monomial by monomial |
| DesignMatrix.GetDesignMatrix | pyrate/orbital.py:178-221 | Fails with InvalidDegree exactly when the degree is unknown. Otherwise it returns a fresh num_cells × get_num_params array whose row k is the design row of cell k |
| DesignMatrix.FillRow | pyrate/orbital.py:202-219 | Row k receives the terms of the pixel at (x, y), and every other row is unchanged |
| DesignMatrix.DesignRowOfCell | pyrate/orbital.py:193-198 | Pixel (row, col) is design row row * ncols + col, taken at x = col * x_size and y = row * y_size (meshgrid then reshape) |
| DesignMatrix.LastColumnOnesIffOffset | pyrate/orbital.py:218-219 | The last column is all ones exactly when offset is set, on any grid with a cell |
| DesignMatrix.PolynomialColumnsIgnoreOffset | pyrate/orbital.py:202-219 | The offset flag only appends a column of ones. The polynomial columns are the same either way |
| Raster.Flatten | pyrate/orbital.py:125 | `reshape(phase_data, num_cells)` has nrows * ncols entries |
| Raster.FlattenAt | pyrate/orbital.py:125 | The reshape to num_cells puts pixel (r, c) at flat index r * ncols + c |
| Raster.ChunkAt | pyrate/orbital.py:161 | Coefficient block i is model[i * ncoef : i * ncoef + ncoef] |
| Raster.ChunksTile | pyrate/orbital.py:161 | The blocks, concatenated in order, are exactly the first nepochs * ncoef entries of the solved vector |
| Masking.ValidIndices | pyrate/orbital.py:128-130 | The `~isnan` mask: the positions of the non-NaN entries, strictly ascending, with none missing |
| Masking.KeepValid | pyrate/orbital.py:129 | `dm[~isnan(vphase)]`: the rows at the masked positions, in order |
| Masking.ValidValues | pyrate/orbital.py:130 | `vphase[~isnan(vphase)]`: the non-NaN values, in order, each one the value at its masked position |
| Masking.NoNaNKeepsAllValues | pyrate/orbital.py:130 | A vector without NaN is kept whole and in order |
| Correction.MaskedSystem | pyrate/orbital.py:154-156 | One mask, taken from the phase vector, selects matching matrix rows and phase values |
| Correction.Forward | pyrate/orbital.py:134 | `dot(dm, model)`: one modelled value per cell |
| Correction.Subtract | pyrate/orbital.py:135 | `phase -= corr` on the flattened raster keeps its length |
| Correction.SubtractKnown | pyrate/orbital.py:135 | Subtracting a NaN-free correction keeps NaN pixels NaN, creates no NaN, and lowers every other pixel by exactly its correction |
| Correction.SubtractKeepsMask | pyrate/orbital.py:135 | After a NaN-free correction the NaN mask is unchanged |
| Correction.SubtractTwice | pyrate/orbital.py:135 | Two successive corrections equal one correction by their sum, so a second run removes the surface again |
| Correction.SubtractRow | pyrate/orbital.py:135 | In-place subtraction of one row: that row changes cell by cell, NaN-aware, and the other rows stay as they were |
| Correction.SubtractInPlace | pyrate/orbital.py:134-135 | `phase -= correction` in place: the flattened raster becomes the cell-wise NaN-aware difference |
| Correction.IndependentFit | pyrate/orbital.py:128-131 | The solver applied to the masked system yields one coefficient per design-matrix column |
| Correction.IndependentCorrected | pyrate/orbital.py:125-135 | The corrected raster keeps the phase's length |
| Correction.IndependentCorrectionRemovesSurface | pyrate/orbital.py:116-135 | After the independent correction, each valid pixel has lost the fitted polynomial at its (x, y), plus the fitted constant when offset is on. NaN pixels stay NaN |
| Correction.IndependentCorrectionKeepsMask | pyrate/orbital.py:116-135 | The independent correction leaves the set of NaN pixels unchanged |
| Correction.IndependentCorrection | pyrate/orbital.py:116-135 | Fails with InvalidDegree, leaving the phase untouched, exactly when the degree is unknown. Otherwise the phase becomes IndependentCorrected of the old phase |
| NetworkMatrix.Epochs | pyrate/orbital.py:242 | The epochs `get_epoch_count` counts: every master and slave epoch of the set, and nothing else |
| NetworkMatrix.Pairs | pyrate/orbital.py:259-260 | One (master, slave) epoch-index pair per interferogram |
| NetworkMatrix.PairsWellFormed | pyrate/orbital.py:251-260 | Every interferogram's epoch indices fall inside the epoch blocks of the layout |
| NetworkMatrix.OffsetSlot | pyrate/orbital.py:253-266 | Interferogram i's offset column lies inside the matrix when offsets are on, and at most at its right edge otherwise |
| NetworkMatrix.EpochBlockFits | pyrate/orbital.py:253 | Every epoch's column block ends at or before offset_col |
| NetworkMatrix.BlocksDisjoint | pyrate/orbital.py:259-262 | Two distinct epochs own non-overlapping column blocks |
| NetworkMatrix.AssignBlock | pyrate/orbital.py:261-262 | `ndm[r0:r0+h, c0:c0+w] = ±tmp`: the block is written and every other entry is unchanged |
| NetworkMatrix.FillColumn | pyrate/orbital.py:266 | `ndm[rs:rs+h, c] = 1`: those entries become 1 and every other entry is unchanged |
| NetworkMatrix.WriteRows | pyrate/orbital.py:258-266 | One loop iteration: the row block holds -basis at the master block, +basis at the slave block (the later write wins) and a 1 in the offset column. Every other row is unchanged |
| NetworkMatrix.PlaceInterferogram | pyrate/orbital.py:257-266 | Row block i of the matrix holds interferogram i's network entries |
| NetworkMatrix.NetworkAtBlock | pyrate/orbital.py:258 | Network row i * ncells + k is cell k of interferogram i |
| NetworkMatrix.FillNetwork | pyrate/orbital.py:256-266 | The loop over the zeroed matrix yields exactly the network rows of the layout |
| NetworkMatrix.Zeroed | pyrate/orbital.py:248 | `zeros(shape)`: a fresh h × w array of zeros |
| NetworkMatrix.NetworkLayout | pyrate/orbital.py:242-253 | The matrix shape: num_cells * nifgs rows and ncoef * nepochs columns, plus nifgs offset columns when offset is set, with ncoef = get_num_params(degree) without offset |
| NetworkMatrix.NetworkDesignRows | pyrate/orbital.py:242-254 | nifgs * num_cells rows, each ncoef * nepochs (+ nifgs with offset) wide |
| NetworkMatrix.BuildNetwork | pyrate/orbital.py:241-268 | A fresh matrix whose rows are exactly the network design rows of the set |
| NetworkMatrix.GetNetworkDesignMatrix | pyrate/orbital.py:224-268 | InvalidDegree for an unknown degree, else InvalidIfgCount for an empty set, else a fresh matrix equal to the network design rows |
| NetworkMatrix.NetworkRowIsPairRow | pyrate/orbital.py:257-266 | For distinct epochs, a network row is +basis placed at the slave block plus -basis at the master block plus the offset unit |
| NetworkMatrix.DotPairRow | pyrate/orbital.py:261-266 | Such a row times a solution vector is the basis applied to (slave block - master block), plus the interferogram's offset coefficient |
| NetworkMatrix.NetworkRowPredictsPairTrend | pyrate/orbital.py:257-266 | Network row i * ncells + k times a solution vector is pair i's prediction at cell k |
| NetworkMatrix.NetworkRowIsSlaveRow | pyrate/orbital.py:261-262 | When master and slave coincide, the slave write overwrites the master write and the row holds +basis alone |
| NetworkMatrix.SameEpochRowKeepsSlaveBasis | pyrate/orbital.py:261-262 | Such a row predicts that epoch's surface, not a zero difference |
| NetworkCorrection.Stack | pyrate/orbital.py:149-151 | `vstack` of the flattened phases has nifgs * num_cells entries |
| NetworkCorrection.StackAt | pyrate/orbital.py:150 | Stack entry i * ncells + k is cell k of interferogram i |
| NetworkCorrection.NetworkFit | pyrate/orbital.py:154-157 | The pinv solve of the masked network system gives one value per network column |
| NetworkCorrection.SolveNetwork | pyrate/orbital.py:148-157 | Fails with InvalidDegree exactly when the degree is unknown, else returns NetworkFit of the source set |
| NetworkCorrection.PairOrbit | pyrate/orbital.py:167 | `dm.dot(coefs[slave] - coefs[master])`: one value per cell |
| NetworkCorrection.PairsOf | pyrate/orbital.py:160 | The epoch pairs of `ifgs` index epoch blocks of the source layout |
| NetworkCorrection.OrbitsFor | pyrate/orbital.py:166-168 | One trend per interferogram, each one value per cell |
| NetworkCorrection.TrendsFrom | pyrate/orbital.py:159-168 | One trend per interferogram, each over the grid of ifgs[0] |
| NetworkCorrection.NetworkOrbits | pyrate/orbital.py:148-168 | The trends of the fitted vector: one per interferogram, num_cells long |
| NetworkCorrection.MedianOffset | pyrate/orbital.py:173 | `median(tmp[~isnan(tmp)])`: NaN exactly when every pixel is NaN, otherwise the median of the valid values |
| NetworkCorrection.Shifted | pyrate/orbital.py:173 | `orb + median`: one value per cell |
| NetworkCorrection.NetworkCorrected | pyrate/orbital.py:170-175 | The per-interferogram result has the raster's length |
| NetworkCorrection.PairOrbitIsSurfaceDifference | pyrate/orbital.py:163-167 | The trend at cell k is the slave epoch's polynomial minus the master epoch's, at that cell's (x, y) |
| NetworkCorrection.SameEpochOrbitIsZero | pyrate/orbital.py:167 | Identical epochs give a zero trend |
| NetworkCorrection.PairOrbitAntisymmetric | pyrate/orbital.py:167 | Swapping master and slave negates the trend |
| NetworkCorrection.PairOrbitIsNetworkPrediction | pyrate/orbital.py:159-167 | The trend subtracted from interferogram i at cell k is what the fitted network row predicts there, less the interferogram's offset coefficient. The blocks read back are the blocks the matrix placed |
| NetworkCorrection.NetworkCorrectedWithOffset | pyrate/orbital.py:171-173 | With offsets, a valid pixel loses its trend and then the median of the detrended valid pixels. NaN pixels stay NaN |
| NetworkCorrection.AllNaNStaysAllNaN | pyrate/orbital.py:171-173 | With no valid detrended pixel the median is NaN, but the raster was already all NaN and stays unchanged |
| NetworkCorrection.ExactTrendResidue | pyrate/orbital.py:172 | If the phase is its trend plus c, the detrended valid pixels all equal c |
| NetworkCorrection.ExactTrendLeavesZero | pyrate/orbital.py:170-173 | A phase that is exactly its trend plus one constant comes out 0 at every valid pixel and NaN elsewhere, for any median that returns the common value of a constant sample |
| NetworkCorrection.CorrectOne | pyrate/orbital.py:167-175 | One loop body in place: the phase becomes NetworkCorrected of the old phase |
| NetworkCorrection.CorrectEach | pyrate/orbital.py:166-175 | Every interferogram's phase becomes NetworkCorrected of its own old phase and its own trend |
| NetworkCorrection.NetworkTrends | pyrate/orbital.py:148-168 | InvalidDegree exactly for an unknown degree, else the NetworkOrbits of the old state. No phase changes |
| NetworkCorrection.CorrectNetwork | pyrate/orbital.py:148-175 | Fails, with phases untouched, exactly for an unknown degree. Otherwise every phase is corrected by its network trend |
| NetworkCorrection.NetworkCorrection | pyrate/orbital.py:138-175 | EmptyStack for no interferograms, else InvalidDegree; phases untouched on failure. Otherwise each phase loses the trend fitted to the multilooked set (or to `ifgs` itself) |
| NetworkCorrection.Source | pyrate/orbital.py:149 | The set the model is fitted to: the multilooked copies when given, else `ifgs` itself |
| Orbital.All | pyrate/orbital.py:93 | `all(tmp)` holds exactly when every flag does |
| Orbital.HasPhase | pyrate/orbital.py:92 | One flag per element, true exactly for the interferograms |
| Orbital.ValidateMlooked | pyrate/orbital.py:85-95 | Passes exactly when the lengths match and every element is an interferogram. The count error comes first |
| Orbital.Looked | pyrate/orbital.py:74-75 | A validated multilooked set, element by element |
| Orbital.Verdict | pyrate/orbital.py:52-82 | Which error orbital_correction raises, in order, or that it goes ahead: InvalidDegree for an unknown degree, then UnknownMethod for an unknown method; on the network path MismatchedLookCount when the multilooked set has the wrong length, MismatchedLookTypes when it has the right length but holds a non-interferogram, then EmptyStack for no interferograms |
| Orbital.CorrectIndependently | pyrate/orbital.py:77-79 | Every interferogram's phase becomes IndependentCorrected of its own old phase |
| Orbital.OrbitalCorrection | pyrate/orbital.py:52-82 | The outcome is the Verdict; on failure no phase changes. Otherwise each phase is corrected by the chosen method |
| RunPyrate.WarpRequired | pyrate/scripts/run_pyrate.py:273-283 | True exactly when either looks factor exceeds one or a crop other than ALREADY_SAME_SIZE is set |
| RunPyrate.LooksForceWarp | pyrate/scripts/run_pyrate.py:278-279 | Multilooking forces a warp whatever the crop |
| RunPyrate.RemovedCount | pyrate/scripts/run_pyrate.py:180 | The count of REMOVED flags is at most the number of flags |
| RunPyrate.NoneRemoved | pyrate/scripts/run_pyrate.py:180-181 | The count is zero exactly when no flag is REMOVED |
| RunPyrate.AllRemoved | pyrate/scripts/run_pyrate.py:180-181 | The count is the length exactly when every flag is REMOVED |
| RunPyrate.CheckOrbitalIfgs | pyrate/scripts/run_pyrate.py:179-192 | Raises exactly when some flag is REMOVED and some other flag is not |
| RunPyrate.Flags | pyrate/scripts/run_pyrate.py:144 | One ORBITAL_ERROR item per interferogram, in order |
| RunPyrate.Skipped | pyrate/scripts/run_pyrate.py:137-149 | A run returns at once when fitting is off. Otherwise it returns exactly when every flag is present and non-empty |
| RunPyrate.SetFlagsBypassMixedCheck | pyrate/scripts/run_pyrate.py:144-151 | A set flagged REMOVED and another non-empty value is skipped, although the mixed-flag check would reject it |
| RunPyrate.Mlooked | pyrate/scripts/run_pyrate.py:153-160 | Multilooked copies exist exactly when either fitting looks factor exceeds one |
| RunPyrate.MarkRemoved | pyrate/scripts/run_pyrate.py:174-175 | Every flag becomes REMOVED and no phase changes |
| RunPyrate.RemovedIsSkipped | pyrate/scripts/run_pyrate.py:144-151 | An all-REMOVED set is skipped by the next run and passes the mixed-flag check |
| RunPyrate.CorrectAndMark | pyrate/scripts/run_pyrate.py:150-176 | A mixed set raises first, then orbital_correction's verdict decides. Failure leaves flags and phases as they were; success corrects every phase with the offset on and marks every flag REMOVED |
| RunPyrate.RemoveOrbitalError | pyrate/scripts/run_pyrate.py:136-176 | Returns at once when fitting is off or every flag is set. Otherwise as CorrectAndMark, with the multilooked set chosen by the fitting looks. A successful run leaves a set the next run skips |
| RunPyrate.FindReferencePixelAsWritten | pyrate/scripts/run_pyrate.py:195-216 | As written: a preset pixel comes back as (refy, refx) and a computed one as (refx, refy) |
| RunPyrate.AsWrittenOrderDiffers | pyrate/scripts/run_pyrate.py:206-216 | As written, a preset pixel off the diagonal comes back swapped relative to the same pixel computed |
| RunPyrate.FindReferencePixel | pyrate/scripts/run_pyrate.py:195-216 | The bounds are checked x then y. Both branches return (x, y), as the caller at line 65 unpacks it |
| RunPyrate.PresetMatchesComputed | pyrate/scripts/run_pyrate.py:206-216 | Presetting a pixel gives the same answer as computing it |
| RunPyrate.Basename | pyrate/scripts/run_pyrate.py:318 | The basename is the suffix after the last '/' and contains no '/' |
| RunPyrate.LastSegmentIsSuffix | pyrate/scripts/run_pyrate.py:318 | The characters collected back to the last '/' form a separator-free suffix |
| RunPyrate.Join | pyrate/scripts/run_pyrate.py:319 | An absolute second part replaces the first. Otherwise the result is the first part, then exactly one '/' when the first part is non-empty and does not end in '/' (none otherwise), then the second part |
| RunPyrate.JoinedUnderDetermines | pyrate/scripts/run_pyrate.py:319 | That description fixes the joined path: two paths that both meet it are equal |
| RunPyrate.BasenameAfterSeparator | pyrate/scripts/run_pyrate.py:318-319 | A '/'-free name after a separator is its own basename |
| RunPyrate.BasenameOfJoin | pyrate/scripts/run_pyrate.py:318-319 | Joining a basename onto a directory keeps that basename |
| RunPyrate.PrefixIsNotJoin | pyrate/scripts/run_pyrate.py:319 | A path that only starts with the directory's name ("/outx" for "/out") is not a join under it, while "/out/outx" is |
| RunPyrate.DestPath | pyrate/scripts/run_pyrate.py:318-319 | The destination is outdir, then one '/' when outdir needs it, then the input's '/'-free basename, and it has the input's basename |
| RunPyrate.DestIfgPaths | pyrate/scripts/run_pyrate.py:313-319 | One destination per input, in order: element i is input i's basename joined directly under outdir, and has that basename |

## Left out

- The least-squares solver (`scipy.linalg.lstsq`), the pseudo-inverse solve (`pinv(tmp, 1e-6)` then `dot`) and `numpy.median` are function parameters. The model states what the phase becomes for whatever they return. It does not model their numerics, including the 1e-6 singular-value cutoff.
- float32 storage and floating-point rounding are not modelled. Values are exact reals, and NaN is `None`.
- `master_slave_ids` and `get_all_epochs` are not part of this model. The epoch index is a map parameter, required to number the set's epochs one-to-one from 0. The multilooked set and `ifgs` share it and are required to have the same epochs.
- `prepifg.prepare_ifgs` is not part of this model. Its multilooked output is the `resampled` parameter of `RemoveOrbitalError`.
- Deleting the multilooked files with `os.remove`, every logging call and all raster I/O are left out.
- `refpixel.ref_pixel` is not part of this model. Its result is the `computed` parameter of `FindReferencePixel`.
- The rest of `process_ifgs`, the MST, time-series and linear-rate stages are not part of this model.
- Interferograms are required not to share a phase array (`DistinctPhases`). The source does not check this, so the model does not capture aliasing between them.
- NetworkTrends: `get_design_matrix(ifgs[0], degree, offset=False)` on line 164 is taken as its value `DesignRows`, which `DesignMatrix.GetDesignMatrix` is proved to build. The array is not allocated a second time.
- All interferograms of a set are required to share one raster shape (`SameShape`). The source does not check this. With differing cell counts its network loop fails with a numpy broadcast error while filling the matrix (pyrate/orbital.py:261-262). With a shape other than that of ifgs[0], its correction loop fails part-way (pyrate/orbital.py:173, 175), after the earlier interferograms were already corrected. The model does not capture either failure, or the partial correction.
- `offset` is a bool. The source tests `offset is True` in get_num_params and get_design_matrix (pyrate/orbital.py:111, 218), but tests truthiness on the network path (pyrate/orbital.py:171, 245, 265). So a truthy non-bool offset such as 1 drops the offset column on the independent path and keeps the offset on the network path. The model does not capture this difference.
- RemoveOrbitalError: `offset` keeps its default (on), as in the call on lines 162-165. The degree and method parameters arrive already parsed into `Degree` and `Method`.
- Python's truthiness of metadata values is reduced to "present and non-empty" (`Truthy`). The crop option is reduced to ALREADY_SAME_SIZE or another code (`CropOption`).

## Findings

| source | as written | input that shows it | evidently intended | confidence | as-written member | corrected member |
|---|---|---|---|---|---|---|
| pyrate/scripts/run_pyrate.py:206-216 | A preset reference pixel is returned as `(refy, refx)`, but a computed one as `(refx, refy)`, and the caller unpacks `refpx, refpy` | refx = 1, refy = 2 on a 3 × 3 interferogram returns (2, 1). The same pixel computed by `ref_pixel` returns (1, 2) | Both branches return `(refx, refy)` | medium, not executed | RunPyrate.FindReferencePixelAsWritten | RunPyrate.FindReferencePixel |

/** get_network_design_matrix: one row block per interferogram, one column
    block of width ncoef per epoch, and (with offsets) one extra column per
    interferogram. Row block i holds -basis under the master epoch's block,
    +basis under the slave epoch's block and 1 in column nepochs * ncoef + i. */
module NetworkMatrix {
  import opened Wrappers
  import opened Vectors
  import opened Raster
  import opened OrbitalModel
  import opened DesignMatrix

  /** The distinct epochs of a set of interferograms (get_epoch_count counts them). */
  function Epochs(ifgs: seq<Interferogram>): (epochs: set<Epoch>)
    ensures forall i :: 0 <= i < |ifgs| ==> ifgs[i].master in epochs && ifgs[i].slave in epochs
    ensures forall e :: e in epochs ==> exists i :: 0 <= i < |ifgs| && (ifgs[i].master == e || ifgs[i].slave == e)
  {
    (set i | 0 <= i < |ifgs| :: ifgs[i].master) + (set i | 0 <= i < |ifgs| :: ifgs[i].slave)
  }

  /** `ids` (master_slave_ids, not part of this model) numbers the epochs
      one-to-one with 0 .. |epochs| - 1. */
  ghost predicate IsEpochIndex(ids: map<Epoch, nat>, epochs: set<Epoch>)
  {
    && ids.Keys == epochs
    && (forall e :: e in ids ==> ids[e] < |epochs|)
    && (forall e1, e2 :: e1 in ids && e2 in ids && e1 != e2 ==> ids[e1] != ids[e2])
  }

  /** All interferograms share one raster shape. */
  predicate SameShape(ifgs: seq<Interferogram>)
  {
    forall i :: 0 <= i < |ifgs| ==>
      ifgs[i].NRows() == ifgs[0].NRows() && ifgs[i].NCols() == ifgs[0].NCols()
  }

  /** The (master, slave) epoch indices of every interferogram, in order. */
  function Pairs(ifgs: seq<Interferogram>, ids: map<Epoch, nat>): (pairs: seq<(nat, nat)>)
    requires forall i :: 0 <= i < |ifgs| ==> ifgs[i].master in ids && ifgs[i].slave in ids
    ensures |pairs| == |ifgs|
  {
    seq(|ifgs|, i requires 0 <= i < |ifgs| => (ids[ifgs[i].master], ids[ifgs[i].slave]))
  }

  /** The dimensions of a network design matrix. */
  datatype Layout = Layout(ncoef: nat, nepochs: nat, nifgs: nat, ncells: nat, offset: bool) {
    /** offset_col: the first offset column. */
    function OffsetCol(): nat { nepochs * ncoef }

    function Width(): nat { OffsetCol() + (if offset then nifgs else 0) }

    /** One row per cell of every interferogram. */
    function Height(): nat { nifgs * ncells }
  }

  ghost predicate WellFormed(L: Layout, basis: seq<seq<real>>, pairs: seq<(nat, nat)>)
  {
    && |basis| == L.ncells
    && (forall k :: 0 <= k < |basis| ==> |basis[k]| == L.ncoef)
    && |pairs| == L.nifgs
    && (forall i :: 0 <= i < |pairs| ==> pairs[i].0 < L.nepochs && pairs[i].1 < L.nepochs)
  }

  /** Entry `col` of a row that writes -b from column m, then +b from
      column s, then (when `hasOne`) a 1 at column o: a later write wins where
      two land on one entry. */
  function EntryAt(b: seq<real>, m: nat, s: nat, o: nat, hasOne: bool, col: nat): real
  {
    if hasOne && col == o then 1.0
    else if s <= col < s + |b| then b[col - s]
    else if m <= col < m + |b| then -b[col - m]
    else 0.0
  }

  /** Entry `col` of a row of interferogram i whose basis row is `b` and whose
      epoch indices are `p`: the master block, the slave block, the offset. */
  function NetworkEntry(L: Layout, b: seq<real>, p: (nat, nat), i: nat, col: nat): real
    requires |b| == L.ncoef && i < L.nifgs
  {
    EntryAt(b, p.0 * L.ncoef, p.1 * L.ncoef, OffsetSlot(L, i), L.offset, col)
  }

  /** The column of interferogram i's offset coefficient, or the first
      column past the epoch blocks when offsets are not modelled. */
  function OffsetSlot(L: Layout, i: nat): (o: nat)
    requires i < L.nifgs
    ensures o <= L.Width() && (L.offset ==> o < L.Width())
  {
    L.OffsetCol() + (if L.offset then i else 0)
  }

  /** Entry (row, col): row belongs to interferogram row / ncells, at its cell row % ncells. */
  function NetworkAt(L: Layout, basis: seq<seq<real>>, pairs: seq<(nat, nat)>, row: nat, col: nat): real
    requires WellFormed(L, basis, pairs) && row < L.nifgs * L.ncells
  {
    RowMajorSplit(row, L.nifgs, L.ncells);
    NetworkEntry(L, basis[row % L.ncells], pairs[row / L.ncells], row / L.ncells, col)
  }

  function NetworkRows(L: Layout, basis: seq<seq<real>>, pairs: seq<(nat, nat)>): (rows: seq<seq<real>>)
    requires WellFormed(L, basis, pairs)
    ensures |rows| == L.nifgs * L.ncells
    ensures forall row :: 0 <= row < |rows| ==> |rows[row]| == L.Width()
  {
    seq(L.nifgs * L.ncells, row requires 0 <= row < L.nifgs * L.ncells =>
      seq(L.Width(), col requires 0 <= col < L.Width() => NetworkAt(L, basis, pairs, row, col)))
  }

  /** The layout get_network_design_matrix derives from its arguments. */
  function NetworkLayout(ifgs: seq<Interferogram>, degree: Degree, offset: bool): (L: Layout)
    requires degree.IsKnown() && |ifgs| > 0
    ensures L.Height() == ifgs[0].NumCells() * |ifgs|
    ensures L.Width() == GetNumParams(degree, false).value * |Epochs(ifgs)| + (if offset then |ifgs| else 0)
    ensures L.ncoef == GetNumParams(degree, false).value && L.nepochs == |Epochs(ifgs)|
  {
    Layout(GetNumParams(degree, false).value, |Epochs(ifgs)|, |ifgs|, ifgs[0].NumCells(), offset)
  }

  /** numpy's `a[r0:r0+h, c0:c0+w] = b` (or `= -b`) for a block b of shape (h, w). */
  method AssignBlock(a: array2<real>, r0: nat, c0: nat, b: array2<real>, negate: bool)
    requires a != b
    requires r0 + b.Length0 <= a.Length0 && c0 + b.Length1 <= a.Length1
    modifies a
    ensures forall r, c :: 0 <= r < a.Length0 && 0 <= c < a.Length1 ==>
      a[r, c] == if r0 <= r < r0 + b.Length0 && c0 <= c < c0 + b.Length1
                 then (if negate then -b[r - r0, c - c0] else b[r - r0, c - c0])
                 else old(a[r, c])
  {
    for r := 0 to b.Length0
      invariant forall r', c' :: 0 <= r' < a.Length0 && 0 <= c' < a.Length1 ==>
        a[r', c'] == if r0 <= r' < r0 + r && c0 <= c' < c0 + b.Length1
                     then (if negate then -b[r' - r0, c' - c0] else b[r' - r0, c' - c0])
                     else old(a[r', c'])
    {
      for c := 0 to b.Length1
        invariant forall r', c' :: 0 <= r' < a.Length0 && 0 <= c' < a.Length1 ==>
          a[r', c'] == if (r0 <= r' < r0 + r && c0 <= c' < c0 + b.Length1)
                          || (r' == r0 + r && c0 <= c' < c0 + c)
                       then (if negate then -b[r' - r0, c' - c0] else b[r' - r0, c' - c0])
                       else old(a[r', c'])
      {
        a[r0 + r, c0 + c] := if negate then -b[r, c] else b[r, c];
      }
    }
  }

  /** numpy's `a[r0:r0+h, c] = v`. */
  method FillColumn(a: array2<real>, r0: nat, h: nat, c: nat, v: real)
    requires r0 + h <= a.Length0 && c < a.Length1
    modifies a
    ensures forall r, c' :: 0 <= r < a.Length0 && 0 <= c' < a.Length1 ==>
      a[r, c'] == if r0 <= r < r0 + h && c' == c then v else old(a[r, c'])
  {
    for r := 0 to h
      invariant forall r', c' :: 0 <= r' < a.Length0 && 0 <= c' < a.Length1 ==>
        a[r', c'] == if r0 <= r' < r0 + r && c' == c then v else old(a[r', c'])
    {
      a[r0 + r, c] := v;
    }
  }

  /** The three writes of one iteration of the source's loop, with the
      column offsets as plain numbers: -tmp at column m, tmp at column s and,
      when `hasOne`, ones down column o, into rows rs.. that are still zero. */
  method WriteRows(ndm: array2<real>, tmp: array2<real>, ghost basis: seq<seq<real>>,
                   m: nat, s: nat, o: nat, hasOne: bool, rs: nat)
    requires ndm != tmp && Rows(tmp) == basis
    requires m + tmp.Length1 <= ndm.Length1 && s + tmp.Length1 <= ndm.Length1 && (hasOne ==> o < ndm.Length1)
    requires rs + tmp.Length0 <= ndm.Length0
    requires forall row, col :: rs <= row < rs + tmp.Length0 && 0 <= col < ndm.Length1 ==> ndm[row, col] == 0.0
    modifies ndm
    ensures forall row, col :: rs <= row < rs + tmp.Length0 && 0 <= col < ndm.Length1 ==>
      ndm[row, col] == EntryAt(basis[row - rs], m, s, o, hasOne, col)
    ensures forall row, col :: 0 <= row < ndm.Length0 && !(rs <= row < rs + tmp.Length0) && 0 <= col < ndm.Length1 ==>
      ndm[row, col] == old(ndm[row, col])
  {
    AssignBlock(ndm, rs, m, tmp, true);
    AssignBlock(ndm, rs, s, tmp, false);
    if hasOne {
      FillColumn(ndm, rs, tmp.Length0, o, 1.0);
    }
    forall row, col | rs <= row < rs + tmp.Length0 && 0 <= col < ndm.Length1
      ensures ndm[row, col] == EntryAt(basis[row - rs], m, s, o, hasOne, col)
    {
      var k := row - rs;
      assert forall j :: 0 <= j < tmp.Length1 ==> tmp[k, j] == basis[k][j];
    }
  }

  /** Row block `rs` of interferogram i, epoch indices p: the three writes of
      one iteration of the source's loop, into a block that is still zero. */
  method PlaceInterferogram(ndm: array2<real>, tmp: array2<real>, L: Layout,
                            ghost basis: seq<seq<real>>, p: (nat, nat), i: nat, rs: nat)
    requires ndm != tmp && Rows(tmp) == basis
    requires tmp.Length0 == L.ncells && tmp.Length1 == L.ncoef
    requires ndm.Length1 == L.Width() && rs + L.ncells <= ndm.Length0
    requires p.0 < L.nepochs && p.1 < L.nepochs && i < L.nifgs
    requires forall row, col :: rs <= row < rs + L.ncells && 0 <= col < ndm.Length1 ==> ndm[row, col] == 0.0
    modifies ndm
    ensures forall row, col :: rs <= row < rs + L.ncells && 0 <= col < ndm.Length1 ==>
      ndm[row, col] == NetworkEntry(L, basis[row - rs], p, i, col)
    ensures forall row, col :: 0 <= row < ndm.Length0 && !(rs <= row < rs + L.ncells) && 0 <= col < ndm.Length1 ==>
      ndm[row, col] == old(ndm[row, col])
  {
    EpochBlockFits(L, p.0);
    EpochBlockFits(L, p.1);
    WriteRows(ndm, tmp, basis, p.0 * L.ncoef, p.1 * L.ncoef, OffsetSlot(L, i), L.offset, rs);
  }

  /** Row i * ncells + k of the network matrix is cell k of interferogram i. */
  lemma NetworkAtBlock(L: Layout, basis: seq<seq<real>>, pairs: seq<(nat, nat)>, i: nat, k: nat, col: nat)
    requires WellFormed(L, basis, pairs) && i < L.nifgs && k < L.ncells
    ensures i * L.ncells + k < L.nifgs * L.ncells
    ensures NetworkAt(L, basis, pairs, i * L.ncells + k, col) == NetworkEntry(L, basis[k], pairs[i], i, col)
  {
    RowMajorBound(i, k, L.nifgs, L.ncells);
    RowMajorJoin(i, k, L.ncells);
  }

  lemma NetworkRowsFromCells(ndm: array2<real>, L: Layout, basis: seq<seq<real>>, pairs: seq<(nat, nat)>)
    requires WellFormed(L, basis, pairs)
    requires ndm.Length0 == L.nifgs * L.ncells && ndm.Length1 == L.Width()
    requires forall row, col :: 0 <= row < ndm.Length0 && 0 <= col < ndm.Length1 ==>
      ndm[row, col] == NetworkAt(L, basis, pairs, row, col)
    ensures Rows(ndm) == NetworkRows(L, basis, pairs)
  {
    RowsFromCells(ndm, NetworkRows(L, basis, pairs));
  }

  /** The epoch indices of every interferogram fall inside the epoch blocks. */
  lemma PairsWellFormed(ifgs: seq<Interferogram>, degree: Degree, offset: bool, ids: map<Epoch, nat>)
    requires degree.IsKnown() && |ifgs| > 0
    requires IsEpochIndex(ids, Epochs(ifgs))
    ensures WellFormed(NetworkLayout(ifgs, degree, offset), DesignRows(ifgs[0].Geometry(), degree, false), Pairs(ifgs, ids))
  {
    forall i | 0 <= i < |ifgs|
      ensures ifgs[i].master in ids && ifgs[i].slave in ids
    {
      assert ifgs[i].master in Epochs(ifgs);
      assert ifgs[i].slave in Epochs(ifgs);
    }
  }

  /** The rows get_network_design_matrix builds for `ifgs`: the layout they
      derive, the design matrix of ifgs[0] without offset, their epoch pairs. */
  function NetworkDesignRows(ifgs: seq<Interferogram>, degree: Degree, offset: bool, ids: map<Epoch, nat>)
    : (rows: seq<seq<real>>)
    requires degree.IsKnown() && |ifgs| > 0 && IsEpochIndex(ids, Epochs(ifgs))
    ensures |rows| == |ifgs| * ifgs[0].NumCells()
    ensures forall row :: 0 <= row < |rows| ==> |rows[row]| == NetworkLayout(ifgs, degree, offset).Width()
  {
    PairsWellFormed(ifgs, degree, offset, ids);
    NetworkRows(NetworkLayout(ifgs, degree, offset), DesignRows(ifgs[0].Geometry(), degree, false), Pairs(ifgs, ids))
  }

  lemma BlockFits(i: nat, n: nat, size: nat)
    requires i < n
    ensures (i + 1) * size == i * size + size && i * size + size <= n * size
  {
    MulMono(i + 1, n, size);
  }

  /** The loop of get_network_design_matrix over a zeroed matrix: row block i
      receives the writes of interferogram i. */
  method FillNetwork(ndm: array2<real>, tmp: array2<real>, L: Layout,
                     ghost basis: seq<seq<real>>, pairs: seq<(nat, nat)>)
    requires ndm != tmp && Rows(tmp) == basis && WellFormed(L, basis, pairs)
    requires tmp.Length0 == L.ncells && tmp.Length1 == L.ncoef
    requires ndm.Length0 == L.nifgs * L.ncells && ndm.Length1 == L.Width()
    requires forall row, col :: 0 <= row < ndm.Length0 && 0 <= col < ndm.Length1 ==> ndm[row, col] == 0.0
    modifies ndm
    ensures Rows(ndm) == NetworkRows(L, basis, pairs)
  {
    var ncells := L.ncells;
    var rs := 0;
    for i := 0 to L.nifgs
      invariant rs == i * ncells && rs <= ndm.Length0
      invariant forall row, col :: 0 <= row < rs && 0 <= col < ndm.Length1 ==>
        ndm[row, col] == NetworkAt(L, basis, pairs, row, col)
      invariant forall row, col :: rs <= row < ndm.Length0 && 0 <= col < ndm.Length1 ==>
        ndm[row, col] == 0.0
    {
      BlockFits(i, L.nifgs, ncells);
      PlaceInterferogram(ndm, tmp, L, basis, pairs[i], i, rs);
      forall row, col | rs <= row < rs + ncells && 0 <= col < ndm.Length1
        ensures ndm[row, col] == NetworkAt(L, basis, pairs, row, col)
      {
        NetworkAtBlock(L, basis, pairs, i, row - rs, col);
      }
      rs := rs + ncells;
    }
    NetworkRowsFromCells(ndm, L, basis, pairs);
  }

  /** Builds the network design matrix of `ifgs`. Raises InvalidDegree for an
      unknown degree, then InvalidIfgCount for an empty set. */
  method GetNetworkDesignMatrix(ifgs: seq<Interferogram>, degree: Degree, offset: bool, ids: map<Epoch, nat>)
    returns (r: Result<array2<real>, OrbitalError>)
    requires SameShape(ifgs)
    requires IsEpochIndex(ids, Epochs(ifgs))
    ensures r.Failure? <==> !degree.IsKnown() || |ifgs| == 0
    ensures r.Failure? ==> r.error == if !degree.IsKnown() then InvalidDegree else InvalidIfgCount
    ensures r.Success? ==> fresh(r.value)
    ensures r.Success? ==> Rows(r.value) == NetworkDesignRows(ifgs, degree, offset, ids)
  {
    if !degree.IsKnown() {
      return Failure(InvalidDegree);
    }
    var nifgs := |ifgs|;
    if nifgs < 1 {
      return Failure(InvalidIfgCount);
    }
    var ndm := BuildNetwork(ifgs, degree, offset, ids);
    return Success(ndm);
  }

  /** `np.zeros((h, w))`. */
  method Zeroed(h: nat, w: nat) returns (a: array2<real>)
    ensures fresh(a) && a.Length0 == h && a.Length1 == w
    ensures forall row, col :: 0 <= row < h && 0 <= col < w ==> a[row, col] == 0.0
  {
    a := new real[h, w]((_, _) => 0.0);
  }

  /** The body of get_network_design_matrix past its checks: a zeroed
      matrix of the network layout, the design matrix of ifgs[0] without
      offset, and the loop that places it once per interferogram. */
  method BuildNetwork(ifgs: seq<Interferogram>, degree: Degree, offset: bool, ids: map<Epoch, nat>)
    returns (ndm: array2<real>)
    requires degree.IsKnown() && |ifgs| > 0 && IsEpochIndex(ids, Epochs(ifgs))
    ensures fresh(ndm)
    ensures Rows(ndm) == NetworkDesignRows(ifgs, degree, offset, ids)
  {
    var L := NetworkLayout(ifgs, degree, offset);
    ghost var basis := DesignRows(ifgs[0].Geometry(), degree, false);
    var pairs := Pairs(ifgs, ids);
    ndm := Zeroed(L.Height(), L.Width());
    var tmpR := GetDesignMatrix(ifgs[0], degree, false);
    var tmp := tmpR.value;
    PairsWellFormed(ifgs, degree, offset, ids);
    FillNetwork(ndm, tmp, L, basis, pairs);
  }

  /** Two distinct epochs own disjoint column blocks, both left of the offset columns. */
  lemma BlocksDisjoint(L: Layout, p: (nat, nat))
    requires p.0 < L.nepochs && p.1 < L.nepochs && p.0 != p.1
    ensures p.0 * L.ncoef + L.ncoef <= L.OffsetCol() && p.1 * L.ncoef + L.ncoef <= L.OffsetCol()
    ensures p.0 * L.ncoef + L.ncoef <= p.1 * L.ncoef || p.1 * L.ncoef + L.ncoef <= p.0 * L.ncoef
  {
    EpochBlockFits(L, p.0);
    EpochBlockFits(L, p.1);
    if p.0 < p.1 {
      BlockBefore(p.0, p.1, L.ncoef);
    } else {
      BlockBefore(p.1, p.0, L.ncoef);
    }
  }

  /** Block a ends where block a + 1 starts, at or before block b when a < b. */
  lemma BlockBefore(a: nat, b: nat, n: nat)
    requires a < b
    ensures a * n + n <= b * n
  {
    MulMono(a + 1, b, n);
  }

  /** A row of width W holding +b from column s, -b from column m and, when
      `hasOne`, a 1 at column o. */
  function PlacedPair(b: seq<real>, m: nat, s: nat, o: nat, W: nat, hasOne: bool): (w: seq<real>)
    requires m + |b| <= o && s + |b| <= o && o <= W && (hasOne ==> o < W)
    ensures |w| == W
  {
    Add(Add(Place(b, s, W), Place(Neg(b), m, W)), if hasOne then Place([1.0], o, W) else Zeros(W))
  }

  /** What such a row predicts against a solution vector: b applied to the
      block at s minus the block at m, plus the entry at o when `hasOne`. */
  function PlacedPairDot(b: seq<real>, m: nat, s: nat, o: nat, hasOne: bool, model: seq<real>): real
    requires m + |b| <= o && s + |b| <= o && o <= |model| && (hasOne ==> o < |model|)
  {
    Dot(b, Sub(model[s..s + |b|], model[m..m + |b|])) + (if hasOne then model[o] else 0.0)
  }

  /** The rows of a pair of distinct epochs: +basis placed at the slave block,
      -basis placed at the master block, and a 1 in the offset column. */
  function PairRow(L: Layout, b: seq<real>, p: (nat, nat), i: nat): (w: seq<real>)
    requires |b| == L.ncoef && p.0 < L.nepochs && p.1 < L.nepochs && p.0 != p.1 && i < L.nifgs
    ensures |w| == L.Width()
  {
    BlocksDisjoint(L, p);
    PlacedPair(b, p.0 * L.ncoef, p.1 * L.ncoef, OffsetSlot(L, i), L.Width(), L.offset)
  }

  /** Entry `col` of a placed pair row, with the block offsets as plain numbers. */
  lemma EntryOfPlacedBlocks(b: seq<real>, m: nat, s: nat, o: nat, W: nat, hasOne: bool, col: nat)
    requires m + |b| <= o && s + |b| <= o && o <= W && (hasOne ==> o < W) && col < W
    requires m + |b| <= s || s + |b| <= m
    ensures PlacedPair(b, m, s, o, W, hasOne)[col] == EntryAt(b, m, s, o, hasOne, col)
  {
    PlaceAt(b, s, W, col);
    PlaceAt(Neg(b), m, W, col);
    if hasOne {
      PlaceAt([1.0], o, W, col);
    }
  }

  lemma EntryOfPairRow(L: Layout, b: seq<real>, p: (nat, nat), i: nat, col: nat)
    requires |b| == L.ncoef && p.0 < L.nepochs && p.1 < L.nepochs && p.0 != p.1 && i < L.nifgs
    requires col < L.Width()
    ensures NetworkEntry(L, b, p, i, col) == PairRow(L, b, p, i)[col]
  {
    var m, s, o := p.0 * L.ncoef, p.1 * L.ncoef, OffsetSlot(L, i);
    BlocksDisjoint(L, p);
    assert PairRow(L, b, p, i) == PlacedPair(b, m, s, o, L.Width(), L.offset);
    assert NetworkEntry(L, b, p, i, col) == EntryAt(b, m, s, o, L.offset, col);
    EntryOfPlacedBlocks(b, m, s, o, L.Width(), L.offset, col);
  }

  lemma NetworkRowIsPairRow(L: Layout, basis: seq<seq<real>>, pairs: seq<(nat, nat)>, i: nat, k: nat)
    requires WellFormed(L, basis, pairs) && i < L.nifgs && k < L.ncells
    requires pairs[i].0 != pairs[i].1
    ensures i * L.ncells + k < L.nifgs * L.ncells
    ensures NetworkRows(L, basis, pairs)[i * L.ncells + k] == PairRow(L, basis[k], pairs[i], i)
  {
    NetworkAtBlock(L, basis, pairs, i, k, 0);
    var row := NetworkRows(L, basis, pairs)[i * L.ncells + k];
    forall col | 0 <= col < L.Width()
      ensures row[col] == PairRow(L, basis[k], pairs[i], i)[col]
    {
      NetworkAtBlock(L, basis, pairs, i, k, col);
      EntryOfPairRow(L, basis[k], pairs[i], i, col);
    }
  }

  /** The dot product of a placed pair row with a solution vector, with the
      block offsets as plain numbers. */
  lemma DotPlacedBlocks(b: seq<real>, m: nat, s: nat, o: nat, W: nat, hasOne: bool, model: seq<real>)
    requires m + |b| <= o && s + |b| <= o && o <= W && (hasOne ==> o < W) && |model| == W
    ensures Dot(PlacedPair(b, m, s, o, W, hasOne), model) == PlacedPairDot(b, m, s, o, hasOne, model)
  {
    var one := if hasOne then Place([1.0], o, W) else Zeros(W);
    DotAdd(Add(Place(b, s, W), Place(Neg(b), m, W)), one, model);
    DotPlacedDifference(b, m, s, W, model);
    DotPlacedOne(o, W, hasOne, model);
  }

  /** +b at column s and -b at column m, against a solution vector. */
  lemma DotPlacedDifference(b: seq<real>, m: nat, s: nat, W: nat, model: seq<real>)
    requires m + |b| <= W && s + |b| <= W && |model| == W
    ensures Dot(Add(Place(b, s, W), Place(Neg(b), m, W)), model)
         == Dot(b, Sub(model[s..s + |b|], model[m..m + |b|]))
  {
    DotAdd(Place(b, s, W), Place(Neg(b), m, W), model);
    DotPlace(b, s, W, model);
    DotPlace(Neg(b), m, W, model);
    DotNeg(b, model[m..m + |b|]);
    DotSub(b, model[s..s + |b|], model[m..m + |b|]);
  }

  lemma DotPlacedOne(o: nat, W: nat, hasOne: bool, model: seq<real>)
    requires o <= W && (hasOne ==> o < W) && |model| == W
    ensures Dot(if hasOne then Place([1.0], o, W) else Zeros(W), model) == if hasOne then model[o] else 0.0
  {
    if hasOne {
      DotPlace([1.0], o, W, model);
      assert model[o..o + 1] == [model[o]];
    } else {
      DotZeros(W, model);
    }
  }

  /** What a pair of distinct epochs predicts for one cell: the basis row
      applied to the slave epoch's coefficients minus the master epoch's,
      plus the interferogram's own offset coefficient when there is one. */
  function PairPrediction(L: Layout, b: seq<real>, p: (nat, nat), i: nat, model: seq<real>): real
    requires |b| == L.ncoef && p.0 < L.nepochs && p.1 < L.nepochs && p.0 != p.1 && i < L.nifgs
    requires |model| == L.Width()
  {
    BlocksDisjoint(L, p);
    PlacedPairDot(b, p.0 * L.ncoef, p.1 * L.ncoef, OffsetSlot(L, i), L.offset, model)
  }

  lemma DotPairRow(L: Layout, b: seq<real>, p: (nat, nat), i: nat, model: seq<real>)
    requires |b| == L.ncoef && p.0 < L.nepochs && p.1 < L.nepochs && p.0 != p.1 && i < L.nifgs
    requires |model| == L.Width()
    ensures Dot(PairRow(L, b, p, i), model) == PairPrediction(L, b, p, i, model)
  {
    var m, s, o := p.0 * L.ncoef, p.1 * L.ncoef, OffsetSlot(L, i);
    BlocksDisjoint(L, p);
    assert PairRow(L, b, p, i) == PlacedPair(b, m, s, o, L.Width(), L.offset);
    assert PairPrediction(L, b, p, i, model) == PlacedPairDot(b, m, s, o, L.offset, model);
    DotPlacedBlocks(b, m, s, o, L.Width(), L.offset, model);
  }

  /** Row i * ncells + k times a solution vector is the pair's prediction at
      cell k: the matrix encodes the difference of the two epochs' surfaces. */
  lemma NetworkRowPredictsPairTrend(L: Layout, basis: seq<seq<real>>, pairs: seq<(nat, nat)>,
                                    i: nat, k: nat, model: seq<real>)
    requires WellFormed(L, basis, pairs) && i < L.nifgs && k < L.ncells && |model| == L.Width()
    requires pairs[i].0 != pairs[i].1
    ensures i * L.ncells + k < L.nifgs * L.ncells
    ensures Dot(NetworkRows(L, basis, pairs)[i * L.ncells + k], model)
         == PairPrediction(L, basis[k], pairs[i], i, model)
  {
    NetworkRowIsPairRow(L, basis, pairs, i, k);
    DotPairRow(L, basis[k], pairs[i], i, model);
  }

  /** A row of width W holding b from column s and, when `hasOne`, a 1 at column o. */
  function PlacedOne(b: seq<real>, s: nat, o: nat, W: nat, hasOne: bool): (w: seq<real>)
    requires s + |b| <= o && o <= W && (hasOne ==> o < W)
    ensures |w| == W
  {
    Add(Place(b, s, W), if hasOne then Place([1.0], o, W) else Zeros(W))
  }

  /** What such a row predicts against a solution vector. */
  function PlacedOneDot(b: seq<real>, s: nat, o: nat, hasOne: bool, model: seq<real>): real
    requires s + |b| <= o && o <= |model| && (hasOne ==> o < |model|)
  {
    Dot(b, model[s..s + |b|]) + (if hasOne then model[o] else 0.0)
  }

  /** Entry `col` of a row holding b from s: the master and slave writes land
      on the same block and the slave one is kept. */
  lemma EntryOfPlacedBlock(b: seq<real>, s: nat, o: nat, W: nat, hasOne: bool, col: nat)
    requires s + |b| <= o && o <= W && (hasOne ==> o < W) && col < W
    ensures PlacedOne(b, s, o, W, hasOne)[col] == EntryAt(b, s, s, o, hasOne, col)
  {
    PlaceAt(b, s, W, col);
    if hasOne {
      PlaceAt([1.0], o, W, col);
    }
  }

  /** Every epoch's column block lies left of the offset columns. */
  lemma EpochBlockFits(L: Layout, e: nat)
    requires e < L.nepochs
    ensures e * L.ncoef + L.ncoef <= L.OffsetCol()
  {
    BlockBefore(e, L.nepochs, L.ncoef);
  }

  /** The rows of an interferogram whose two epochs coincide: +basis placed at
      that epoch's block, and a 1 in the offset column. */
  function SlaveRow(L: Layout, b: seq<real>, e: nat, i: nat): (w: seq<real>)
    requires |b| == L.ncoef && e < L.nepochs && i < L.nifgs
    ensures |w| == L.Width()
  {
    EpochBlockFits(L, e);
    PlacedOne(b, e * L.ncoef, OffsetSlot(L, i), L.Width(), L.offset)
  }

  /** What such an interferogram predicts for one cell: the basis row applied
      to that epoch's coefficients, plus its offset coefficient. */
  function SlavePrediction(L: Layout, b: seq<real>, e: nat, i: nat, model: seq<real>): real
    requires |b| == L.ncoef && e < L.nepochs && i < L.nifgs && |model| == L.Width()
  {
    EpochBlockFits(L, e);
    PlacedOneDot(b, e * L.ncoef, OffsetSlot(L, i), L.offset, model)
  }

  lemma EntryOfSlaveRow(L: Layout, b: seq<real>, e: nat, i: nat, col: nat)
    requires |b| == L.ncoef && e < L.nepochs && i < L.nifgs && col < L.Width()
    ensures NetworkEntry(L, b, (e, e), i, col) == SlaveRow(L, b, e, i)[col]
  {
    var s, o := e * L.ncoef, OffsetSlot(L, i);
    EpochBlockFits(L, e);
    assert SlaveRow(L, b, e, i) == PlacedOne(b, s, o, L.Width(), L.offset);
    assert NetworkEntry(L, b, (e, e), i, col) == EntryAt(b, s, s, o, L.offset, col);
    EntryOfPlacedBlock(b, s, o, L.Width(), L.offset, col);
  }

  lemma NetworkRowIsSlaveRow(L: Layout, basis: seq<seq<real>>, pairs: seq<(nat, nat)>, i: nat, k: nat)
    requires WellFormed(L, basis, pairs) && i < L.nifgs && k < L.ncells
    requires pairs[i].0 == pairs[i].1
    ensures i * L.ncells + k < L.nifgs * L.ncells
    ensures NetworkRows(L, basis, pairs)[i * L.ncells + k] == SlaveRow(L, basis[k], pairs[i].1, i)
  {
    NetworkAtBlock(L, basis, pairs, i, k, 0);
    var row := NetworkRows(L, basis, pairs)[i * L.ncells + k];
    forall col | 0 <= col < L.Width()
      ensures row[col] == SlaveRow(L, basis[k], pairs[i].1, i)[col]
    {
      NetworkAtBlock(L, basis, pairs, i, k, col);
      EntryOfSlaveRow(L, basis[k], pairs[i].1, i, col);
    }
  }

  /** The dot product of a placed single-block row with a solution vector. */
  lemma DotPlacedBlock(b: seq<real>, s: nat, o: nat, W: nat, hasOne: bool, model: seq<real>)
    requires s + |b| <= o && o <= W && (hasOne ==> o < W) && |model| == W
    ensures Dot(PlacedOne(b, s, o, W, hasOne), model) == PlacedOneDot(b, s, o, hasOne, model)
  {
    DotAdd(Place(b, s, W), if hasOne then Place([1.0], o, W) else Zeros(W), model);
    DotPlace(b, s, W, model);
    DotPlacedOne(o, W, hasOne, model);
  }

  lemma DotSlaveRow(L: Layout, b: seq<real>, e: nat, i: nat, model: seq<real>)
    requires |b| == L.ncoef && e < L.nepochs && i < L.nifgs && |model| == L.Width()
    ensures Dot(SlaveRow(L, b, e, i), model) == SlavePrediction(L, b, e, i, model)
  {
    var s, o := e * L.ncoef, OffsetSlot(L, i);
    EpochBlockFits(L, e);
    assert SlaveRow(L, b, e, i) == PlacedOne(b, s, o, L.Width(), L.offset);
    assert SlavePrediction(L, b, e, i, model) == PlacedOneDot(b, s, o, L.offset, model);
    DotPlacedBlock(b, s, o, L.Width(), L.offset, model);
  }

  /** An interferogram whose two epochs coincide: the slave write overwrites
      the master write, so its rows hold +basis alone in that epoch's block
      and predict that epoch's surface rather than a zero difference. */
  lemma SameEpochRowKeepsSlaveBasis(L: Layout, basis: seq<seq<real>>, pairs: seq<(nat, nat)>,
                                    i: nat, k: nat, model: seq<real>)
    requires WellFormed(L, basis, pairs) && i < L.nifgs && k < L.ncells && |model| == L.Width()
    requires pairs[i].0 == pairs[i].1
    ensures i * L.ncells + k < L.nifgs * L.ncells
    ensures Dot(NetworkRows(L, basis, pairs)[i * L.ncells + k], model)
         == SlavePrediction(L, basis[k], pairs[i].1, i, model)
  {
    NetworkRowIsSlaveRow(L, basis, pairs, i, k);
    DotSlaveRow(L, basis[k], pairs[i].1, i, model);
  }
}

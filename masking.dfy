/** NaN masking, as numpy's boolean indexing `a[~isnan(vphase)]` does it:
    the same mask, taken from the phase vector, selects rows of the design
    matrix and entries of the phase vector alike. A NaN is `None`. */
module Masking {
  import opened Wrappers

  /** The positions of the non-NaN entries of `v`, in ascending order. */
  function ValidIndices(v: seq<Option<real>>): (idx: seq<nat>)
    ensures forall j :: 0 <= j < |idx| ==> idx[j] < |v| && v[idx[j]].Some?
    ensures forall i, j :: 0 <= i < j < |idx| ==> idx[i] < idx[j]
    ensures forall k :: 0 <= k < |v| && v[k].Some? ==> k in idx
    decreases |v|
  {
    if v == [] then []
    else
      var n := |v| - 1;
      ValidIndices(v[..n]) + (if v[n].Some? then [n] else [])
  }

  /** The entries of `xs` at the non-NaN positions of `v`, in order. */
  function KeepValid<T>(xs: seq<T>, v: seq<Option<real>>): (kept: seq<T>)
    requires |xs| == |v|
    ensures |kept| == |ValidIndices(v)|
    ensures forall j :: 0 <= j < |kept| ==> kept[j] == xs[ValidIndices(v)[j]]
    decreases |v|
  {
    if v == [] then []
    else
      var n := |v| - 1;
      KeepValid(xs[..n], v[..n]) + (if v[n].Some? then [xs[n]] else [])
  }

  /** The non-NaN phase values of `v`, in order. */
  function ValidValues(v: seq<Option<real>>): (vals: seq<real>)
    ensures |vals| == |ValidIndices(v)|
    ensures forall j :: 0 <= j < |vals| ==> Some(vals[j]) == v[ValidIndices(v)[j]]
    decreases |v|
  {
    if v == [] then []
    else
      var n := |v| - 1;
      ValidValues(v[..n]) + (if v[n].Some? then [v[n].value] else [])
  }

  /** A raster with no NaN gives back all its values, in order. */
  lemma {:induction false} NoNaNKeepsAllValues(v: seq<Option<real>>)
    requires forall k :: 0 <= k < |v| ==> v[k].Some?
    ensures |ValidValues(v)| == |v|
    ensures forall k :: 0 <= k < |v| ==> Some(ValidValues(v)[k]) == v[k]
    decreases |v|
  {
    if v != [] {
      var n := |v| - 1;
      NoNaNKeepsAllValues(v[..n]);
      assert ValidValues(v) == ValidValues(v[..n]) + [v[n].value];
    }
  }
}

/** Row-major flattening of 2-D rasters, as numpy's `reshape` does for a
    C-ordered array: flat index k stands for row k / ncols, column k % ncols. */
module Raster {

  /** A flat index below nrows * ncols names a cell inside the grid. */
  lemma RowMajorSplit(k: int, nrows: nat, ncols: nat)
    requires 0 <= k < nrows * ncols
    ensures ncols > 0 && 0 <= k / ncols < nrows && 0 <= k % ncols < ncols
    ensures k == (k / ncols) * ncols + k % ncols
  {
    if k / ncols >= nrows {
      assert (k / ncols) * ncols >= nrows * ncols by { MulMono(nrows, k / ncols, ncols); }
    }
  }

  /** Cell (r, c) has flat index r * ncols + c, and that index splits back into (r, c). */
  lemma RowMajorJoin(r: nat, c: nat, ncols: nat)
    requires c < ncols
    ensures (r * ncols + c) / ncols == r && (r * ncols + c) % ncols == c
  {
    var k := r * ncols + c;
    var q, m := k / ncols, k % ncols;
    assert k == q * ncols + m;
    if q < r {
      MulMono(q + 1, r, ncols);
      assert false;
    } else if q > r {
      MulMono(r + 1, q, ncols);
      assert false;
    }
  }

  lemma MulMono(a: int, b: int, c: nat)
    requires a <= b
    ensures a * c <= b * c
  {
    assert b * c - a * c == (b - a) * c;
  }

  /** The row r * ncols + c of a cell lies inside the flattened grid. */
  lemma RowMajorBound(r: nat, c: nat, nrows: nat, ncols: nat)
    requires r < nrows && c < ncols
    ensures r * ncols + c < nrows * ncols
  {
    MulMono(r + 1, nrows, ncols);
  }

  /** numpy's `reshape(a, num_cells)`: the cells of `a` in row-major order. */
  function Flatten<T>(a: array2<T>): (v: seq<T>)
    reads a
    ensures |v| == a.Length0 * a.Length1
  {
    seq(a.Length0 * a.Length1, k requires 0 <= k < a.Length0 * a.Length1 reads a =>
      RowMajorSplit(k, a.Length0, a.Length1);
      a[k / a.Length1, k % a.Length1])
  }

  lemma FlattenAt<T>(a: array2<T>, r: nat, c: nat)
    requires r < a.Length0 && c < a.Length1
    ensures r * a.Length1 + c < |Flatten(a)| && Flatten(a)[r * a.Length1 + c] == a[r, c]
  {
    RowMajorBound(r, c, a.Length0, a.Length1);
    RowMajorJoin(r, c, a.Length1);
  }

  /** The rows of a 2-D array, each as a sequence. */
  function Rows(a: array2<real>): (rows: seq<seq<real>>)
    reads a
    ensures |rows| == a.Length0
    ensures forall k :: 0 <= k < a.Length0 ==> |rows[k]| == a.Length1
  {
    seq(a.Length0, r requires 0 <= r < a.Length0 reads a =>
      seq(a.Length1, c requires 0 <= c < a.Length1 reads a => a[r, c]))
  }

  lemma RowsFromCells(a: array2<real>, rows: seq<seq<real>>)
    requires |rows| == a.Length0
    requires forall r :: 0 <= r < |rows| ==> |rows[r]| == a.Length1
    requires forall r, c :: 0 <= r < a.Length0 && 0 <= c < a.Length1 ==> a[r, c] == rows[r][c]
    ensures Rows(a) == rows
  {
    forall r | 0 <= r < a.Length0
      ensures Rows(a)[r] == rows[r]
    {
    }
  }

  /** A row-major vector cut into n consecutive pieces of width w (numpy's
      `[v[i:i+w] for i in range(0, n * w, w)]`, or a reshape to (n, w)). */
  function Chunks<T>(v: seq<T>, n: nat, w: nat): (rows: seq<seq<T>>)
    requires n * w <= |v|
    ensures |rows| == n
    ensures forall i :: 0 <= i < n ==> |rows[i]| == w
  {
    seq(n, i requires 0 <= i < n => Chunk(v, n, w, i))
  }

  function Chunk<T>(v: seq<T>, n: nat, w: nat, i: nat): (c: seq<T>)
    requires n * w <= |v| && i < n
    ensures |c| == w
  {
    ChunkFits(i, n, w);
    v[i * w .. i * w + w]
  }

  /** Piece i of a vector of n pieces of width w ends at or before n * w. */
  lemma ChunkFits(i: nat, n: nat, w: nat)
    requires i < n
    ensures i * w + w <= n * w
  {
    MulMono(i + 1, n, w);
  }

  /** Piece i holds entries i * w .. i * w + w - 1. */
  lemma ChunkAt<T>(v: seq<T>, n: nat, w: nat, i: nat)
    requires n * w <= |v| && i < n
    ensures i * w + w <= |v| && Chunks(v, n, w)[i] == v[i * w .. i * w + w]
  {
    ChunkFits(i, n, w);
  }

  function Concat<T>(rows: seq<seq<T>>): seq<T>
  {
    if rows == [] then [] else Concat(rows[..|rows| - 1]) + rows[|rows| - 1]
  }

  /** The pieces tile the first n * w entries, in order, with nothing lost
      and nothing repeated. */
  lemma {:induction false} ChunksTile<T>(v: seq<T>, n: nat, w: nat)
    requires n * w <= |v|
    ensures Concat(Chunks(v, n, w)) == v[..n * w]
  {
    if n > 0 {
      ChunkAt(v, n, w, n - 1);
      var rows := Chunks(v, n, w);
      MulMono(n - 1, n, w);
      forall i | 0 <= i < n - 1
        ensures rows[i] == Chunks(v, n - 1, w)[i]
      {
        ChunkAt(v, n, w, i);
        ChunkAt(v, n - 1, w, i);
      }
      assert rows[..n - 1] == Chunks(v, n - 1, w);
      ChunksTile(v, n - 1, w);
      assert (n - 1) * w + w == n * w;
      assert v[..n * w] == v[..(n - 1) * w] + v[(n - 1) * w .. n * w];
    }
  }
}

/** Exact real vector algebra used by the design matrices: dot products,
    element-wise sums and differences, and vectors that are zero except on
    one block (the shape of a network design-matrix row). */
module Vectors {

  function Dot(u: seq<real>, v: seq<real>): real
    requires |u| == |v|
    decreases |u|
  {
    if u == [] then 0.0 else u[0] * v[0] + Dot(u[1..], v[1..])
  }

  function Add(u: seq<real>, v: seq<real>): (w: seq<real>)
    requires |u| == |v|
    ensures |w| == |u|
  {
    seq(|u|, i requires 0 <= i < |u| => u[i] + v[i])
  }

  function Sub(u: seq<real>, v: seq<real>): (w: seq<real>)
    requires |u| == |v|
    ensures |w| == |u|
  {
    seq(|u|, i requires 0 <= i < |u| => u[i] - v[i])
  }

  function Neg(u: seq<real>): (w: seq<real>)
    ensures |w| == |u|
  {
    seq(|u|, i requires 0 <= i < |u| => -u[i])
  }

  function Zeros(n: nat): (w: seq<real>)
    ensures |w| == n
  {
    seq(n, _ => 0.0)
  }

  /** A vector of length `width` holding `b` at positions [at, at + |b|) and 0 elsewhere. */
  function Place(b: seq<real>, at: nat, width: nat): (w: seq<real>)
    requires at + |b| <= width
    ensures |w| == width
  {
    Zeros(at) + b + Zeros(width - at - |b|)
  }

  lemma PlaceAt(b: seq<real>, at: nat, width: nat, j: nat)
    requires at + |b| <= width && j < width
    ensures Place(b, at, width)[j] == if at <= j < at + |b| then b[j - at] else 0.0
  {
  }

  lemma {:induction false} DotAppend(u1: seq<real>, u2: seq<real>, v1: seq<real>, v2: seq<real>)
    requires |u1| == |v1| && |u2| == |v2|
    ensures Dot(u1 + u2, v1 + v2) == Dot(u1, v1) + Dot(u2, v2)
    decreases |u1|
  {
    if u1 == [] {
      assert u1 + u2 == u2;
      assert v1 + v2 == v2;
    } else {
      assert (u1 + u2)[1..] == u1[1..] + u2;
      assert (v1 + v2)[1..] == v1[1..] + v2;
      DotAppend(u1[1..], u2, v1[1..], v2);
    }
  }

  lemma {:induction false} DotZeros(n: nat, v: seq<real>)
    requires |v| == n
    ensures Dot(Zeros(n), v) == 0.0
    decreases n
  {
    if n > 0 {
      assert Zeros(n)[1..] == Zeros(n - 1);
      DotZeros(n - 1, v[1..]);
    }
  }

  /** Only the block of a placed vector contributes to a dot product. */
  lemma DotPlace(b: seq<real>, at: nat, width: nat, v: seq<real>)
    requires at + |b| <= width == |v|
    ensures Dot(Place(b, at, width), v) == Dot(b, v[at..at + |b|])
  {
    var tail := width - at - |b|;
    assert v == v[..at] + v[at..at + |b|] + v[at + |b|..];
    DotAppend(Zeros(at) + b, Zeros(tail), v[..at] + v[at..at + |b|], v[at + |b|..]);
    DotAppend(Zeros(at), b, v[..at], v[at..at + |b|]);
    DotZeros(at, v[..at]);
    DotZeros(tail, v[at + |b|..]);
  }

  lemma {:induction false} DotAdd(u: seq<real>, w: seq<real>, v: seq<real>)
    requires |u| == |w| == |v|
    ensures Dot(Add(u, w), v) == Dot(u, v) + Dot(w, v)
    decreases |u|
  {
    if u != [] {
      assert Add(u, w)[1..] == Add(u[1..], w[1..]);
      DotAdd(u[1..], w[1..], v[1..]);
    }
  }

  lemma {:induction false} DotNeg(u: seq<real>, v: seq<real>)
    requires |u| == |v|
    ensures Dot(Neg(u), v) == -Dot(u, v)
    decreases |u|
  {
    if u != [] {
      assert Neg(u)[1..] == Neg(u[1..]);
      DotNeg(u[1..], v[1..]);
    }
  }

  lemma {:induction false} DotSub(b: seq<real>, u: seq<real>, v: seq<real>)
    requires |b| == |u| == |v|
    ensures Dot(b, Sub(u, v)) == Dot(b, u) - Dot(b, v)
    decreases |b|
  {
    if b != [] {
      assert Sub(u, v)[1..] == Sub(u[1..], v[1..]);
      DotSub(b[1..], u[1..], v[1..]);
    }
  }

  lemma {:induction false} DotWithZeros(b: seq<real>)
    ensures Dot(b, Zeros(|b|)) == 0.0
    decreases |b|
  {
    if b != [] {
      assert Zeros(|b|)[1..] == Zeros(|b| - 1);
      DotWithZeros(b[1..]);
    }
  }
}

// The part of the MIPP SIMD library the channels use, lane by lane: a
// register of width w is a sequence of w lanes, a mask a sequence of w
// booleans.  Loads and stores are slices of the arrays.

module Mipp {
  import opened Tiling

  /** A register with every lane set to v (a Reg built from a scalar). */
  function Splat<T>(v: T, w: nat): (r: seq<T>)
  {
    seq(w, _ => v)
  }

  /** Lane-wise a == v. */
  function EqMask<T(==)>(a: seq<T>, v: T): (m: seq<bool>)
  {
    seq(|a|, l requires 0 <= l < |a| => a[l] == v)
  }

  /** Lane-wise a != v. */
  function NeqMask<T(==)>(a: seq<T>, v: T): (m: seq<bool>)
  {
    seq(|a|, l requires 0 <= l < |a| => a[l] != v)
  }

  /** Lane-wise exclusive or of two masks. */
  function XorMask(m1: seq<bool>, m2: seq<bool>): (m: seq<bool>)
    requires |m1| == |m2|
  {
    seq(|m1|, l requires 0 <= l < |m1| => m1[l] != m2[l])
  }

  /** mipp::blend(a, b, m): lane l of a where m holds, of b elsewhere. */
  function Blend<T>(a: seq<T>, b: seq<T>, m: seq<bool>): (r: seq<T>)
    requires |a| == |m| && |b| == |m|
  {
    seq(|m|, l requires 0 <= l < |m| => if m[l] then a[l] else b[l])
  }

  /** Reg::store: the lanes of r written to a[i], a[i + 1], ... */
  method Store<T>(r: seq<T>, a: array<T>, i: nat)
    requires i + |r| <= a.Length
    modifies a
    ensures forall p :: i <= p < i + |r| ==> a[p] == r[p - i]
    ensures forall p :: 0 <= p < a.Length && !(i <= p < i + |r|) ==> a[p] == old(a[p])
  {
    forall l | 0 <= l < |r| {
      a[i + l] := r[l];
    }
  }

  /** vec_loop_size = (n / w) * w: the largest multiple of the register
      width w that is at most n.  The vector loop covers whole registers up
      to it and the scalar tail what is left, fewer than w elements. */
  method VecLoopSize(n: nat, w: nat) returns (v: nat)
    requires 0 < w
    ensures Tiles(v, w) && v <= n < v + w
  {
    v := (n / w) * w;
    assert n == (n / w) * w + n % w;
    TilesMultiple(n / w, w);
  }

  /** q whole blocks of size w. */
  lemma {:induction false} TilesMultiple(q: nat, w: nat)
    requires 0 < w
    ensures Tiles(q * w, w)
  {
    if q > 0 {
      TilesMultiple(q - 1, w);
      assert q * w - w == (q - 1) * w;
    }
  }

  /** Each index below n is visited exactly once: by the scalar tail when it
      is at or past v, otherwise by the one register load at i that holds it. */
  lemma LoopsCover(n: nat, w: nat, v: nat, p: nat)
    requires 0 < w && Tiles(v, w) && v <= n && p < n
    ensures p < v ==> exists i: nat :: Tiles(i, w) && i <= p < i + w <= v
    ensures forall i: nat, i': nat :: Tiles(i, w) && Tiles(i', w) && i <= p < i + w && i' <= p < i' + w ==> i == i'
  {
    if p < v {
      BlockOf(v, w, p);
    }
    forall i: nat, i': nat | Tiles(i, w) && Tiles(i', w) && i <= p < i + w && i' <= p < i' + w
      ensures i == i'
    {
      if i < i' {
        TilesStep(i', i, w);
      } else if i' < i {
        TilesStep(i, i', w);
      }
    }
  }

  /** The block of a tiling of v that holds p. */
  lemma {:induction false} BlockOf(v: nat, w: nat, p: nat)
    requires 0 < w && Tiles(v, w) && p < v
    ensures exists i: nat :: Tiles(i, w) && i <= p < i + w <= v
    decreases v
  {
    if p < v - w {
      BlockOf(v - w, w, p);
    } else {
      assert Tiles(v - w, w) && v - w <= p < v;
    }
  }
}

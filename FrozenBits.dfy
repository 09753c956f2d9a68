// The frozen-bit mask (true = frozen, false = information bit) and the
// bookkeeping the encoder derives from it: how many information bits it
// has, where they are, and how K information bits are spread over N
// positions.  Every definition recurses on the LAST position, which is the
// order in which the encoder's loops walk the mask.

module FrozenBits {
  import opened PolarTransform

  /** The number of information (non-frozen) positions. */
  function CountInfo(f: seq<bool>): (k: nat)
    ensures k <= |f|
  {
    if f == [] then 0
    else CountInfo(f[..|f| - 1]) + (if f[|f| - 1] then 0 else 1)
  }

  /** The information positions in ascending order (info_bits_pos). */
  function InfoPositions(f: seq<bool>): (r: seq<nat>)
    ensures |r| == CountInfo(f)
  {
    if f == [] then []
    else InfoPositions(f[..|f| - 1]) + (if f[|f| - 1] then [] else [|f| - 1])
  }

  /** The K information bits u placed, in order, at the information
      positions, with 0 at every frozen position (convert). */
  function Scatter(f: seq<bool>, u: seq<B>): (r: seq<B>)
    requires |u| == CountInfo(f)
    ensures |r| == |f|
  {
    if f == [] then []
    else if f[|f| - 1] then Scatter(f[..|f| - 1], u) + [0]
    else Scatter(f[..|f| - 1], u[..|u| - 1]) + [u[|u| - 1]]
  }

  /** An N-vector read at the information positions, in order. */
  function Gather(f: seq<bool>, x: seq<B>): (u: seq<B>)
    requires |x| == |f|
    ensures |u| == CountInfo(f)
  {
    if f == [] then []
    else Gather(f[..|f| - 1], x[..|x| - 1]) + (if f[|f| - 1] then [] else [x[|x| - 1]])
  }

  lemma Snoc<T>(s: seq<T>)
    requires 0 < |s|
    ensures s == s[..|s| - 1] + [s[|s| - 1]]
  {
  }

  /** info_bits_pos lists exactly the information positions, each once, in
      increasing order. */
  lemma {:induction false} InfoPositionsSpec(f: seq<bool>)
    ensures forall t :: 0 <= t < |InfoPositions(f)| ==>
      InfoPositions(f)[t] < |f| && !f[InfoPositions(f)[t]]
    ensures forall t, t' :: 0 <= t < t' < |InfoPositions(f)| ==>
      InfoPositions(f)[t] < InfoPositions(f)[t']
    ensures forall i :: 0 <= i < |f| && !f[i] ==> i in InfoPositions(f)
    decreases |f|
  {
    if f != [] {
      var n := |f| - 1;
      var g := f[..n];
      InfoPositionsSpec(g);
      var r, rg := InfoPositions(f), InfoPositions(g);
      assert r == rg + (if f[n] then [] else [n]);
      forall i | 0 <= i < |f| && !f[i] ensures i in r {
        if i < n {
          assert !g[i] && i in rg;
        } else {
          assert r[|r| - 1] == n;
        }
      }
    }
  }

  /** A prefix has no more information positions than the whole mask, and
      strictly fewer when the next position is an information one. */
  lemma {:induction false} CountInfoPrefix(f: seq<bool>, n: nat)
    requires n < |f|
    ensures CountInfo(f[..n]) + (if f[n] then 0 else 1) <= CountInfo(f)
    decreases |f|
  {
    var g := f[..|f| - 1];
    if n < |g| {
      assert g[..n] == f[..n];
      CountInfoPrefix(g, n);
    } else {
      assert g == f[..n];
    }
  }

  /** One more mask position: the step of every loop over the mask. */
  lemma CountInfoSnoc(f: seq<bool>, n: nat)
    requires n < |f|
    ensures CountInfo(f[..n + 1]) == CountInfo(f[..n]) + (if f[n] then 0 else 1)
    ensures InfoPositions(f[..n + 1]) == InfoPositions(f[..n]) + (if f[n] then [] else [n])
  {
    assert f[..n + 1][..n] == f[..n];
  }

  /** One more position of convert's loop: the scatter over the mask's
      first i + 1 positions extends the one over its first i positions by
      0 or by the next information bit. */
  lemma ScatterSnoc(f: seq<bool>, u: seq<B>, i: nat, j: nat)
    requires i < |f| && j == CountInfo(f[..i]) && j + (if f[i] then 0 else 1) <= |u|
    ensures CountInfo(f[..i + 1]) == j + (if f[i] then 0 else 1)
    ensures Scatter(f[..i + 1], u[..j + (if f[i] then 0 else 1)])
         == Scatter(f[..i], u[..j]) + [if f[i] then 0 else u[j]]
  {
    CountInfoSnoc(f, i);
    assert f[..i + 1][..i] == f[..i];
    if !f[i] {
      assert u[..j + 1][..j] == u[..j];
    }
  }

  /** Scatter leaves every frozen position at 0. */
  lemma {:induction false} ScatterFrozen(f: seq<bool>, u: seq<B>)
    requires |u| == CountInfo(f)
    ensures forall i :: 0 <= i < |f| && f[i] ==> Scatter(f, u)[i] == 0
    decreases |f|
  {
    if f != [] {
      var n := |f| - 1;
      var u' := if f[n] then u else u[..|u| - 1];
      ScatterFrozen(f[..n], u');
    }
  }

  /** Gather reads position InfoPositions(f)[t] into its t-th element. */
  lemma {:induction false} GatherAt(f: seq<bool>, x: seq<B>, t: nat)
    requires |x| == |f| && t < CountInfo(f)
    ensures InfoPositions(f)[t] < |x|
    ensures Gather(f, x)[t] == x[InfoPositions(f)[t]]
    decreases |f|
  {
    var n := |f| - 1;
    var g := f[..n];
    if t < CountInfo(g) {
      GatherAt(g, x[..n], t);
    }
  }

  /** Reading a scattered vector at the information positions gives back the
      information bits: the j-th information bit sits at the j-th
      information position. */
  lemma {:induction false} GatherScatter(f: seq<bool>, u: seq<B>)
    requires |u| == CountInfo(f)
    ensures Gather(f, Scatter(f, u)) == u
    decreases |f|
  {
    if f != [] {
      var n := |f| - 1;
      var g, x := f[..n], Scatter(f, u);
      if f[n] {
        assert x == Scatter(g, u) + [0];
        assert x[..n] == Scatter(g, u);
        GatherScatter(g, u);
      } else {
        var u' := u[..|u| - 1];
        assert x == Scatter(g, u') + [u[|u| - 1]];
        assert x[..n] == Scatter(g, u');
        GatherScatter(g, u');
        Snoc(u);
      }
    }
  }

  /** Conversely, a vector that is 0 at every frozen position is the scatter
      of what it holds at the information positions. */
  lemma {:induction false} ScatterGather(f: seq<bool>, x: seq<B>)
    requires |x| == |f|
    requires forall i :: 0 <= i < |f| && f[i] ==> x[i] == 0
    ensures Scatter(f, Gather(f, x)) == x
    decreases |f|
  {
    if f != [] {
      var n := |f| - 1;
      var g, x' := f[..n], x[..n];
      var u, u' := Gather(f, x), Gather(g, x');
      ScatterGather(g, x');
      Snoc(x);
      if f[n] {
        assert u == u';
        assert x[n] == 0;
      } else {
        assert u == u' + [x[n]];
        assert u[..|u| - 1] == u';
      }
    }
  }
}

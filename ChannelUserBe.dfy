// Channel_user_be: the binary erasure channel driven by events read from a
// user file.  Each element of a frame is copied, or replaced by the erasure
// symbol (unknown_symbol_val) where the frame's event is set.  The events of
// all frames sit one frame after another in the noise buffer.

module ChannelUserBe {
  import opened Tiling
  import opened Mipp

  /** The per-element rule of the scalar tail. */
  function EraseRule<R>(x: R, event: bool, erased: R): (y: R)
    ensures event ==> y == erased
    ensures !event ==> y == x
  {
    if event then erased else x
  }

  /** The body of the vector loop on one register: blend the input and the
      erasure symbol under the mask event == false. */
  function EraseRegister<R>(xs: seq<R>, es: seq<bool>, erased: R): (r: seq<R>)
    requires |xs| == |es|
  {
    Blend(xs, Splat(erased, |xs|), EqMask(es, false))
  }

  /** The vector loop computes, lane by lane, the scalar tail's rule: the
      register loaded at i holds at lane p - i the rule for element p. */
  lemma EraseRegisterLanes<R>(x: seq<R>, e: seq<bool>, i: nat, w: nat, erased: R)
    requires i + w <= |x| && i + w <= |e|
    ensures |EraseRegister(x[i .. i + w], e[i .. i + w], erased)| == w
    ensures forall p :: i <= p < i + w ==>
      EraseRegister(x[i .. i + w], e[i .. i + w], erased)[p - i] == EraseRule(x[p], e[p], erased)
  {
  }


  class ChannelUserBe<R> {
    const N: nat
    /** mipp::nElReg<R>(): the number of lanes of a register. */
    const width: nat
    /** The events of every frame, N per frame, as loaded from the file. */
    const noise: seq<bool>
    /** tools::unknown_symbol_val<R>(): the value an erased element takes. */
    const erased: R

    constructor(N: nat, width: nat, noise: seq<bool>, erased: R)
      requires 0 < width
      ensures this.N == N && this.width == width && this.noise == noise && this.erased == erased
    {
      this.N := N;
      this.width := width;
      this.noise := noise;
      this.erased := erased;
    }

    /** _add_noise: whole registers first, then the scalar tail, on the
        frame's slice of the events.  Y may be the same array as X: each
        element is read before it is written. */
    method AddNoise(xN: array<R>, yN: array<R>, frameId: nat)
      requires 0 < width && N <= xN.Length && N <= yN.Length
      requires N * frameId + N <= |noise|
      modifies yN
      ensures forall i :: 0 <= i < N ==> yN[i] == EraseRule(old(xN[i]), noise[N * frameId + i], erased)
      ensures forall i :: N <= i < yN.Length ==> yN[i] == old(yN[i])
    {
      var events := noise[N * frameId .. N * frameId + N];
      var vecLoopSize := VecLoopSize(N, width);
      VectorLoop(xN, yN, events, vecLoopSize);
      ScalarTail(xN, yN, events, vecLoopSize);
    }

    /** The vector loop: one register of width lanes at a time, up to v. */
    method VectorLoop(xN: array<R>, yN: array<R>, events: seq<bool>, v: nat)
      requires 0 < width && Tiles(v, width) && v <= N <= xN.Length && N <= yN.Length
      requires |events| == N
      modifies yN
      ensures forall p :: 0 <= p < v ==> yN[p] == EraseRule(old(xN[p]), events[p], erased)
      ensures forall p :: v <= p < yN.Length ==> yN[p] == old(yN[p])
    {
      ghost var x0 := xN[..N];
      var i := 0;
      while i < v
        invariant i <= v && Tiles(i, width)
        invariant forall p :: 0 <= p < i ==> yN[p] == EraseRule(x0[p], events[p], erased)
        invariant forall p :: i <= p < N ==> xN[p] == x0[p]
        invariant forall p :: i <= p < yN.Length ==> yN[p] == old(yN[p])
      {
        TilesStep(v, i, width);
        var rIn := xN[i .. i + width];
        var rEvent := events[i .. i + width];
        assert rIn == x0[i .. i + width];
        EraseRegisterLanes(x0, events, i, width, erased);
        Store(EraseRegister(rIn, rEvent, erased), yN, i);
        i := i + width;
      }
    }

    /** The scalar tail: the elements from v to N, one at a time. */
    method ScalarTail(xN: array<R>, yN: array<R>, events: seq<bool>, v: nat)
      requires v <= N <= xN.Length && N <= yN.Length && |events| == N
      modifies yN
      ensures forall p :: v <= p < N ==> yN[p] == EraseRule(old(xN[p]), events[p], erased)
      ensures forall p :: 0 <= p < yN.Length && !(v <= p < N) ==> yN[p] == old(yN[p])
    {
      ghost var x0 := xN[..N];
      var i := v;
      while i < N
        invariant v <= i <= N
        invariant forall p :: v <= p < i ==> yN[p] == EraseRule(x0[p], events[p], erased)
        invariant forall p :: i <= p < N ==> xN[p] == x0[p]
        invariant forall p :: 0 <= p < yN.Length && !(v <= p < i) ==> yN[p] == old(yN[p])
      {
        yN[i] := if events[i] then erased else xN[i];
        i := i + 1;
      }
    }
  }
}

// Channel_user_bs: the binary symmetric channel driven by events read from a
// user file.  Each element of a frame is hard-decided (0 for a zero input,
// 1 otherwise) and flipped where the frame's event is set.  The events of
// all frames sit one frame after another in the noise buffer.

module ChannelUserBs {
  import opened Tiling
  import opened Mipp

  /** The per-element rule of the scalar tail: 0 when the event differs
      from "x is zero", 1 otherwise. */
  function FlipRule(x: real, event: bool): (y: real)
    ensures y == 0.0 || y == 1.0
    ensures !event ==> (y == 1.0 <==> x != 0.0)
    ensures event ==> (y == 1.0 <==> x == 0.0)
  {
    if event != (x == 0.0) then 0.0 else 1.0
  }

  /** The body of the vector loop on one register: blend 0 and 1 under the
      mask (event != false) xor (x == 0). */
  function FlipRegister(xs: seq<real>, es: seq<bool>): (r: seq<real>)
    requires |xs| == |es|
  {
    var w := |xs|;
    Blend(Splat(0.0, w), Splat(1.0, w), XorMask(NeqMask(es, false), EqMask(xs, 0.0)))
  }

  /** The vector loop computes, lane by lane, the scalar tail's rule: the
      register loaded at i holds at lane p - i the rule for element p. */
  lemma FlipRegisterLanes(x: seq<real>, e: seq<bool>, i: nat, w: nat)
    requires i + w <= |x| && i + w <= |e|
    ensures |FlipRegister(x[i .. i + w], e[i .. i + w])| == w
    ensures forall p :: i <= p < i + w ==>
      FlipRegister(x[i .. i + w], e[i .. i + w])[p - i] == FlipRule(x[p], e[p])
  {
  }


  class ChannelUserBs {
    const N: nat
    /** mipp::nElReg<R>(): the number of lanes of a register. */
    const width: nat
    /** The events of every frame, N per frame, as loaded from the file. */
    const noise: seq<bool>

    constructor(N: nat, width: nat, noise: seq<bool>)
      requires 0 < width
      ensures this.N == N && this.width == width && this.noise == noise
    {
      this.N := N;
      this.width := width;
      this.noise := noise;
    }

    /** _add_noise: whole registers first, then the scalar tail, on the
        frame's slice of the events.  Y may be the same array as X: each
        element is read before it is written. */
    method AddNoise(xN: array<real>, yN: array<real>, frameId: nat)
      requires 0 < width && N <= xN.Length && N <= yN.Length
      requires N * frameId + N <= |noise|
      modifies yN
      ensures forall i :: 0 <= i < N ==> yN[i] == FlipRule(old(xN[i]), noise[N * frameId + i])
      ensures forall i :: N <= i < yN.Length ==> yN[i] == old(yN[i])
    {
      var events := noise[N * frameId .. N * frameId + N];
      var vecLoopSize := VecLoopSize(N, width);
      VectorLoop(xN, yN, events, vecLoopSize);
      ScalarTail(xN, yN, events, vecLoopSize);
    }

    /** The vector loop: one register of width lanes at a time, up to v. */
    method VectorLoop(xN: array<real>, yN: array<real>, events: seq<bool>, v: nat)
      requires 0 < width && Tiles(v, width) && v <= N <= xN.Length && N <= yN.Length
      requires |events| == N
      modifies yN
      ensures forall p :: 0 <= p < v ==> yN[p] == FlipRule(old(xN[p]), events[p])
      ensures forall p :: v <= p < yN.Length ==> yN[p] == old(yN[p])
    {
      ghost var x0 := xN[..N];
      var i := 0;
      while i < v
        invariant i <= v && Tiles(i, width)
        invariant forall p :: 0 <= p < i ==> yN[p] == FlipRule(x0[p], events[p])
        invariant forall p :: i <= p < N ==> xN[p] == x0[p]
        invariant forall p :: i <= p < yN.Length ==> yN[p] == old(yN[p])
      {
        TilesStep(v, i, width);
        var rIn := xN[i .. i + width];
        var rEvent := events[i .. i + width];
        assert rIn == x0[i .. i + width];
        FlipRegisterLanes(x0, events, i, width);
        Store(FlipRegister(rIn, rEvent), yN, i);
        i := i + width;
      }
    }

    /** The scalar tail: the elements from v to N, one at a time. */
    method ScalarTail(xN: array<real>, yN: array<real>, events: seq<bool>, v: nat)
      requires v <= N <= xN.Length && N <= yN.Length && |events| == N
      modifies yN
      ensures forall p :: v <= p < N ==> yN[p] == FlipRule(old(xN[p]), events[p])
      ensures forall p :: 0 <= p < yN.Length && !(v <= p < N) ==> yN[p] == old(yN[p])
    {
      ghost var x0 := xN[..N];
      var i := v;
      while i < N
        invariant v <= i <= N
        invariant forall p :: v <= p < i ==> yN[p] == FlipRule(x0[p], events[p])
        invariant forall p :: i <= p < N ==> xN[p] == x0[p]
        invariant forall p :: 0 <= p < yN.Length && !(v <= p < i) ==> yN[p] == old(yN[p])
      {
        yN[i] := if events[i] != (xN[i] == 0.0) then 0.0 else 1.0;
        i := i + 1;
      }
    }
  }
}

// Which N-vectors are codewords of the polar code with a given frozen-bit
// mask, and what the encoder's codeword check accepts.
//
// x is a codeword exactly when x = Polar(Scatter(f, u)) for some K
// information bits u.  As the transform is its own inverse, that is the
// same as "Polar(x) is 0 at every frozen position" (FrozenClear).  The
// check in Encoder_polar inspects every frozen position except the last
// one (ChecksPass), which lets through vectors that are not codewords when
// position N-1 is frozen.

module Codewords {
  import opened Tiling
  import opened PolarTransform
  import opened FrozenBits

  /** x is the encoding of some information word. */
  ghost predicate InCode(f: seq<bool>, x: seq<B>)
    requires |f| == |x| && IsPow2(|x|)
  {
    exists u :: |u| == CountInfo(f) && x == Polar(Scatter(f, u))
  }

  /** y is 0 at every frozen position below n. */
  predicate ClearBelow(f: seq<bool>, y: seq<B>, n: nat)
    requires n <= |f| == |y|
  {
    forall p :: 0 <= p < n && f[p] ==> y[p] == 0
  }

  /** The transform of x is 0 at every frozen position. */
  predicate FrozenClear(f: seq<bool>, x: seq<B>)
    requires |f| == |x| && IsPow2(|x|)
  {
    ClearBelow(f, Polar(x), |x|)
  }

  /** What the encoder's check verifies: the transform of x is 0 at every
      frozen position other than the last one. */
  predicate ChecksPass(f: seq<bool>, x: seq<B>)
    requires |f| == |x| && IsPow2(|x|)
  {
    ClearBelow(f, Polar(x), |x| - 1)
  }

  /** One more position. */
  lemma ClearBelowNext(f: seq<bool>, y: seq<B>, n: nat)
    requires n < |f| == |y|
    ensures ClearBelow(f, y, n + 1) <==> ClearBelow(f, y, n) && !(f[n] && y[n] != 0)
  {
  }

  /** The codewords are exactly the vectors whose transform is clear at the
      frozen positions. */
  lemma CodewordCharacterization(f: seq<bool>, x: seq<B>)
    requires |f| == |x| && IsPow2(|x|)
    ensures FrozenClear(f, x) <==> InCode(f, x)
  {
    if FrozenClear(f, x) {
      ClearIsCodeword(f, x);
    }
    if InCode(f, x) {
      var u :| |u| == CountInfo(f) && x == Polar(Scatter(f, u));
      CodewordIsClear(f, u);
    }
  }

  /** A clear vector is the encoding of what its transform holds at the
      information positions. */
  lemma ClearIsCodeword(f: seq<bool>, x: seq<B>)
    requires |f| == |x| && IsPow2(|x|) && FrozenClear(f, x)
    ensures x == Polar(Scatter(f, Gather(f, Polar(x))))
  {
    var y := Polar(x);
    assert forall p :: 0 <= p < |f| && f[p] ==> y[p] == 0;
    ScatterGather(f, y);
    PolarInvolution(x);
  }

  /** Every output of the encoder has a transform that is clear at the
      frozen positions. */
  lemma CodewordIsClear(f: seq<bool>, u: seq<B>)
    requires IsPow2(|f|) && |u| == CountInfo(f)
    ensures FrozenClear(f, Polar(Scatter(f, u)))
  {
    var v := Scatter(f, u);
    PolarInvolution(v);
    ScatterFrozen(f, u);
    assert Polar(Polar(v)) == v;
  }

  /** The check differs from the codeword test only at position N-1, where
      the transform equals x itself. */
  lemma ChecksPassAndLast(f: seq<bool>, x: seq<B>)
    requires |f| == |x| && IsPow2(|x|)
    ensures FrozenClear(f, x)
        <==> ChecksPass(f, x) && !(f[|x| - 1] && x[|x| - 1] != 0)
  {
    PolarLast(x);
    ClearBelowNext(f, Polar(x), |x| - 1);
  }

  /** The encoder's check accepts every output of the encoder. */
  lemma EncodedPassesCheck(f: seq<bool>, u: seq<B>)
    requires IsPow2(|f|) && |u| == CountInfo(f)
    ensures ChecksPass(f, Polar(Scatter(f, u)))
  {
    var x := Polar(Scatter(f, u));
    CodewordIsClear(f, u);
    ChecksPassAndLast(f, x);
  }

  /** With N = 2 and only the last position frozen, [0, 1] passes the check
      although it is not a codeword (the codewords are [u, 0]). */
  lemma LastFrozenMissed()
    ensures ChecksPass([false, true], [0, 1])
    ensures !InCode([false, true], [0, 1])
  {
    var f: seq<bool>, x: seq<B> := [false, true], [0, 1];
    assert IsPow2(1);
    assert IsPow2(|x|);
    var t := Xor(x[..1], x[1..]);
    assert t == [1] by {
      assert x[..1] == [0] && x[1..] == [1];
    }
    var y := Polar(x);
    assert y == Polar(t) + Polar(x[1..]);
    assert Polar(t) == t && Polar(x[1..]) == x[1..];
    assert y[1] == 1;
    assert ChecksPass(f, x) by {
      assert f[0] == false;
    }
    assert !FrozenClear(f, x);
    CodewordCharacterization(f, x);
  }
}

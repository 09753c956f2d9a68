// Encoder_polar: the non-systematic polar encoder.  An encoder is built
// from K, N and a frozen-bit mask; it places the K information bits at the
// non-frozen positions (Convert), runs the in-place XOR butterfly
// (LightEncode) and can test whether an N-vector passes its codeword check
// (IsCodeword).

module PolarEncoder {
  import opened Tiling
  import opened PolarTransform
  import opened FrozenBits
  import opened Codewords

  datatype Result<T, E> = Success(value: T) | Failure(error: E)

  /** The two ways construction fails. */
  datatype EncoderError =
    | LengthError(frozenBitsSize: nat, n: nat)  // the mask does not have N entries
    | RuntimeError(k: nat, counted: nat)        // the mask does not have K information bits

  /** The constructor's counting loop: the number of information bits. */
  method CountInformationBits(frozenBits: seq<bool>) returns (k: nat)
    ensures k == CountInfo(frozenBits)
  {
    k := 0;
    for i := 0 to |frozenBits|
      invariant k == CountInfo(frozenBits[..i])
    {
      CountInfoSnoc(frozenBits, i);
      if !frozenBits[i] {
        k := k + 1;
      }
    }
    assert frozenBits[..|frozenBits|] == frozenBits;
  }

  /** The innermost butterfly loop: the first half of the 2k-block at j is
      XORed with its second half, which brings the block to its value after
      the stage. */
  method XorBlock(a: array<B>, j: nat, k: nat, ghost s: seq<B>)
    requires 0 < k && Tiles(j, 2 * k) && j + 2 * k <= |s| <= a.Length
    requires forall p :: j <= p < j + 2 * k ==> a[p] == s[p]
    modifies a
    ensures forall p :: j <= p < j + 2 * k ==> a[p] == Stage(s, k)[p]
    ensures forall p :: 0 <= p < a.Length && !(j <= p < j + k) ==> a[p] == old(a[p])
  {
    for i := 0 to k
      invariant forall p :: j <= p < j + i ==> a[p] == Stage(s, k)[p]
      invariant forall p :: 0 <= p < a.Length && !(j <= p < j + i) ==> a[p] == old(a[p])
    {
      StageAt(s, k, j, i);
      a[j + i] := a[j + i] ^ a[k + j + i];
    }
    forall p | j + k <= p < j + 2 * k
      ensures a[p] == Stage(s, k)[p]
    {
      StageAt(s, k, j, p - j - k);
    }
  }

  /** One pass of the butterfly's outer loop over the first n positions:
      every 2k-block gets the XOR of its halves in its first half. */
  method StageInPlace(a: array<B>, n: nat, k: nat)
    requires 0 < k && Tiles(n, 2 * k) && n <= a.Length
    modifies a
    ensures a[..n] == Stage(old(a[..n]), k)
    ensures forall p :: n <= p < a.Length ==> a[p] == old(a[p])
  {
    ghost var s := a[..n];
    var j := 0;
    while j < n
      invariant j <= n && Tiles(j, 2 * k)
      invariant forall p :: 0 <= p < j ==> a[p] == Stage(s, k)[p]
      invariant forall p :: j <= p < n ==> a[p] == s[p]
      invariant forall p :: n <= p < a.Length ==> a[p] == old(a[p])
    {
      TilesStep(n, j, 2 * k);
      XorBlock(a, j, k, s);
      j := j + 2 * k;
    }
    assert forall p :: 0 <= p < n ==> a[..n][p] == Stage(s, k)[p];
  }

  /** Every 2k-block starting below j whose first half ends on a frozen
      position has a zero there in y. */
  ghost predicate BlocksClear(f: seq<bool>, y: seq<B>, k: nat, j: nat)
    requires |f| == |y| && 0 < k
  {
    forall q :: 0 <= q < j && q + 2 * k <= |y| && Tiles(q, 2 * k) && f[q + k - 1] ==> y[q + k - 1] == 0
  }

  /** The check of one more block: the blocks below j + 2k are clear exactly
      when those below j are and the block at j is. */
  lemma BlocksClearNext(f: seq<bool>, y: seq<B>, k: nat, j: nat)
    requires |f| == |y| && 0 < k && Tiles(j, 2 * k) && j + 2 * k <= |y|
    ensures BlocksClear(f, y, k, j + 2 * k)
        <==> BlocksClear(f, y, k, j) && !(f[j + k - 1] && y[j + k - 1] != 0)
  {
    forall q | j < q < j + 2 * k && Tiles(q, 2 * k)
      ensures false
    {
      TilesStep(q, j, 2 * k);
    }
  }

  /** What the check reads at each block: after the stage with half-size k,
      the value at the end of a 2k-block's first half is already the final
      transform's value there. */
  lemma CheckValues(s: seq<B>, k: nat, y: seq<B>)
    requires IsPow2(k) && Tiles(|s|, 2 * k) && y == Blockwise(s, 2 * k)
    ensures 0 < k && |y| == |s|
    ensures forall j :: 0 <= j && j + 2 * k <= |s| && Tiles(j, 2 * k) ==>
      y[j + k - 1] == Stage(s, k)[j + k - 1]
  {
    BlockwiseStage(s, k);
    BoundaryValues(Stage(s, k), k, y);
  }

  /** The per-block transform with block size k keeps the value at the end
      of every 2k-block's first half. */
  lemma BoundaryValues(st: seq<B>, k: nat, y: seq<B>)
    requires IsPow2(k) && Tiles(|st|, k) && y == Blockwise(st, k)
    ensures forall j :: 0 <= j && j + 2 * k <= |st| && Tiles(j, 2 * k) ==>
      y[j + k - 1] == st[j + k - 1]
  {
    BlockwiseBoundaries(st, k);
    forall j | 0 <= j && j + 2 * k <= |st| && Tiles(j, 2 * k)
      ensures y[j + k - 1] == st[j + k - 1]
    {
      TilesMiddle(j, k);
    }
  }

  /** y is 0 at every frozen position p < N - 1 that ends an m-block: the
      positions is_codeword has inspected once its blocks have size m. */
  ghost predicate ClearAtBoundaries(f: seq<bool>, y: seq<B>, m: nat)
    requires |f| == |y|
  {
    forall p :: 0 <= p < |y| - 1 && Tiles(p + 1, m) && f[p] ==> y[p] == 0
  }

  /** Before the first pass nothing has been inspected. */
  lemma BoundariesStart(f: seq<bool>, y: seq<B>)
    requires |f| == |y|
    ensures ClearAtBoundaries(f, y, |y|)
  {
    forall p | 0 <= p < |y| - 1 && f[p]
      ensures !Tiles(p + 1, |y|)
    {
    }
  }

  /** A pass with half-size k inspects the middle of every 2k-block; with
      the 2k-block ends inspected before, that covers every k-block end. */
  lemma BoundariesMerge(f: seq<bool>, y: seq<B>, k: nat)
    requires |f| == |y| && 0 < k && Tiles(|y|, 2 * k)
    requires ClearAtBoundaries(f, y, 2 * k) && BlocksClear(f, y, k, |y|)
    ensures ClearAtBoundaries(f, y, k)
  {
    forall p | 0 <= p < |y| - 1 && Tiles(p + 1, k) && f[p]
      ensures y[p] == 0
    {
      TilesSplit(p + 1, k);
      if !Tiles(p + 1, 2 * k) {
        var q := p + 1 - k;
        TilesStep(|y|, q, 2 * k);
        assert q + k - 1 == p;
      }
    }
  }

  /** After the last pass (blocks of size 1) every position but N-1 has been
      inspected. */
  lemma BoundariesEnd(f: seq<bool>, y: seq<B>)
    requires |f| == |y| && ClearAtBoundaries(f, y, 1)
    ensures forall p :: 0 <= p < |y| - 1 && f[p] ==> y[p] == 0
  {
    forall p | 0 <= p < |y| - 1 && f[p]
      ensures y[p] == 0
    {
      TilesOne(p + 1);
    }
  }

  /** A failing block check is a frozen position below N - 1 where y is not 0. */
  lemma BlocksFail(f: seq<bool>, y: seq<B>, k: nat)
    requires |f| == |y| && 0 < k && !BlocksClear(f, y, k, |y|)
    ensures exists p :: 0 <= p < |y| - 1 && f[p] && y[p] != 0
  {
    var q :| 0 <= q < |y| && q + 2 * k <= |y| && Tiles(q, 2 * k) && f[q + k - 1] && y[q + k - 1] != 0;
    assert 0 <= q + k - 1 < |y| - 1;
  }

  /** What holds before is_codeword's first pass: the blocks have size N,
      their transform is the whole transform, nothing has been inspected,
      and the first half-size N / 2 is a power of two unless N = 1. */
  lemma CheckStart(f: seq<bool>, x: seq<B>)
    requires |f| == |x| && IsPow2(|x|)
    ensures Tiles(|x|, |x|) && Blockwise(x, |x|) == Polar(x)
    ensures ClearAtBoundaries(f, Polar(x), |x|)
    ensures |x| / 2 > 0 ==> |x| == 2 * (|x| / 2) && IsPow2(|x| / 2)
    ensures |x| / 2 == 0 ==> |x| == 1
  {
    BlockwiseWhole(x);
    BoundariesStart(f, Polar(x));
  }

  class EncoderPolar {
    const K: nat
    const N: nat
    const frozenBits: seq<bool>
    /** info_bits_pos: the information positions, kept by NotifyFrozenbitsUpdate. */
    var infoBitsPos: seq<nat>
    /** X_N_tmp: scratch space of the codeword check. */
    const xNTmp: array<B>

    /** What the constructor establishes before it fills infoBitsPos. */
    ghost predicate Shape()
      reads this
    {
      |frozenBits| == N && IsPow2(N) && CountInfo(frozenBits) == K
      && |infoBitsPos| == K && xNTmp.Length == N
    }

    ghost predicate Valid()
      reads this
    {
      Shape() && infoBitsPos == InfoPositions(frozenBits)
    }

    /** The constructor once its two checks have passed; Create performs
        the checks. */
    constructor (K: nat, N: nat, frozenBits: seq<bool>)
      requires |frozenBits| == N && CountInfo(frozenBits) == K && IsPow2(N)
      ensures Valid()
      ensures this.K == K && this.N == N && this.frozenBits == frozenBits
      ensures fresh(xNTmp)
    {
      this.K, this.N, this.frozenBits := K, N, frozenBits;
      infoBitsPos := seq(K, _ => 0);
      xNTmp := new B[N];
      new;
      NotifyFrozenbitsUpdate();
    }

    /** The constructor with its checks: a mask of the wrong size is a
        length error, a mask with the wrong number of information bits a
        runtime error, tested in that order. */
    static method Create(K: nat, N: nat, frozenBits: seq<bool>)
      returns (r: Result<EncoderPolar, EncoderError>)
      requires IsPow2(N)
      ensures N != |frozenBits| ==> r == Failure(LengthError(|frozenBits|, N))
      ensures N == |frozenBits| && K != CountInfo(frozenBits)
          ==> r == Failure(RuntimeError(K, CountInfo(frozenBits)))
      ensures N == |frozenBits| && K == CountInfo(frozenBits)
          ==> r.Success? && fresh(r.value) && fresh(r.value.xNTmp) && r.value.Valid()
              && r.value.K == K && r.value.N == N && r.value.frozenBits == frozenBits
    {
      if N != |frozenBits| {
        return Failure(LengthError(|frozenBits|, N));
      }
      var k := CountInformationBits(frozenBits);
      if K != k {
        return Failure(RuntimeError(K, k));
      }
      var e := new EncoderPolar(K, N, frozenBits);
      return Success(e);
    }

    /** Lists the information positions in increasing order. */
    method NotifyFrozenbitsUpdate()
      requires Shape()
      modifies this
      ensures Valid()
    {
      var k := 0;
      for n := 0 to N
        invariant Shape()
        invariant k == CountInfo(frozenBits[..n]) && k <= K
        invariant infoBitsPos[..k] == InfoPositions(frozenBits[..n])
      {
        CountInfoSnoc(frozenBits, n);
        CountInfoPrefix(frozenBits, n);
        if !frozenBits[n] {
          infoBitsPos := infoBitsPos[k := n];
          assert infoBitsPos[..k + 1] == infoBitsPos[..k] + [n];
          k := k + 1;
        }
      }
      assert frozenBits[..N] == frozenBits;
      assert infoBitsPos == infoBitsPos[..K];
    }

    /** The loop of convert: src's K bits go, in order, to the information
        positions of dst; frozen positions get 0. */
    method ScatterFrom(src: array<B>, dst: array<B>)
      requires |frozenBits| == N && CountInfo(frozenBits) == K
      requires src != dst && K <= src.Length && N <= dst.Length
      modifies dst
      ensures dst[..N] == Scatter(frozenBits, old(src[..K]))
      ensures forall p :: N <= p < dst.Length ==> dst[p] == old(dst[p])
    {
      var j := 0;
      for i := 0 to N
        invariant j == CountInfo(frozenBits[..i]) && j <= K
        invariant dst[..i] == Scatter(frozenBits[..i], src[..j])
        invariant forall p :: i <= p < dst.Length ==> dst[p] == old(dst[p])
      {
        CountInfoPrefix(frozenBits, i);
        ScatterSnoc(frozenBits, src[..], i, j);
        ghost var done := dst[..i];
        if frozenBits[i] {
          dst[i] := 0;
        } else {
          dst[i] := src[j];
          j := j + 1;
        }
        assert dst[..i + 1] == done + [dst[i]];
      }
      assert frozenBits[..N] == frozenBits;
      assert src[..K] == src[..j];
    }

    /** convert: U_N receives U_K's bits at the information positions and 0
        elsewhere, also when both are the same buffer (the bits are then
        copied aside first). */
    method Convert(uK: array<B>, uN: array<B>)
      requires Valid() && K <= uK.Length && N <= uN.Length
      modifies uN
      ensures uN[..N] == Scatter(frozenBits, old(uK[..K]))
      ensures forall p :: N <= p < uN.Length ==> uN[p] == old(uN[p])
    {
      ghost var u0 := uK[..K];
      if uK == uN {
        var uKTmp := new B[K];
        forall t | 0 <= t < K {
          uKTmp[t] := uK[t];
        }
        assert uKTmp[..K] == u0;
        ScatterFrom(uKTmp, uN);
      } else {
        ScatterFrom(uK, uN);
      }
    }

    /** light_encode: the in-place butterfly computes the polar transform
        of the first N bits. */
    method LightEncode(bits: array<B>)
      requires Valid() && N <= bits.Length
      modifies bits
      ensures bits[..N] == Polar(old(bits[..N]))
      ensures forall p :: N <= p < bits.Length ==> bits[p] == old(bits[p])
    {
      ghost var x0 := bits[..N];
      var k: nat := N / 2;
      if k > 0 {
        BlockwiseWhole(x0);
      } else {
        assert N == 1;
        assert Polar(x0) == x0;
      }
      while k > 0
        invariant k > 0 ==> IsPow2(k) && Tiles(N, 2 * k) && Blockwise(bits[..N], 2 * k) == Polar(x0)
        invariant k == 0 ==> bits[..N] == Polar(x0)
        invariant forall p :: N <= p < bits.Length ==> bits[p] == old(bits[p])
        decreases k
      {
        ghost var s := bits[..N];
        StageInPlace(bits, N, k);
        ButterflyPass(s, k, Polar(x0));
        k := k / 2;
      }
    }

    /** _encode: convert, then transform in place. */
    method Encode(uK: array<B>, xN: array<B>)
      requires Valid() && K <= uK.Length && N <= xN.Length
      modifies xN
      ensures xN[..N] == Polar(Scatter(frozenBits, old(uK[..K])))
      ensures InCode(frozenBits, xN[..N]) && ChecksPass(frozenBits, xN[..N])
      ensures forall p :: N <= p < xN.Length ==> xN[p] == old(xN[p])
    {
      Convert(uK, xN);
      LightEncode(xN);
      CodewordIsClear(frozenBits, old(uK[..K]));
      CodewordCharacterization(frozenBits, xN[..N]);
      EncodedPassesCheck(frozenBits, old(uK[..K]));
    }

    /** One pass of is_codeword's outer loop: the butterfly on every
        2k-block of xNTmp, answering false at the first block whose check
        fails.  y is the final transform, so the check at a block reads
        its value at the last position of the block's first half. */
    method CheckStage(k: nat, ghost y: seq<B>) returns (ok: bool)
      requires |frozenBits| == N == xNTmp.Length == |y| && 0 < k && Tiles(N, 2 * k)
      requires forall j :: 0 <= j && j + 2 * k <= N && Tiles(j, 2 * k) ==>
        y[j + k - 1] == Stage(xNTmp[..], k)[j + k - 1]
      modifies xNTmp
      ensures ok ==> xNTmp[..] == Stage(old(xNTmp[..]), k)
      ensures ok <==> BlocksClear(frozenBits, y, k, N)
    {
      ghost var s := xNTmp[..];
      ghost var st := Stage(s, k);
      var j := 0;
      while j < N
        invariant j <= N && Tiles(j, 2 * k)
        invariant forall p :: 0 <= p < j ==> xNTmp[p] == st[p]
        invariant forall p :: j <= p < N ==> xNTmp[p] == s[p]
        invariant BlocksClear(frozenBits, y, k, j)
      {
        TilesStep(N, j, 2 * k);
        XorBlock(xNTmp, j, k, s);
        BlocksClearNext(frozenBits, y, k, j);
        if frozenBits[j + k - 1] && xNTmp[j + k - 1] != 0 {
          return false;
        }
        j := j + 2 * k;
      }
      assert j == N && |xNTmp[..]| == |st|;
      assert xNTmp[..] == st;
      return true;
    }

    /** One pass of is_codeword's outer loop, seen from the final transform
        y: either it finds a frozen position below N-1 where y is nonzero,
        or the scratch copy moves one stage on and every k-block end below
        N-1 has been inspected. */
    method CheckPass(k: nat, ghost y: seq<B>) returns (ok: bool)
      requires |frozenBits| == N == xNTmp.Length && IsPow2(k) && Tiles(N, 2 * k)
      requires Blockwise(xNTmp[..], 2 * k) == y
      requires ClearAtBoundaries(frozenBits, y, 2 * k)
      modifies xNTmp
      ensures !ok ==> exists p :: 0 <= p < N - 1 && frozenBits[p] && y[p] != 0
      ensures ok ==> Tiles(N, k) && Blockwise(xNTmp[..], k) == y
      ensures ok ==> ClearAtBoundaries(frozenBits, y, k)
      ensures k > 1 ==> IsPow2(k / 2) && 2 * (k / 2) == k
    {
      ghost var s := xNTmp[..];
      CheckValues(s, k, y);
      ok := CheckStage(k, y);
      if !ok {
        BlocksFail(frozenBits, y, k);
        return;
      }
      ButterflyPass(s, k, y);
      BoundariesMerge(frozenBits, y, k);
    }

    /** is_codeword: runs the butterfly on a copy and, after each block,
        rejects when the last position of the block's first half is frozen
        and nonzero.  Position N-1 is never inspected. */
    method IsCodeword(xN: array<B>) returns (ok: bool)
      requires Shape() && N <= xN.Length
      modifies xNTmp
      ensures ok <==> ChecksPass(frozenBits, old(xN[..N]))
      ensures xN != xNTmp ==> xN[..] == old(xN[..])
    {
      ghost var x0 := xN[..N];
      CopyIn(xN);
      ghost var y := Polar(x0);
      var k: nat := N / 2;
      ghost var m: nat := N;
      CheckStart(frozenBits, x0);
      while k > 0
        invariant k > 0 ==> m == 2 * k && IsPow2(k)
        invariant k == 0 ==> m == 1
        invariant IsPow2(m) && Tiles(N, m)
        invariant Blockwise(xNTmp[..], m) == y
        invariant ClearAtBoundaries(frozenBits, y, m)
        decreases k
      {
        ok := CheckPass(k, y);
        if !ok {
          return false;
        }
        m := k;
        k := k / 2;
      }
      BoundariesEnd(frozenBits, y);
      return true;
    }

    /** The copy of X_N into X_N_tmp. */
    method CopyIn(xN: array<B>)
      requires xNTmp.Length == N <= xN.Length
      modifies xNTmp
      ensures xNTmp[..] == old(xN[..N])
      ensures xN != xNTmp ==> xN[..] == old(xN[..])
    {
      forall p | 0 <= p < N {
        xNTmp[p] := xN[p];
      }
    }

    /** The codeword check with the last position inspected as well: accepts
        exactly the codewords. */
    method IsCodewordCorrected(xN: array<B>) returns (ok: bool)
      requires Valid() && N <= xN.Length
      modifies xNTmp
      ensures ok <==> InCode(frozenBits, old(xN[..N]))
    {
      ghost var x0 := xN[..N];
      var last := xN[N - 1];
      ok := IsCodeword(xN);
      if ok && frozenBits[N - 1] && last != 0 {
        ok := false;
      }
      ChecksPassAndLast(frozenBits, x0);
      CodewordCharacterization(frozenBits, x0);
    }
  }

  /** A client of the encoder: an encoder built with the constructor's
      checks, asked whether its own encoding is a codeword, says yes. */
  method EncodeAndCheck(K: nat, N: nat, frozenBits: seq<bool>, uK: array<B>, xN: array<B>)
    returns (ok: bool)
    requires IsPow2(N) && |frozenBits| == N && CountInfo(frozenBits) == K
    requires K <= uK.Length && N <= xN.Length
    modifies xN
    ensures ok
  {
    var r := EncoderPolar.Create(K, N, frozenBits);
    var e := r.value;
    e.Encode(uK, xN);
    ok := e.IsCodeword(xN);
  }
}

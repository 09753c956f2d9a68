// Arikan's polar transform over GF(2), the map that the encoder's in-place
// XOR butterfly computes.  With G_1 = [1] and
//   G_2N = [[G_N, 0], [G_N, G_N]]  (the Kronecker power of [[1,0],[1,1]]),
// a row vector u = lo ++ hi of length 2N is sent to
//   u G_2N = (lo ^ hi) G_N ++ hi G_N,
// which is the recursion of Polar below.  Stage is one pass of the encoder's
// outer loop and Blockwise is "Polar on every block", the part of the
// transform that the outer loop still owes; BlockwiseStage links the two.

module PolarTransform {
  import opened Tiling

  /** The encoder's element type B, taken at its 8-bit instantiation.  Only
      XOR and the test against zero are ever applied to it, so no property
      below depends on the width. */
  type B = bv8

  function Xor(a: seq<B>, b: seq<B>): (r: seq<B>)
    requires |a| == |b|
  {
    seq(|a|, i requires 0 <= i < |a| => a[i] ^ b[i])
  }

  /** Every element is 0 or 1. */
  predicate IsBinary(s: seq<B>)
  {
    forall i :: 0 <= i < |s| ==> s[i] == 0 || s[i] == 1
  }

  /** One block of size 2h after one butterfly pass: the first half becomes
      the XOR of both halves, the second half is kept. */
  function Butterfly(b: seq<B>, h: nat): (r: seq<B>)
    requires |b| == 2 * h
  {
    Xor(b[..h], b[h..]) + b[h..]
  }

  /** The polar transform u |-> u G_N, N = |u| a power of two. */
  function Polar(s: seq<B>): (r: seq<B>)
    requires IsPow2(|s|)
    ensures |r| == |s|
    decreases |s|
  {
    if |s| == 1 then s
    else
      var h := |s| / 2;
      Polar(Xor(s[..h], s[h..])) + Polar(s[h..])
  }

  /** One pass of the encoder's outer loop with half-block size h: every
      position in the first half of its 2h-block is XORed with its partner h
      places on; the other positions are kept. */
  function Stage(s: seq<B>, h: nat): (r: seq<B>)
    requires 0 < h
    ensures |r| == |s|
  {
    seq(|s|, p requires 0 <= p < |s| =>
      if InLowHalf(p, h) && p + h < |s| then s[p] ^ s[p + h] else s[p])
  }

  /** The polar transform applied separately to every block of size m. */
  function Blockwise(s: seq<B>, m: nat): (r: seq<B>)
    requires IsPow2(m) && Tiles(|s|, m)
    ensures |r| == |s|
    decreases |s|
  {
    if |s| == 0 then []
    else Polar(s[..m]) + Blockwise(s[m..], m)
  }

  /** A sequence is its first n elements followed by the rest. */
  lemma SplitAt<T>(s: seq<T>, n: nat)
    requires n <= |s|
    ensures s == s[..n] + s[n..]
  {
  }

  /** The two halves of the first 2h-block of s. */
  lemma TakeParts<T>(s: seq<T>, h: nat)
    requires 2 * h <= |s|
    ensures s[..2 * h][..h] == s[..h] && s[..2 * h][h..] == s[h..2 * h]
  {
  }

  /** The parts of a concatenation. */
  lemma ConcatParts<T>(a: seq<T>, b: seq<T>)
    ensures (a + b)[..|a|] == a && (a + b)[|a|..] == b
  {
  }

  /** Indexing into a concatenation. */
  lemma IndexLeft<T>(a: seq<T>, b: seq<T>, i: nat)
    requires i < |a|
    ensures (a + b)[i] == a[i]
  {
  }

  lemma IndexRight<T>(a: seq<T>, b: seq<T>, i: nat)
    requires |a| <= i < |a| + |b|
    ensures (a + b)[i] == b[i - |a|]
  {
  }

  /** The first 2h-block of s is its first two h-blocks. */
  lemma TakeHalves<T>(s: seq<T>, h: nat)
    requires 2 * h <= |s|
    ensures s[..2 * h] == s[..h] + s[h..2 * h]
  {
  }

  lemma ConcatAssoc<T>(a: seq<T>, b: seq<T>, c: seq<T>)
    ensures a + (b + c) == a + b + c
  {
  }

  lemma XorSwap(a: B, b: B, c: B, d: B)
    ensures (a ^ b) ^ (c ^ d) == (a ^ c) ^ (b ^ d)
  {
  }

  lemma {:induction false} XorConcat(a1: seq<B>, a2: seq<B>, b1: seq<B>, b2: seq<B>)
    requires |a1| == |b1| && |a2| == |b2|
    ensures Xor(a1 + a2, b1 + b2) == Xor(a1, b1) + Xor(a2, b2)
  {
  }

  /** XOR with the same vector twice cancels. */
  lemma {:induction false} XorCancel(a: seq<B>, b: seq<B>)
    requires |a| == |b|
    ensures Xor(Xor(a, b), b) == a
  {
  }

  /** The halves of a XOR are the XORs of the halves. */
  lemma XorHalves(a: seq<B>, b: seq<B>, h: nat)
    requires |a| == |b| == 2 * h
    ensures Xor(a, b)[..h] == Xor(a[..h], b[..h])
    ensures Xor(a, b)[h..] == Xor(a[h..], b[h..])
  {
  }

  /** Folding the halves together commutes with the XOR. */
  lemma XorFold(a: seq<B>, b: seq<B>, h: nat)
    requires |a| == |b| == 2 * h
    ensures Xor(Xor(a[..h], b[..h]), Xor(a[h..], b[h..]))
         == Xor(Xor(a[..h], a[h..]), Xor(b[..h], b[h..]))
  {
    var al, ah, bl, bh := a[..h], a[h..], b[..h], b[h..];
    var l := Xor(Xor(al, bl), Xor(ah, bh));
    var r := Xor(Xor(al, ah), Xor(bl, bh));
    assert |l| == |r| == h;
    forall i | 0 <= i < h ensures l[i] == r[i] {
      assert l[i] == (al[i] ^ bl[i]) ^ (ah[i] ^ bh[i]);
      assert r[i] == (al[i] ^ ah[i]) ^ (bl[i] ^ bh[i]);
      XorSwap(al[i], bl[i], ah[i], bh[i]);
    }
  }

  /** Polar on a vector given by its two halves. */
  lemma {:induction false} PolarHalves(lo: seq<B>, hi: seq<B>)
    requires |lo| == |hi| && IsPow2(|lo|)
    ensures IsPow2(|lo + hi|)
    ensures Polar(lo + hi) == Polar(Xor(lo, hi)) + Polar(hi)
  {
    Pow2Double(|lo|);
    var s := lo + hi;
    assert s[..|lo|] == lo && s[|lo|..] == hi;
  }

  /** The transform is linear over GF(2). */
  lemma {:induction false} PolarLinear(a: seq<B>, b: seq<B>)
    requires |a| == |b| && IsPow2(|a|)
    ensures Polar(Xor(a, b)) == Xor(Polar(a), Polar(b))
    decreases |a|
  {
    if |a| > 1 {
      var h := |a| / 2;
      var c := Xor(a, b);
      var ta, tb := Xor(a[..h], a[h..]), Xor(b[..h], b[h..]);
      var ha, hb := a[h..], b[h..];
      assert Polar(c) == Polar(Xor(ta, tb)) + Polar(Xor(ha, hb)) by {
        XorHalves(a, b, h);
        XorFold(a, b, h);
      }
      PolarLinear(ta, tb);
      PolarLinear(ha, hb);
      XorConcat(Polar(ta), Polar(ha), Polar(tb), Polar(hb));
    }
  }

  /** The transform is its own inverse: G_N G_N = I over GF(2).  This is what
      lets is_codeword undo the encoder by running the same butterfly. */
  lemma {:induction false} PolarInvolution(s: seq<B>)
    requires IsPow2(|s|)
    ensures Polar(Polar(s)) == s
    decreases |s|
  {
    if |s| > 1 {
      var h := |s| / 2;
      var lo, hi := s[..h], s[h..];
      var t := Xor(lo, hi);
      var pt, ph := Polar(t), Polar(hi);
      assert Polar(s) == pt + ph by {
        assert s == lo + hi;
      }
      assert Polar(pt + ph) == Polar(Xor(pt, ph)) + Polar(ph) by {
        PolarHalves(pt, ph);
      }
      assert Polar(Xor(pt, ph)) == lo by {
        PolarLinear(t, hi);
        PolarInvolution(Xor(t, hi));
        XorCancel(lo, hi);
      }
      PolarInvolution(hi);
      assert s == lo + hi;
    }
  }

  /** The last position is never changed: no butterfly writes index N-1. */
  lemma {:induction false} PolarLast(s: seq<B>)
    requires IsPow2(|s|)
    ensures Polar(s)[|s| - 1] == s[|s| - 1]
    decreases |s|
  {
    if |s| > 1 {
      var h := |s| / 2;
      PolarLast(s[h..]);
    }
  }

  lemma XorBinary(a: seq<B>, b: seq<B>)
    requires |a| == |b| && IsBinary(a) && IsBinary(b)
    ensures IsBinary(Xor(a, b))
  {
    var x := Xor(a, b);
    forall i | 0 <= i < |x| ensures x[i] == 0 || x[i] == 1 {
      assert a[i] == 0 || a[i] == 1;
      assert b[i] == 0 || b[i] == 1;
    }
  }

  lemma BinarySplit(s: seq<B>, h: nat)
    requires h <= |s| && IsBinary(s)
    ensures IsBinary(s[..h]) && IsBinary(s[h..])
  {
    assert forall i :: 0 <= i < |s| - h ==> s[h..][i] == s[h + i];
  }

  lemma BinaryConcat(a: seq<B>, b: seq<B>)
    requires IsBinary(a) && IsBinary(b)
    ensures IsBinary(a + b)
  {
    var c := a + b;
    forall i | 0 <= i < |c| ensures c[i] == 0 || c[i] == 1 {
      if i >= |a| {
        assert c[i] == b[i - |a|];
      }
    }
  }

  /** Binary inputs give binary outputs. */
  lemma {:induction false} PolarBinary(s: seq<B>)
    requires IsPow2(|s|) && IsBinary(s)
    ensures IsBinary(Polar(s))
    decreases |s|
  {
    if |s| > 1 {
      var h := |s| / 2;
      var lo, hi := s[..h], s[h..];
      var t := Xor(lo, hi);
      BinarySplit(s, h);
      XorBinary(lo, hi);
      PolarBinary(t);
      PolarBinary(hi);
      BinaryConcat(Polar(t), Polar(hi));
    }
  }

  /** A stage rewrites the first half of every 2h-block (starting at j) as
      the XOR with the second half, and leaves the second half alone. */
  lemma StageAt(s: seq<B>, h: nat, j: nat, i: nat)
    requires 0 < h && Tiles(j, 2 * h) && j + 2 * h <= |s| && i < h
    ensures Stage(s, h)[j + i] == s[j + i] ^ s[j + h + i]
    ensures Stage(s, h)[j + h + i] == s[j + h + i]
  {
    BlockHalves(j, h, i);
  }

  /** The first block of a stage is the butterfly of the first block. */
  lemma StageFirstBlock(s: seq<B>, h: nat)
    requires 0 < h && 2 * h <= |s|
    ensures Stage(s, h)[..2 * h] == Butterfly(s[..2 * h], h)
  {
    var r := Stage(s, h)[..2 * h];
    var bf := Butterfly(s[..2 * h], h);
    forall p | 0 <= p < 2 * h ensures r[p] == bf[p] {
      BlockHalves(0, h, if p < h then p else p - h);
    }
  }

  /** After the first block, a stage is the stage of the rest. */
  lemma StageRest(s: seq<B>, h: nat)
    requires 0 < h && 2 * h <= |s|
    ensures Stage(s, h)[2 * h..] == Stage(s[2 * h..], h)
  {
    var l, r := Stage(s, h)[2 * h..], Stage(s[2 * h..], h);
    forall p | 0 <= p < |r| ensures l[p] == r[p] {
      assert InLowHalf(p + 2 * h, h) == InLowHalf(p, h);
    }
  }

  lemma {:induction false} BlockwiseWhole(s: seq<B>)
    requires IsPow2(|s|)
    ensures Tiles(|s|, |s|) && Blockwise(s, |s|) == Polar(s)
  {
    var n := |s|;
    assert Tiles(n - n, n);
    assert s[..n] == s;
    assert Blockwise(s[n..], n) == [];
    assert Blockwise(s, n) == Polar(s[..n]) + Blockwise(s[n..], n);
  }

  /** Blocks of size 1 are left as they are. */
  lemma {:induction false} BlockwiseUnit(s: seq<B>)
    requires Tiles(|s|, 1)
    ensures Blockwise(s, 1) == s
    decreases |s|
  {
    if |s| > 0 {
      assert Tiles(|s| - 1, 1);
      assert Blockwise(s, 1) == Polar(s[..1]) + Blockwise(s[1..], 1);
      assert Polar(s[..1]) == s[..1];
      BlockwiseUnit(s[1..]);
      assert s == s[..1] + s[1..];
    }
  }

  /** Transforming every 2h-block is the same as running one stage and then
      transforming every h-block: the invariant of the encoder's outer loop. */
  lemma {:induction false} BlockwiseStage(s: seq<B>, h: nat)
    requires IsPow2(h) && Tiles(|s|, 2 * h)
    ensures IsPow2(2 * h) && Tiles(|s|, h)
    ensures Blockwise(s, 2 * h) == Blockwise(Stage(s, h), h)
    decreases |s|
  {
    Pow2Double(h);
    TilesHalf(|s|, h);
    if |s| > 0 {
      TilesHalfDrop(|s|, h);
      var lo, hi, rest := s[..h], s[h..2 * h], s[2 * h..];
      var t, sr := Xor(lo, hi), Stage(rest, h);
      assert |t| == h && |sr| == |rest| == |s| - 2 * h;
      calc {
        Blockwise(s, 2 * h);
      == { BlockwiseFirst(s, h); }
        Polar(t) + Polar(hi) + Blockwise(rest, 2 * h);
      == { BlockwiseStage(rest, h); }
        Polar(t) + Polar(hi) + Blockwise(sr, h);
      == { BlockwiseConcat(t, hi, sr, h); }
        Blockwise(t + hi + sr, h);
      == { StageSplit(s, h); }
        Blockwise(Stage(s, h), h);
      }
    }
  }


  /** Blockwise, unfolded once. */
  lemma BlockwiseCons(s: seq<B>, m: nat)
    requires IsPow2(m) && Tiles(|s|, m) && 0 < |s|
    ensures m <= |s| && Tiles(|s| - m, m)
    ensures Blockwise(s, m) == Polar(s[..m]) + Blockwise(s[m..], m)
  {
  }

  /** The first 2h-block of Blockwise(s, 2h), by its two halves. */
  lemma BlockwiseFirst(s: seq<B>, h: nat)
    requires IsPow2(h) && Tiles(|s|, 2 * h) && 0 < |s|
    ensures IsPow2(2 * h) && Tiles(|s| - 2 * h, 2 * h)
    ensures Blockwise(s, 2 * h)
         == Polar(Xor(s[..h], s[h..2 * h])) + Polar(s[h..2 * h]) + Blockwise(s[2 * h..], 2 * h)
  {
    Pow2Double(h);
    BlockwiseCons(s, 2 * h);
    PolarFirstBlock(s, h);
  }

  /** The transform of the first 2h-block, by its two halves. */
  lemma PolarFirstBlock(s: seq<B>, h: nat)
    requires IsPow2(h) && IsPow2(2 * h) && 2 * h <= |s|
    ensures Polar(s[..2 * h]) == Polar(Xor(s[..h], s[h..2 * h])) + Polar(s[h..2 * h])
  {
    TakeHalves(s, h);
    PolarHalves(s[..h], s[h..2 * h]);
  }



  /** A stage, split into the two halves of its first block and the rest. */
  lemma StageSplit(s: seq<B>, h: nat)
    requires 0 < h && 2 * h <= |s|
    ensures Stage(s, h) == Xor(s[..h], s[h..2 * h]) + s[h..2 * h] + Stage(s[2 * h..], h)
  {
    var st := Stage(s, h);
    StageFirstBlock(s, h);
    TakeParts(s, h);
    StageRest(s, h);
    SplitAt(st, 2 * h);
  }

  /** Blockwise over two h-blocks followed by more h-blocks. */
  lemma BlockwiseConcat(a: seq<B>, b: seq<B>, c: seq<B>, h: nat)
    requires IsPow2(h) && |a| == h && |b| == h && Tiles(|c|, h)
    ensures Tiles(|a + b + c|, h)
    ensures Blockwise(a + b + c, h) == Polar(a) + Polar(b) + Blockwise(c, h)
  {
    assert Tiles(|b + c|, h) && Tiles(|a + (b + c)|, h);
    ConcatAssoc(a, b, c);
    calc {
      Blockwise(a + (b + c), h);
    == { BlockwiseCons(a + (b + c), h); ConcatParts(a, b + c); }
      Polar(a) + Blockwise(b + c, h);
    == { BlockwiseCons(b + c, h); ConcatParts(b, c); }
      Polar(a) + (Polar(b) + Blockwise(c, h));
    == { ConcatAssoc(Polar(a), Polar(b), Blockwise(c, h)); }
      Polar(a) + Polar(b) + Blockwise(c, h);
    }
  }

  /** The last position of every m-block is left as it is by the per-block
      transform (each block's last bit is its own image). */
  lemma {:induction false} BlockwiseBoundaries(s: seq<B>, m: nat)
    requires IsPow2(m) && Tiles(|s|, m)
    ensures forall q :: 0 < q <= |s| && Tiles(q, m) ==> Blockwise(s, m)[q - 1] == s[q - 1]
  {
    forall q | 0 < q <= |s| && Tiles(q, m)
      ensures Blockwise(s, m)[q - 1] == s[q - 1]
    {
      BlockwiseBoundary(s, m, q);
    }
  }

  /** The position just before the block end q. */
  lemma {:induction false} BlockwiseBoundary(s: seq<B>, m: nat, q: nat)
    requires IsPow2(m) && Tiles(|s|, m) && 0 < q <= |s| && Tiles(q, m)
    ensures Blockwise(s, m)[q - 1] == s[q - 1]
    decreases |s|, 1
  {
    BlockwiseCons(s, m);
    if q == m {
      BoundaryInFirst(s, m, Blockwise(s[m..], m));
    } else {
      BoundaryInRest(s, m, q);
    }
  }

  /** The block end inside the first block, and after it. */
  lemma BoundaryInFirst(s: seq<B>, m: nat, c: seq<B>)
    requires IsPow2(m) && m <= |s|
    ensures (Polar(s[..m]) + c)[m - 1] == s[m - 1]
  {
    var a := s[..m];
    PolarLast(a);
    IndexLeft(Polar(a), c, m - 1);
  }

  lemma {:induction false} BoundaryInRest(s: seq<B>, m: nat, q: nat)
    requires IsPow2(m) && m < q <= |s| && Tiles(|s| - m, m) && Tiles(q, m)
    ensures (Polar(s[..m]) + Blockwise(s[m..], m))[q - 1] == s[q - 1]
    decreases |s|, 0
  {
    var a, r := s[..m], s[m..];
    assert Tiles(q - m, m);
    BlockwiseBoundary(r, m, q - m);
    IndexRight(Polar(a), Blockwise(r, m), q - 1);
  }

  /** One pass of the encoder's outer loop, from half-size h to h / 2: what
      the per-block transform still owes shrinks to blocks of size h, and
      after the pass with h = 1 nothing is owed. */
  lemma ButterflyPass(s: seq<B>, h: nat, y: seq<B>)
    requires IsPow2(h) && Tiles(|s|, 2 * h) && Blockwise(s, 2 * h) == y
    ensures Tiles(|s|, h) && Blockwise(Stage(s, h), h) == y
    ensures h == 1 ==> Stage(s, h) == y
    ensures h > 1 ==> IsPow2(h / 2) && 2 * (h / 2) == h
  {
    BlockwiseStage(s, h);
    if h == 1 {
      BlockwiseUnit(Stage(s, h));
    }
  }
}

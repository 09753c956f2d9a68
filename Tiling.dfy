// Powers of two and splitting a length into equal blocks, without nonlinear
// arithmetic: both are defined by repeated halving or repeated subtraction.

module Tiling {

  /** n is 1, 2, 4, 8, ... */
  predicate IsPow2(n: nat)
    decreases n
  {
    n == 1 || (2 <= n && n % 2 == 0 && IsPow2(n / 2))
  }

  /** n is a whole number of blocks of size m (and m is positive unless n is 0). */
  predicate Tiles(n: nat, m: nat)
    decreases n
  {
    n == 0 || (0 < m <= n && Tiles(n - m, m))
  }

  lemma {:induction false} Pow2Double(h: nat)
    requires IsPow2(h)
    ensures IsPow2(2 * h)
  {
    assert (2 * h) / 2 == h;
  }

  /** A whole number of 2h-blocks is also a whole number of h-blocks. */
  lemma {:induction false} TilesHalf(n: nat, h: nat)
    requires Tiles(n, 2 * h)
    ensures Tiles(n, h)
  {
    if n != 0 {
      TilesHalf(n - 2 * h, h);
      assert Tiles(n - h, h);
    }
  }

  /** Dropping one or two h-blocks from a whole number of 2h-blocks leaves a
      whole number of h-blocks. */
  lemma TilesHalfDrop(n: nat, h: nat)
    requires Tiles(n, 2 * h) && 2 * h <= n
    ensures Tiles(n, h) && Tiles(n - h, h) && Tiles(n - 2 * h, h)
  {
    TilesHalf(n, h);
    TilesHalf(n - 2 * h, h);
  }

  /** Every length is a whole number of 1-blocks. */
  lemma {:induction false} TilesOne(n: nat)
    ensures Tiles(n, 1)
  {
    if n > 0 {
      TilesOne(n - 1);
    }
  }

  /** A block boundary j before the end n of a tiling leaves room for a whole block. */
  lemma {:induction false} TilesStep(n: nat, j: nat, m: nat)
    requires Tiles(n, m) && Tiles(j, m) && j < n
    ensures j + m <= n
    decreases j
  {
    if j > 0 {
      TilesStep(n - m, j - m, m);
    }
  }

  /** A boundary of the h-blocks is a boundary of the 2h-blocks, or sits in
      the middle of a 2h-block. */
  lemma {:induction false} TilesSplit(n: nat, h: nat)
    requires 0 < h && Tiles(n, h)
    ensures Tiles(n, 2 * h) || (h <= n && Tiles(n - h, 2 * h))
    decreases n
  {
    if n > h {
      assert Tiles(n - h, h);
      assert Tiles(n - 2 * h, h);
      TilesSplit(n - 2 * h, h);
      if Tiles(n - 2 * h, 2 * h) {
        assert Tiles(n, 2 * h);
      } else {
        assert Tiles(n - 3 * h, 2 * h);
        assert Tiles(n - h, 2 * h);
      }
    }
  }

  /** The middle of a 2h-block is a boundary of the h-blocks. */
  lemma TilesMiddle(j: nat, h: nat)
    requires 0 < h && Tiles(j, 2 * h)
    ensures Tiles(j + h, h)
  {
    TilesHalf(j, h);
  }

  /** Position p lies in the first half of its block of size 2h. */
  predicate InLowHalf(p: nat, h: nat)
    requires 0 < h
    decreases p
  {
    if p < 2 * h then p < h else InLowHalf(p - 2 * h, h)
  }

  /** In the block starting at j (a multiple of 2h), the i-th position of
      the first half is low and the i-th position of the second half is not. */
  lemma {:induction false} BlockHalves(j: nat, h: nat, i: nat)
    requires 0 < h && Tiles(j, 2 * h) && i < h
    ensures InLowHalf(j + i, h) && !InLowHalf(j + h + i, h)
    decreases j
  {
    if j > 0 {
      BlockHalves(j - 2 * h, h, i);
    }
  }
}

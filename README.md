# Polar encoder and user-file channels of AFF3CT, in Dafny

This project models three pieces of the AFF3CT forward-error-correction
library and proves what they compute.

**`Encoder_polar`** is the non-systematic polar encoder. It has four parts:

- **The constructor.** It checks the frozen-bit mask against N and K.
- **`notify_frozenbits_update`.** It lists the information positions.
- **`convert`.** It spreads the K information bits over the N positions.
- **`light_encode`.** It runs the in-place XOR butterfly.

`_encode` chains `convert` and `light_encode`. `is_codeword` runs the
butterfly on a scratch copy, checking frozen positions along the way.

The butterfly is proved equal to Arikan's polar transform, `u |-> u G_N`,
which is defined by the Kronecker recursion of G_N as the function `Polar`
(module `PolarTransform`). The
proof goes through two more functions:

- `Stage` is one pass of the outer loop.
- `Blockwise` applies the transform to each block separately.

Lengths are whole numbers of blocks (`Tiles`, module `Tiling`). This keeps
the proofs free of nonlinear arithmetic. The frozen-bit bookkeeping is in
module `FrozenBits`. Which vectors are codewords, and what the encoder's
check accepts, is in module `Codewords`.

**`Channel_user_bs` and `Channel_user_be`** are the binary symmetric and
binary erasure channels, driven by events read from a file. Each
`_add_noise` has two loops:

- a vector loop over whole SIMD registers, written with the MIPP lane
  operations (module `Mipp`);
- a scalar tail for the remaining elements.

The model proves that both loops apply the same per-element rule. It also
proves that together they cover each of the N positions exactly once.

## Model

| member | source | states |
|---|---|---|
| PolarEncoder.EncoderPolar.Create | src/aff3ct/Module/Encoder/Polar/Encoder_polar.cpp:20-37 | a mask whose size is not N gives a length error (checked first); otherwise a mask whose number of information bits is not K gives a runtime error carrying K and the count; otherwise a fresh, valid encoder with that K, N and mask, whose scratch buffer X_N_tmp is freshly allocated too |
| PolarEncoder.CountInformationBits | src/aff3ct/Module/Encoder/Polar/Encoder_polar.cpp:28 | the counting loop returns the number of non-frozen entries of the mask |
| PolarEncoder.EncoderPolar.NotifyFrozenbitsUpdate | src/aff3ct/Module/Encoder/Polar/Encoder_polar.cpp:98-106 | afterwards info_bits_pos is exactly InfoPositions of the mask (the invariant Valid) |
| FrozenBits.InfoPositionsSpec | src/aff3ct/Module/Encoder/Polar/Encoder_polar.cpp:98-106 | info_bits_pos lists only non-frozen indices below N, in strictly increasing order, and every non-frozen index appears in it |
| PolarEncoder.EncoderPolar.ScatterFrom | src/aff3ct/Module/Encoder/Polar/Encoder_polar.cpp:67-69 | the loop with the running counter j writes exactly Scatter(mask, U_K) into U_N[0..N) and leaves the rest of U_N alone |
| PolarEncoder.EncoderPolar.Convert | src/aff3ct/Module/Encoder/Polar/Encoder_polar.cpp:58-77 | U_N[0..N) becomes Scatter(mask, old U_K) in both branches, so the aliasing branch and the separate-buffer branch give the same result |
| FrozenBits.ScatterFrozen | src/aff3ct/Module/Encoder/Polar/Encoder_polar.cpp:69 | convert's output is 0 at every frozen index |
| FrozenBits.GatherScatter | src/aff3ct/Module/Encoder/Polar/Encoder_polar.cpp:58-77 | reading convert's output at the information positions, in order, gives back U_K |
| FrozenBits.GatherAt | src/aff3ct/Module/Encoder/Polar/Encoder_polar.cpp:103-105 | the t-th value gathered is the one at info_bits_pos[t] |
| FrozenBits.ScatterGather | src/aff3ct/Module/Encoder/Polar/Encoder_polar.cpp:58-77 | a vector that is 0 at every frozen index is the convert of what it holds at the information positions |
| PolarEncoder.XorBlock | src/aff3ct/Module/Encoder/Polar/Encoder_polar.cpp:54-55 | the innermost loop brings one 2k-block to its value after the stage and writes only the block's first half |
| PolarEncoder.StageInPlace | src/aff3ct/Module/Encoder/Polar/Encoder_polar.cpp:53-55 | one pass of the middle loop turns the first N elements into Stage(old, k) and leaves the rest alone |
| PolarTransform.StageAt | src/aff3ct/Module/Encoder/Polar/Encoder_polar.cpp:55 | a stage rewrites position j+i of each 2k-block as the XOR with position j+k+i and keeps the second half |
| PolarTransform.BlockwiseStage | src/aff3ct/Module/Encoder/Polar/Encoder_polar.cpp:52-55 | transforming every 2h-block equals one stage followed by transforming every h-block, which is the outer loop's invariant |
| PolarTransform.ButterflyPass | src/aff3ct/Module/Encoder/Polar/Encoder_polar.cpp:52 | after the pass with k = 1 the vector is the whole transform; otherwise k / 2 is again a power of two |
| PolarEncoder.EncoderPolar.LightEncode | src/aff3ct/Module/Encoder/Polar/Encoder_polar.cpp:48-56 | the triple loop leaves bits[0..N) equal to the polar transform of its old value and touches nothing else |
| PolarTransform.PolarLast | src/aff3ct/Module/Encoder/Polar/Encoder_polar.cpp:48-56 | index N-1 is never changed by the transform |
| PolarTransform.PolarBinary | src/aff3ct/Module/Encoder/Polar/Encoder_polar.cpp:48-56 | binary inputs give binary outputs |
| PolarTransform.PolarLinear | src/aff3ct/Module/Encoder/Polar/Encoder_polar.cpp:48-56 | the transform is linear over GF(2) |
| PolarTransform.PolarInvolution | src/aff3ct/Module/Encoder/Polar/Encoder_polar.cpp:48-56 | the transform is its own inverse (G_N G_N = I) |
| PolarEncoder.EncoderPolar.Encode | src/aff3ct/Module/Encoder/Polar/Encoder_polar.cpp:40-46 | X_N[0..N) is the transform of convert(U_K); it is a codeword and passes is_codeword's check |
| PolarEncoder.EncodeAndCheck | src/aff3ct/Module/Encoder/Polar/Encoder_polar.cpp:79-96 | an encoder built through the constructor's checks encodes any K information bits, and is_codeword then returns true on the result |
| Codewords.EncodedPassesCheck | src/aff3ct/Module/Encoder/Polar/Encoder_polar.cpp:79-96 | is_codeword's check accepts every output of _encode |
| Codewords.CodewordCharacterization | src/aff3ct/Module/Encoder/Polar/Encoder_polar.cpp:79-96 | x is the encoding of some K information bits exactly when its transform is 0 at every frozen position |
| Codewords.ClearIsCodeword | src/aff3ct/Module/Encoder/Polar/Encoder_polar.cpp:79-96 | a vector whose transform is 0 at the frozen positions is the encoding of its transform's information positions |
| Codewords.CodewordIsClear | src/aff3ct/Module/Encoder/Polar/Encoder_polar.cpp:40-46 | the transform of every encoder output is 0 at every frozen position (with CodewordCharacterization: every output is a codeword) |
| PolarEncoder.EncoderPolar.CheckStage | src/aff3ct/Module/Encoder/Polar/Encoder_polar.cpp:86-92 | one pass of is_codeword's middle loop returns false exactly when some block's checked position j+k-1 is frozen and nonzero; when it returns true the scratch copy has gone through the stage |
| PolarEncoder.EncoderPolar.CopyIn | src/aff3ct/Module/Encoder/Polar/Encoder_polar.cpp:83 | X_N_tmp becomes a copy of X_N[0..N); X_N itself is unchanged unless it is X_N_tmp |
| PolarEncoder.EncoderPolar.CheckPass | src/aff3ct/Module/Encoder/Polar/Encoder_polar.cpp:85-93 | one pass of the outer loop either finds a frozen position below N-1 where the final transform is nonzero, or advances the scratch copy by one stage with every k-block end below N-1 inspected |
| PolarEncoder.CheckStart | src/aff3ct/Module/Encoder/Polar/Encoder_polar.cpp:83-85 | before the first pass the blocks have size N, their transform is the whole transform and nothing has been inspected |
| PolarEncoder.CheckValues | src/aff3ct/Module/Encoder/Polar/Encoder_polar.cpp:91 | the value checked at j+k-1 after the stage with half-size k is already the final transform's value there |
| PolarEncoder.BlocksClearNext | src/aff3ct/Module/Encoder/Polar/Encoder_polar.cpp:86-92 | the blocks checked so far pass exactly when the earlier blocks pass and the new block passes |
| PolarEncoder.BoundariesMerge | src/aff3ct/Module/Encoder/Polar/Encoder_polar.cpp:85-93 | the passes so far have checked every frozen position p < N-1 that ends a k-block |
| PolarEncoder.BoundariesEnd | src/aff3ct/Module/Encoder/Polar/Encoder_polar.cpp:85-95 | after the last pass every frozen position below N-1 has been checked |
| PolarEncoder.BlocksFail | src/aff3ct/Module/Encoder/Polar/Encoder_polar.cpp:91-92 | an early false names a frozen position below N-1 where the transform is nonzero |
| PolarEncoder.EncoderPolar.IsCodeword | src/aff3ct/Module/Encoder/Polar/Encoder_polar.cpp:79-96 | returns true exactly when the transform of X_N is 0 at every frozen position other than N-1; X_N is left unchanged |
| Codewords.ChecksPassAndLast | src/aff3ct/Module/Encoder/Polar/Encoder_polar.cpp:79-96 | the check differs from codeword membership only at N-1, where the transform equals X_N itself |
| Codewords.LastFrozenMissed | src/aff3ct/Module/Encoder/Polar/Encoder_polar.cpp:85-95 | with N = 2, mask [false, true] and X = [0, 1] the check passes though X is not a codeword |
| PolarEncoder.EncoderPolar.IsCodewordCorrected | src/aff3ct/Module/Encoder/Polar/Encoder_polar.cpp:79-96 | the check with position N-1 inspected too returns true exactly for the codewords |
| ChannelUserBs.FlipRule | src/aff3ct/Module/Channel/User/Channel_user_bs.cpp:55 | the output is 0 or 1; without an event it is 1 exactly when X != 0, with an event exactly when X == 0 (the hard decision flipped) |
| ChannelUserBs.FlipRegisterLanes | src/aff3ct/Module/Channel/User/Channel_user_bs.cpp:44-50 | blend(r_0, r_1, m_event ^ m_zero) on the register loaded at i gives, lane by lane, the scalar tail's rule |
| ChannelUserBs.ChannelUserBs.VectorLoop | src/aff3ct/Module/Channel/User/Channel_user_bs.cpp:42-52 | the vector loop writes the flip rule into Y[0..vec_loop_size) and nothing else |
| ChannelUserBs.ChannelUserBs.ScalarTail | src/aff3ct/Module/Channel/User/Channel_user_bs.cpp:54-55 | the tail writes the flip rule into Y[vec_loop_size..N) and nothing else |
| ChannelUserBs.ChannelUserBs.AddNoise | src/aff3ct/Module/Channel/User/Channel_user_bs.cpp:27-56 | Y[i] is the flip rule of the old X[i] and the event at N*frame_id + i for every i < N; Y beyond N is unchanged |
| Mipp.VecLoopSize | src/aff3ct/Module/Channel/User/Channel_user_bs.cpp:40 | vec_loop_size is a multiple of the register width with vec_loop_size <= N < vec_loop_size + width |
| Mipp.LoopsCover | src/aff3ct/Module/Channel/User/Channel_user_bs.cpp:40-54 | each index below N is in the scalar tail or in a register load, and in exactly one register load |
| Mipp.Store | src/aff3ct/Module/Channel/User/Channel_user_bs.cpp:51 | a store writes the register's lanes to Y[i..i+width) and nothing else |
| ChannelUserBe.EraseRule | src/aff3ct/Module/Channel/User/Channel_user_be.cpp:50 | with an event the output is the erasure symbol, otherwise an unchanged copy of X |
| ChannelUserBe.EraseRegisterLanes | src/aff3ct/Module/Channel/User/Channel_user_be.cpp:43-45 | blend(r_in, r_erased, r_event == r_false) on the register loaded at i gives, lane by lane, the scalar tail's rule |
| ChannelUserBe.ChannelUserBe.VectorLoop | src/aff3ct/Module/Channel/User/Channel_user_be.cpp:41-47 | the vector loop writes the erasure rule into Y[0..vec_loop_size) and nothing else |
| ChannelUserBe.ChannelUserBe.ScalarTail | src/aff3ct/Module/Channel/User/Channel_user_be.cpp:49-50 | the tail writes the erasure rule into Y[vec_loop_size..N) and nothing else |
| ChannelUserBe.ChannelUserBe.AddNoise | src/aff3ct/Module/Channel/User/Channel_user_be.cpp:27-51 | Y[i] is the erasure rule of the old X[i] and the event at N*frame_id + i for every i < N; Y beyond N is unchanged |

## Left out

- `m = (int)std::log2(N)` is a floating-point logarithm that none of the modelled operations reads. The model omits it. Instead, N being a power of two is a precondition of the encoder. For other N the butterfly is not a polar transform: with some N (3, 5 or 10, say) light_encode and is_codeword read and write past index N-1; with the N for which every block size 2k the loops use divides N (6, 12 or 20, say) they stay in bounds but compute a different, mixed-radix map.
- PolarEncoder.EncoderPolar.Create takes N being a power of two as a precondition, because the model of the butterfly is defined only for such N; the source does not check it.
- The frozen-bit mask is fixed when the encoder is built (`frozenBits` is a constant). PolarEncoder.EncoderPolar.NotifyFrozenbitsUpdate therefore re-derives the list from that same mask; a mask changed after construction, and the re-derivation that would then follow, are not modelled.
- The base class `Encoder` is not part of this model, so its own checks on K and N are not modelled. Neither are `frame_id`, `n_frames`, `set_name` and `set_sys`.
- B is taken at its 8-bit instantiation (`bv8`). The encoder only uses XOR and the test against zero, so no property depends on the width.
- PolarEncoder.EncoderPolar.Convert models the two cases where U_K and U_N are the same buffer or disjoint buffers. Partially overlapping buffers are not modelled.
- PolarEncoder.EncoderPolar.IsCodeword states nothing about X_N_tmp's contents after an early false.
- The channels' `set_noise(frame_id)` and the file loading in the parent class are left out. The event buffer is a parameter of the model: a `seq<bool>` holding N events per frame.
- The source reads the event buffer through a reinterpret cast to the integer type `E`. The model assumes that every event stored in the user file is 0 or 1. For other integer values, the bs scalar tail compares the event with the 0/1 value of `X == 0`, so it would not agree with the vector loop's `!= false`. That case is not modelled.
- The MIPP register width `nElReg<R>()` is a parameter (`width > 0`). Registers are modelled lane by lane as sequences. Alignment and the hardware instructions are not modelled.
- The bs channel's R is modelled as `real`, with only the test against 0.0 used. Floating-point details such as -0.0 and NaN are not modelled.
- The value of `tools::unknown_symbol_val<R>()` is not part of this model. The be channel takes it as a parameter, `erased`.

## Findings

| source | as written | input that shows it | evidently intended | confidence | as-written member | corrected member |
|---|---|---|---|---|---|---|
| src/aff3ct/Module/Encoder/Polar/Encoder_polar.cpp:85-95 | the check reads X_N_tmp[j+k-1] after each block, which never reaches index N-1, so a frozen last position is never inspected | N = 2, K = 1, frozen_bits = [false, true], X_N = [0, 1]: is_codeword returns true, but the only codewords are [u, 0] | is_codeword returns true exactly for codewords, which needs X_N[N-1] (the transform's value there) checked when position N-1 is frozen | not executed | Codewords.LastFrozenMissed, PolarEncoder.EncoderPolar.IsCodeword | PolarEncoder.EncoderPolar.IsCodewordCorrected |

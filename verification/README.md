# Verified core of the big-number and block-mode code

A Dafny model of the arithmetic and block-mode core of a cryptographic primitives library, with proofs that the optimised code computes
what its mathematical definition says. `dafny verify dfyconfig.toml` checks everything. Nothing here executes the library.

Three groups of modules:

1. **Radix-2^52 RSA kernel.** `Arith`, `Digits` and `Bits` hold the number facts. `Lanes` is the parallel carry resolution, `Amm` the
   almost-Montgomery multiplication on arrays of 64-bit lanes (single and dual), `Montgomery` what its results represent, `Windows` the
   5-bit windows of an exponent held in 64-bit words, `Exp` and `DualExp` the window exponentiations, `Driver` the dual exponentiation
   with its change of radix, and `Packing` that change byte by byte. The digit count is a parameter: 20, 30 (on 32 lanes) and 40 are
   instances.
2. **Generic modular engine.** `Words` has the carry macros and the product from half words, `Bnu` the vector routines on pointers into
   arrays, `Squaring` the squaring routine, `Division` long division over half words and `Reduction` its use on words, `WordMont` the
   Montgomery factor, reduction and multiplication, `ModArith` addition, subtraction, negation and halving, `Residues` the laws of
   encoding and decoding. `Engine.ModEngine` is the engine as an object over one array: constants, overlapping scratch of the
   initialisation, the pool, and at least one word of whatever lies behind it in memory. `Kaliski` is the almost-inverse algorithm as a
   run of states, `AlmInverse` its branching and constant-time forms in place, `Inverse` the two finishers. `Handover` passes an
   initialised engine to the RSA kernel. A half word is any number of bits from one up, a word two of them.
3. **Block modes.** The cipher is a pair of functions. `Cbc`, `Cfb` and `Stealing` define the modes (sections 6.2 and 6.3 of NIST SP
   800-38A, its Addendum, and section 5 of RFC 3962) and prove the in-place byte code against them. `Pipeline`, `Pipeline64` and
   `MultiBuffer` do so for the vector forms. `Aggregate` is hashing with one reduction for many blocks, `Ghash` the carry-less arithmetic,
   `Polynomial` and `Field` what that arithmetic means, `StandardHash` the hash of section 6.4 of NIST SP 800-38D as the standard states
   it, `HashKeys` the precomputed keys, `Counters` the counter blocks, `Gcm` and `AesGcm` the AVX2 schedule.

Machine integers are bounded types, wrapping is written out, and every method states its whole effect on the arrays it may write.
Operands may overlap wherever the library allows it: results over operands, outputs over inputs, a buffer encrypted in place.

## What the proofs found

- Halving (`gs_mont_div2`) takes one pool element but stores a carry word just past it. The result is right in every state of the pool;
  with exactly one free element the word past the end of the engine is overwritten and left zero (`Engine.ModEngine.Half`).
- The division of `gsModEngineInit` needs half a word above its dividend when that has no leading zero. With a pool of one element, the
  minimum, the reduction of R squared then clears half a word past the end of the engine. `Engine.SpillIs` and
  `Engine.ModEngine.Init` say exactly when: the modulus is at least 2^32 (in 64-bit words) and R mod m fills its last half word.
  `Engine.OverrunExample` is a modulus of one word for which it happens; two pool elements always suffice.
- Reduction by a modulus of one half word leaves the words above the remainder as they were (`Reduction.ModReduce`). The initialisation is
  right all the same, since those words are zero before it divides (`Reduction.ReduceScaled`).
- Tripling (`gs_mont_mul3`) takes one element for itself and needs another for its additions, whose failure it does not check. With
  exactly one free element it reports success and leaves the result as it was; `Engine.ModEngine.Triple` states both cases.
- `dig52_regular` packs two digits with overlapping 64-bit stores; all of them stay within the output exactly when its size is not a
  multiple of thirteen words, which no supported size is (`Packing.StoresFit`).
- The exponentiations promise a result at or below the modulus, not below it, and the model proves just that.

## Model

| member | source | states |
|---|---|---|
| Bits.MaskAdditionRipples | sources/ippcp/ifma_norm52x.h:51-78 | bit j of the sum of the masks, xored with the propagate mask, is the ripple carry into lane j, for any number of lanes and either carry in |
| Lanes.MaskMarksCarries | sources/ippcp/ifma_norm52x.h:51-78 | the same within a mask register of finite width, where the sum wraps |
| Lanes.ExcessResolved | sources/ippcp/ifma_norm52x.h:23-50 | moving every lane's bits above 52 one lane up keeps the value whenever the value fits in the lanes, and leaves every lane at most one carry away from a digit |
| Lanes.Normalize | sources/ippcp/ifma_norm52x.h:22-91 | in place: every lane becomes a 52-bit digit and the value of the lanes is unchanged, for any lane count up to the mask width, whenever the value fits |
| Amm.Add104Exact | sources/ippcp/ifma_amm52x20.c:29-33 | with room in the high word, the double-word addition is exact |
| Amm.Shrd52Exact | sources/ippcp/ifma_amm52x20.c:35-35 | with a high word of at most 52 bits, the double shift is exact division of the double word by 2^52 |
| Amm.LowDigit | sources/ippcp/ifma_amm52x20.c:68-78 | the reduction digit makes the low digit vanish: the shifted low accumulator times 2^52 is exactly acc0 + a0*b + m0*y, with the bound that keeps it in 64 bits |
| Amm.Round | sources/ippcp/ifma_amm52x20.c:66-105 | one loop turn: with lane 0 of the vector ignored, the accumulator times 2^52 is the old one plus a*b_i plus m*y; no lane grows by more than four digits' worth |
| Amm.Multiply | sources/ippcp/ifma_amm52x20.c:43-118 | for a*b below m*2^(52n): normalised digits of r with r*2^(52n) = a*b + m*Y for some Y below 2^(52n), so r < 2m and r is congruent to a*b*2^(-52n); the output may be an operand |
| Amm.MultiplyDual | sources/ippcp/ifma_amm52x20_dual.c:42-171 | two interleaved multiplications: each has the result of its own multiplication, whatever the other does |
| Montgomery.OperandsFit | sources/ippcp/ifma_exp52x20.c:95-157 | with two spare bits above the modulus, operands below 2m meet the bound multiplication needs, so all products of an exponentiation stay below 2m |
| Montgomery.ProductRepresents | sources/ippcp/ifma_exp52x20.c:95-157 | the almost-Montgomery product of representatives of two residues represents their product |
| Montgomery.ExitReduces | sources/ippcp/ifma_exp52x20.c:154-157 | multiplying a representative below 2m by one gives a number at most m congruent to the residue |
| Exp.Extract | sources/ippcp/ifma_exp52x20.c:37-65 | reading all rows under masks leaves exactly the chosen row |
| Exp.BuildTable | sources/ippcp/ifma_exp52x20.c:92-102 | row i represents base^i for all 32 rows |
| Windows.WindowIsBits | sources/ippcp/ifma_exp52x20.c:132-143 | the five bits fetched at a bit position, from one 64-bit word or straddling two, are those bits of the exponent's value |
| Windows.FirstWindow | sources/ippcp/ifma_exp52x20.c:109-121 | the short first window holds all bits from its position up |
| Exp.WindowRound | sources/ippcp/ifma_exp52x20.c:124-148 | five squarings, a look-up and a product take base^(e >> bit+5) to base^(e >> bit) |
| Exp.Exponentiate | sources/ippcp/ifma_exp52x20.c:68-158 | for every base, exponent and modulus: normalised digits of a value at most m congruent to base^exp; the output may be the base or the converter |
| DualExp.ExponentiateDual | sources/ippcp/ifma_exp52x20_dual.c:69-182 | two exponentiations in one loop: each output is at most its own modulus and congruent to its own power |
| Driver.KernelSizes | sources/ippcp/ifma_exp52x_dual.c:62-97 | every supported size leaves two spare bits in its kernel, and the bit of the conversion constant lies in one of its digits |
| Driver.Kernels | sources/ippcp/ifma_exp52x_dual.c:62-97 | the supported sizes are exactly 1024, 1536 and 2048 bits, on 20, 30 and 40 digits in 20, 32 and 40 lanes |
| Driver.SizeBrackets | sources/ippcp/pcpbnumisc.h:33-33 | the bit size of a number without leading zero words is the exponent of the least power of two above it |
| Packing.GetDig52 | sources/ippcp/pcpngmontexpstuff_avx512.h:67-76 | bytes shifted in from the top down are their little-endian number |
| Packing.RegularDig52 | sources/ippcp/pcpngmontexpstuff_avx512.h:79-106 | overlapping 64-bit loads for every thirteen bytes, then one or two digits byte by byte: 52-bit digits of the value of the bytes, for every whole number of bytes |
| Packing.Dig52Regular | sources/ippcp/pcpngmontexpstuff_avx512.h:120-144 | a store and an exclusive or into the middle of a byte for every two digits, then one or two digits byte by byte: bytes of the value of the digits |
| Packing.StoresFit | sources/ippcp/pcpngmontexpstuff_avx512.h:128-133 | every 64-bit store stays within the output exactly when its words are not a multiple of thirteen |
| Driver.ToRedundant | sources/ippcp/pcpngmontexpstuff_avx512.h:79-106 | 64-bit words become 52-bit digits of the same value, through their bytes |
| Driver.ToRegular | sources/ippcp/pcpngmontexpstuff_avx512.h:120-144 | 52-bit digits become 64-bit words of the same value whenever it fits |
| Driver.FactorCarries | sources/ippcp/ifma_exp52x_dual.c:104-120 | the Montgomery factor for 64-bit words is also one for 52-bit digits of the same modulus |
| Driver.ConverterShift | sources/ippcp/ifma_exp52x_dual.c:108-120 | squaring 2^(2L) and multiplying by 2^(4(D-L)), both by almost-Montgomery products, gives 2^(2D) modulo m |
| Driver.ConvertConverter | sources/ippcp/ifma_exp52x_dual.c:117-120 | in place: the converter for L bits becomes, below 2m, a converter for D = 52n bits |
| Driver.DualExpWin | sources/ippcp/ifma_exp52x_dual.c:37-133 | for moduli of 1024, 1536 or 2048 bits both outputs are at most their modulus and congruent to dataX^dataE, for every operand, and the words of both outputs are counted; every other size returns zero and writes nothing |
| Words.AddABC | sources/ippcp/pcpbnuimpl.h:82-90 | the carry recognised by comparisons is the carry of the three-word sum |
| Words.SubABC | sources/ippcp/pcpbnuimpl.h:100-108 | the borrow recognised by comparisons is the borrow of the three-word difference |
| Words.MulAB | sources/ippcp/pcpbnuimpl.h:111-130 | the products of half words, with the one carry found by comparison, make the exact double-word product |
| Words.MulAddAdd | sources/ippcp/gsmodmethodstuff.h:288-306 | a word product plus two words is given exactly by two words |
| Words.SubHalf | sources/ippcp/pcpbnumisc.h:145-149 | the top bit of a wrapped double-width difference is its borrow |
| Bnu.Cmp | sources/ippcp/pcpbnumisc.h:136-154 | the sign computed over half words from borrow and difference is that of the comparison |
| Bnu.Pow2Ct | sources/ippcp/gsmod_montinv.c:34-47 | writing every word under a mask leaves the number 2^bit |
| Bnu.Lsr1 | sources/ippcp/gsmod_almmontinv.c:66-83 | a shift by one bit across words halves the number, in place or not |
| Squaring.SquareParts | sources/ippcp/pcpbnu_arith_sqr_adc.c:65-97 | at every word, twice the products above the diagonal and the squares so far fall short of the whole square by the square of the words not yet met |
| Squaring.AllRows | sources/ippcp/pcpbnu_arith_sqr_adc.c:65-84 | the first row written, the others added: exactly the products of different words, each once |
| Squaring.Double | sources/ippcp/pcpbnu_arith_sqr_adc.c:86-90 | the carry chain doubles the number in place, the last carry on top |
| Squaring.Sqr | sources/ippcp/pcpbnu_arith_sqr_adc.c:58-98 | the square of any number of words, with no carry lost at the top |
| Division.ShortDivide | sources/ippcp/pcpbnu32_arith_div.c:73-91 | division by one digit, its remainder in 64-bit arithmetic from a product truncated to 32 bits |
| Division.Estimate | sources/ippcp/pcpbnu32_arith_div.c:125-137 | the tuned estimate is the largest digit whose product with the two leading digits of the divisor fits the three of the dividend |
| Division.Close | sources/ippcp/pcpbnu32_arith_div.c:125-147 | whatever the digits below, such an estimate is the digit of the quotient or one more |
| Division.QuotientDigit | sources/ippcp/pcpbnu32_arith_div.c:122-151 | estimate, subtraction and correction in place leave the remainder one digit further down, below the divisor |
| Division.ShiftUp | sources/ippcp/pcpbnu32_arith_div.c:106-112 | the normalising shift across digits multiplies in place; what leaves at the top is known |
| Division.Restore | sources/ippcp/pcpbnu32_arith_div.c:159-161 | the shift back restores the divisor |
| Division.Divide | sources/ippcp/pcpbnu32_arith_div.c:56-173 | for every dividend and every divisor but zero: remainder and quotient, the divisor unchanged, and which digits above the remainder are cleared or kept |
| Reduction.ModReduce | sources/ippcp/pcpbnuarith.h:151-186 | on words read as half words: the remainder, the words cleared or kept above it, and when half a word beyond the number is cleared |
| Reduction.ReduceScaled | sources/ippcp/gsmod_engineinit.c:93-100 | a dividend whose low words are zero leaves the remainder in as many words as the modulus has, for every modulus |
| WordMont.Factor | sources/ippcp/gsmod_montfactor.c:37-52 | for every odd word and word width, k0*m0 = -1 modulo the word base |
| WordMont.RedRow | sources/ippcp/gsmodmethodstuff.h:192-212 | one word reduced in place: the number above the cleared word, with its carry of at most one, is exactly the old number plus m*u |
| WordMont.SubtractInto | sources/ippcp/gsmodmethodstuff.h:214-219 | carry and borrow together decide under a mask which of the two values is kept, so the modulus is subtracted exactly when it fits |
| WordMont.Red | sources/ippcp/gsmodmethodstuff.h:182-219 | a double-length number below m*B^n becomes r < m with r*B^n congruent to it |
| WordMont.Mul | sources/ippcp/gsmodmethodstuff.h:259-321 | interleaved form: for a*b below m*B^n, r < m with r*B^n congruent to a*b, the result over an operand or not |
| WordMont.School | sources/ippcp/pcpbnu_arith_mul_adc.c:57-81 | row by row, the full double-length product |
| WordMont.MulThenRed | sources/ippcp/gsmodmethodstuff.h:325-341 | second form: the same r as the interleaved one, under the same condition |
| Residues.UnscaledIs | sources/ippcp/gsmodmethodstuff.h:259-341 | x*2^(-e) mod m is the one residue below m that gives x when scaled back, so both multiplications agree word for word |
| Residues.DecodeEncode | sources/ippcp/gsmodmethodstuff.h:417-478 | decoding an encoding gives the number modulo m |
| Residues.EncodeDecode | sources/ippcp/gsmodmethodstuff.h:417-478 | encoding a decoded residue gives it back |
| Residues.DecodeProduct | sources/ippcp/gsmodmethodstuff.h:259-478 | decoding the Montgomery product of two encodings gives the product modulo m |
| Residues.DecodeSum | sources/ippcp/gsmodmethodstuff.h:38-83 | decoding commutes with addition and subtraction |
| Residues.DecodeUnary | sources/ippcp/gsmodmethodstuff.h:91-173 | decoding commutes with negation, tripling and halving |
| Engine.GetSize | sources/ippcp/gsmod_enginegetsize.c:51-67 | lengths below one are refused; otherwise room for modulus, two residues and the pool, each of the least number of words that holds the bits |
| Engine.OffIs | sources/ippcp/gsmod_engineinit.c:79-82 | modulus, the two residues and the pool elements lie one after the other, element j beginning n*j words in |
| Engine.ModEngine.PoolAlloc | sources/ippcp/gsmodstuff.h:104-114 | fails exactly when the pool is too small, and then changes nothing; otherwise the next free words, inside the engine and past its constants |
| Engine.ModEngine.PoolFree | sources/ippcp/gsmodstuff.h:129-134 | gives back the elements, at most all of them |
| Engine.ModEngine.Add | sources/ippcp/gsmodmethodstuff.h:38-56 | (a+b) mod m; on every exit the pool level is restored, the engine valid, and every word in use other than the result unchanged; fails exactly without a free element |
| Engine.ModEngine.Sub | sources/ippcp/gsmodmethodstuff.h:65-83 | (a-b) mod m, with the same frame |
| Engine.ModEngine.Neg | sources/ippcp/gsmodmethodstuff.h:91-109 | -a mod m, zero included, with the same frame |
| Engine.ModEngine.Half | sources/ippcp/gsmodmethodstuff.h:117-139 | a/2 mod m, with the same frame; the word beyond the engine ends as zero when exactly one element is free, and is untouched otherwise |
| Engine.ModEngine.Twice | sources/ippcp/gsmodmethodstuff.h:148-151 | 2a mod m, with the same frame |
| Engine.ModEngine.Triple | sources/ippcp/gsmodmethodstuff.h:160-173 | 3a mod m exactly when two elements are free; with one it reports success and the result is untouched |
| Engine.ModEngine.Mul | sources/ippcp/gsmodmethodstuff.h:259-321 | a*b*B^(-n) mod m for one reduced operand, with the frame of all operations |
| Engine.ModEngine.MulSchool | sources/ippcp/gsmodmethodstuff.h:325-341 | the same value from two pool elements |
| Engine.ModEngine.Sqr | sources/ippcp/gsmodmethodstuff.h:371-388 | a^2*B^(-n) mod m, by the squaring routine and the reduction |
| Engine.ModEngine.Encode | sources/ippcp/gsmodmethodstuff.h:417-434 | a*B^n mod m for every n-word operand |
| Engine.ModEngine.Decode | sources/ippcp/gsmodmethodstuff.h:464-478 | a*B^(-n) mod m for every n-word operand |
| Engine.ModEngine.InitR | sources/ippcp/gsmod_engineinit.c:92-95 | R = B^n mod m, computed with a one written into the first word of what will be R squared; nothing beyond the engine changes |
| Engine.ModEngine.InitR2 | sources/ippcp/gsmod_engineinit.c:97-100 | R squared = B^(2n) mod m, computed in place with scratch reaching into the first pool element and, exactly when it overruns, half a word further; R and the modulus stay |
| Engine.SpillIs | sources/ippcp/gsmod_engineinit.c:97-100 | reducing R squared needs half a word above it exactly when the modulus is no half word and R mod m fills its last half word |
| Engine.OverrunExample | sources/ippcp/gsmod_engineinit.c:97-100 | such an odd modulus of one word |
| Engine.ModEngine.Init | sources/ippcp/gsmod_engineinit.c:54-107 | errors in the order of the code and without any write; otherwise the layout on the least number of words that holds the bits, the modulus packed from half words, for a modulus above one that fits its stated size a valid engine with factor, R and R squared, and exactly what changes beyond the engine |
| Handover.Read | sources/ippcp/ifma_exp52x_dual.c:64-92 | modulus, R squared and factor of an initialised engine with a full top word are constants the RSA kernel may rely on |
| Handover.Exponentiate | sources/ippcp/ifma_exp52x_dual.c:37-133 | initialisation and dual exponentiation compose: on two initialised engines of 1024, 1536 or 2048 bits each output is at most its modulus and congruent to its power; on others nothing is written |
| Kaliski.KeepsGood | sources/ippcp/gsmod_almmontinv.c:64-89 | every turn keeps m = u*s + v*t, a*s = v*2^k and a*t = -u*2^k modulo m, the parity and size bounds, and lowers u + v |
| Kaliski.AlmostInverse | sources/ippcp/gsmod_almmontinv.c:55-100 | a run ends with u = 1 exactly when a and m are coprime; then r = m - t mod m lies strictly between 0 and m and a*r = 2^k modulo m |
| Kaliski.TurnsBounded | sources/ippcp/gsmod_almmontinv.c:55-100 | at most 2L turns for a modulus below 2^L, and at least L when the inverse exists and the modulus has exactly L bits |
| AlmInverse.Turn | sources/ippcp/gsmod_almmontinv.c:64-89 | one branch in place is one turn; a carry leaves the words only in the last branch, and only when the run is over |
| AlmInverse.Invert | sources/ippcp/gsmod_almmontinv.c:40-104 | branching form: k is the turn count when the run ended with one and zero otherwise, and then r is the almost inverse |
| AlmInverse.MaskedTurn | sources/ippcp/gsmod_almmontinv_ct.c:83-116 | the four masked branches of an iteration together take one turn, or none when the run is over; discarded branches leave the carry word alone |
| AlmInverse.Iterations | sources/ippcp/gsmod_almmontinv_ct.c:70-120 | twice the bit size of iterations always reach the end of the run, and the rest change nothing |
| AlmInverse.InvertCt | sources/ippcp/gsmod_almmontinv_ct.c:41-135 | constant-time form: the k of the branching form for every odd modulus and a < m, and the same r |
| Inverse.AlmInv | sources/ippcp/gsmod_almmontinv.c:40-104 | either routine inside the engine: nonzero exactly when its four (branching) or six (constant-time) elements are free and a is coprime to m; pool restored |
| Inverse.Inv | sources/ippcp/gsmod_inv.c:38-68 | a*r = 1 modulo m with r < m, exactly when four or, for the constant-time routine, six elements are free and a is coprime to m |
| Inverse.MontInv | sources/ippcp/gsmod_montinv.c:54-84 | a*r = B^n modulo m with r < m, under the same condition |
| Inverse.InverseMakesCoprime | sources/ippcp/gsmod_inv.c:38-68 | no result could be right when a is not coprime to m |
| Cbc.RoundTrip | sources/ippcp/pcpaes_cbc_decrypt.c:48-130 | CBC decryption undoes encryption for any invertible cipher |
| Cbc.EncryptIs | sources/ippcp/pcpaes_cbc_encrypt.c:48-88 | every ciphertext block is the encryption of its message block xored with the ciphertext block before it, the vector before the first |
| Cbc.DecryptIs | sources/ippcp/pcpaes_cbc_decrypt.c:48-130 | every message block is the decryption of its ciphertext block xored with the ciphertext block before it |
| Cbc.EncryptBlocks | sources/ippcp/pcpaes_cbc_encrypt.c:48-88 | the block loop is CBC encryption of the first n blocks, in place or not, and writes nothing else |
| Cbc.DecryptBlocks | sources/ippcp/pcpaes_cbc_decrypt.c:48-130 | both loops, in place and not, are CBC decryption of the first n blocks and write nothing else |
| Stealing.VariantsReorder | sources/ippcp/pcpaes_cbcencrypt_cs3.c:80-115 | CS1 and CS3 ciphertexts of a message differ only by exchanging the last full block and the stolen part; CS2 is CS1 on whole blocks and CS3 otherwise |
| Stealing.Cs12RoundTrip | sources/ippcp/pcpaes_cbcdecrypt_cs1.c:75-127 | for every length of 16 bytes or more, CS1 and CS2 decryption undo their encryption |
| Stealing.Cs3RoundTrip | sources/ippcp/pcpaes_cbcdecrypt_cs3.c:76-124 | for every length above 16 bytes, CS3 decryption undoes encryption |
| Stealing.EncryptCs1 | sources/ippcp/pcpaes_cbcencrypt_cs1.c:67-109 | short inputs are refused untouched; otherwise the bytes are the CS1 ciphertext, cut from the CBC encryption of the zero-padded message, in place or not |
| Stealing.EncryptCs2 | sources/ippcp/pcpaes_cbcencrypt_cs2.c:68-116 | the same for CS2 |
| Stealing.EncryptCs3 | sources/ippcp/pcpaes_cbcencrypt_cs3.c:66-116 | the same for CS3, which refuses a single block too |
| Stealing.DecryptCs1 | sources/ippcp/pcpaes_cbcdecrypt_cs1.c:61-131 | byte loops: the CS1 decryption of every input of 16 bytes or more, in place or not |
| Stealing.DecryptCs2 | sources/ippcp/pcpaes_cbcdecrypt_cs2.c:62-131 | the same for CS2 |
| Stealing.DecryptCs3 | sources/ippcp/pcpaes_cbcdecrypt_cs3.c:62-128 | the same for CS3, on inputs above 16 bytes |
| Cfb.RoundTrip | sources/ippcp/pcpaes_cfb128decrypt_vaes512.c:38-172 | CFB decryption undoes encryption for any block function |
| Cfb.RoundTrip64 | sources/ippcp/pcpaes_cfb64decrypt_vaes512.c:38-235 | the same with 64-bit segments and a shift register |
| Cfb.Encrypt64Is | sources/ippcp/pcpaes_cfb64decrypt_vaes512.c:56-73 | segment j of the ciphertext is that of the message xored with the leading half of the encrypted bytes 8j to 8j+15 of vector and ciphertext joined |
| Cfb.Decrypt64Is | sources/ippcp/pcpaes_cfb64decrypt_vaes512.c:56-73 | segment j of the message is that of the ciphertext xored with the same half block |
| Pipeline.RegisterIs | sources/ippcp/pcpaes_cbc_vaes512.c:59-79 | shifting the previous register's last lane in front of a register gives each lane its predecessor |
| Pipeline.DecryptCbc | sources/ippcp/pcpaes_cbc_vaes512.c:39-169 | for every block count, through the 16, 12, 8, 4 and masked stages and in place, the output is CBC decryption |
| Pipeline.DecryptCfb128 | sources/ippcp/pcpaes_cfb128decrypt_vaes512.c:38-172 | the same for CFB with 128-bit segments |
| Pipeline64.RegisterIs64 | sources/ippcp/pcpaes_cfb64decrypt_vaes512.c:64-106 | the shift registers rebuilt by unpacking and lane rotation give the sequential CFB64 output of four segments |
| Pipeline64.DecryptCfb64 | sources/ippcp/pcpaes_cfb64decrypt_vaes512.c:38-235 | for every segment count, through all stages and in place, the output is CFB64 decryption: each segment xored with the leading half of the encrypted sixteen bytes before it in vector and ciphertext |
| MultiBuffer.ShuffledIs | sources/ippcp/aes_cfb_vaes_mb.h:25-35 | the eight lane shuffles with their immediates transpose four registers |
| MultiBuffer.NextTracks | sources/ippcp/aes_cfb_vaes_mb.h:37-42 | after every update the mask has two bits for each block left of the next four, for any signed length |
| MultiBuffer.StoreUnder | sources/ippcp/aes_cfb_vaes_mb4.c:134-137 | a store under such a mask writes the blocks the buffer still has and nothing once it is finished |
| MultiBuffer.Round | sources/ippcp/aes_cfb_vaes_mb4.c:118-132 | shuffling, chaining four blocks and shuffling back is CFB of each buffer by itself, and the chaining register holds the last blocks |
| MultiBuffer.KernelVaes | sources/ippcp/aes_cfb_vaes_mb4.c:54-139 | 4, 8 or 16 masked lanes of any lengths, their masks updated round by round: every buffer ends with its own CFB ciphertext |
| MultiBuffer.KernelAesNi | sources/ippcp/aes_cfb_aesni_mb4.c:51-101 | the same for the block-by-block kernel with its counts |
| MultiBuffer.Groups | sources/ippcp/pcpaes_cfb_mb_encrypt.c:138-215 | the calls are runs of buffers one after the other, each through the kernel the number of buffers left asks for (16, 8 or 4 lanes of wide registers; 4 lanes of AES-NI; one at a time otherwise), and every buffer ends with its own CFB ciphertext |
| MultiBuffer.OneCallEach | sources/ippcp/pcpaes_cfb_mb_encrypt.c:138-215 | in such runs every buffer is in exactly one call |
| MultiBuffer.EncryptMb | sources/ippcp/pcpaes_cfb_mb_encrypt.c:72-233 | the status of every buffer, from null pointer, foreign context, length below one and partial block, in this order, and of the call; without an error every buffer holds its own CFB ciphertext, and with one nothing is written |
| Aggregate.Scheme.AggregateIsHorner | sources/ippcp/pcpaes_avx2_vaes.h:171-205 | where multiplication and folding are linear, one folding of the products with descending key powers equals that many Horner steps |
| Aggregate.Hash | sources/ippcp/pcpaes_avx2_vaes.h:171-329 | the register form with two lanes and one final reduction, for any number of registers |
| Ghash.GaloisIsLinear | sources/ippcp/pcpaes_avx2_vaes.h:113-160 | carry-less Karatsuba products and the shift-and-xor reduction are linear |
| Field.PartsAreProduct | sources/ippcp/pcpaes_avx2_vaes.h:113-129 | the three Karatsuba parts, put together, are the product of the polynomials |
| Field.ReductionIs | sources/ippcp/pcpaes_avx2_vaes.h:132-160 | the two phases of shifts divide exactly by x^128 modulo x^128 + x^127 + x^126 + x^121 + 1 |
| Field.ProductUnique | sources/ippcp/pcpaes_avx2_vaes.h:342-368 | no other word is the product of two words up to x^128 |
| Field.DotAssociates | sources/ippcp/pcpaes_avx2_vaes.h:342-368 | reduced products are associative |
| Field.DotCommutes | sources/ippcp/pcpaes_avx2_vaes.h:342-368 | and commutative |
| HashKeys.DoubledIs | sources/ippcp/asm_intel64/pcpaesgcme9as.asm:299-314 | the first precomputed key is the hash subkey times x, reduced |
| HashKeys.DotIsStandard | sources/ippcp/pcpaes_avx2_vaes.h:342-368 | a reduced product with that key is the bitwise product of section 6.3 of NIST SP 800-38D with the subkey itself, on reversed bits |
| HashKeys.Precompute | sources/ippcp/asm_intel64/pcpaesgcme9as.asm:291-370 | sixteen keys, of which the j-th acts as j multiplications by the first |
| HashKeys.HornerIsStandard | sources/ippcp/pcpaes_avx2_vaes.h:171-368 | Horner steps with the first key are the hash of section 6.4 of NIST SP 800-38D |
| Gcm.GctrUndoes | sources/ippcp/pcpaes_avx2_vaes_decrypt.c:109-299 | counter mode is its own inverse |
| Gcm.Task.DoneNext | sources/ippcp/pcpaes_avx2_vaes_encrypt.c:108-290 | output and hash of some more blocks continue those of the blocks before |
| Counters.CounterOfIs | sources/ippcp/pcpaes_avx2_vaes.h:81-97 | every block is a counter block: twelve bytes and a big-endian counter |
| Counters.IncrementedIs | sources/ippcp/pcpaes_avx2_vaes.h:81-97 | shuffling the bytes, adding to the 32-bit lanes and shuffling back adds to the counter modulo 2^32 |
| Counters.ValueIs | sources/ippcp/pcpaes_avx2_vaes.h:81-97 | the value of a byte read bit by bit is its number |
| Counters.FourDigits | sources/ippcp/pcpaes_avx2_vaes.h:81-97 | the value of four bytes is their little-endian number |
| Counters.FurtherBlock | sources/ippcp/pcpaes_avx2_vaes.h:81-97 | advancing a block by k keeps its first twelve bytes and adds k to the big-endian number in the last four, modulo 2^32 |
| Gcm.Advance | sources/ippcp/pcpaes_avx2_vaes_encrypt.c:108-290 | incrementing the pairs of counter blocks makes them those of the next blocks |
| Gcm.Run | sources/ippcp/pcpaes_avx2_vaes_encrypt.c:77-542 | sixteen blocks a turn, then eight, four, two and single ones: output, hash and final counter are the sequential ones, in place or not |
| AesGcm.WordShows | sources/ippcp/pcpaes_avx2_vaes.h:100-101 | a block loaded with its bytes reversed shows the bits of the block in reverse |
| AesGcm.BitIs | sources/ippcp/pcpaes_avx2_vaes.h:100-101 | bit k of a byte is the bit of weight 2^k of its number |
| AesGcm.BitsAre | sources/ippcp/pcpaes_avx2_vaes.h:100-101 | the bits of a block are those of its bytes in turn, the highest of each byte first |
| AesGcm.Identity | sources/ippcp/pcpaes_avx2_vaes.h:100-101 | the block 80 00..00 is the identity of the product of section 6.3 of NIST SP 800-38D |
| AesGcm.Process | sources/ippcp/pcpaes_avx2_vaes_encrypt.c:29-577 | sixteen or more whole blocks, either direction: block j is xored with the encryption of the block that has the first twelve bytes of the first counter block and a counter j further on modulo 2^32, whatever the first one is; the hash is that of NIST SP 800-38D of the ciphertext under the subkey; the next counter block and its key stream are returned |

## Left out

- AES itself: block encryption and decryption are a pair of functions; round trips ask that they undo each other, everything else holds for any pair.
- Short GCM messages (below 256 bytes), partial last blocks, and the associated data: the routines that handle them are not part of this model.
- Pipeline.Decrypt, Pipeline64.DecryptCfb64, MultiBuffer.KernelVaes and Gcm.Run: buffers are arrays of whole blocks or segments, so unaligned overlaps of two different buffers are not covered; the stealing modes and CBC are byte by byte.
- MultiBuffer.EncryptMb: buffers must not write what another one reads or writes, as the library assumes; null arrays of pointers are left out.
- Engine.ModEngine.Init: a modulus of one or larger than its stated size is accepted as by the code but promises no valid engine.
- Division.Divide: the half words of a number are an array of their own that Reduction reads from the words and writes back; with 32-bit words the library divides over the words themselves. Leading zeros are counted by doubling, not by bisection.
- Driver.ToRegular: sizes that are multiples of thirteen words are excluded, where the last store would reach past the words; no kernel has such a size.
- Packing.RegularDig52: one byte more than the number must be readable, as in the buffers of the driver.
- Driver.DualExpWin: the slices of its one work buffer are separate arrays, and memory alignment is left out.
- AlmInverse.InvertCt: masks are booleans, so equal running time is not part of the model; the same holds for table look-up and masked subtraction.
- Stealing.DecryptCs1: the store into the saved chaining block that nothing reads afterwards is left out, as in the other two.
- CCM, table-driven multiplication, hashing of keys by other instruction sets, parameter validation, clearing of secrets, and the choice of an implementation by processor.

# Verified models of the benchmark kernels

Dafny models of the C kernels under `examples/TMR/template`, each proved against what the kernel is for. Every kernel is
modelled over arbitrary inputs. Arrays and globals that the C code changes in place are arrays and class fields here, and the
methods that change them are proved against functions on values; the functions in turn are tied to independent definitions
by lemmas.

* **SoftFloat** (`FloatSpec`, `FloatRounding`, `FloatScale`, `FloatMacros`, `FloatDivide`, `SoftFloat`, `SoftFloatAdd`):
  double-precision addition, subtraction of magnitudes, multiplication, division and comparison on bit patterns. The
  reference is a definition of round-to-nearest-even on exact integers in units of 2^-1074.
* **FFT** (`FftSpec`, `Fft`): bit-reversed copy and in-place butterflies against the recursive transform, bit for bit.
* **Bellman-Ford** (`Walks`, `BellmanFord`), **quicksort** with an explicit stack (`QuickSort`), and the **MIPS interpreter**
  with its fixed sorting program (`Mips`, `MipsSort`, `MipsMultiply`).
* **JPEG entropy decoding** (`BitStream`, `JpegBits`, `JpegHuffman`, `JpegBlock`): unstuffing, bit readers, canonical tables,
  symbol and block decoding against a block encoder. `BitSource` makes memories from bits; `JpegAcTable`, `JpegAcExact`,
  `JpegAcExample` and `JpegAcShifted` settle when reading with the wrong AC table is harmless.
* **Rijndael** (`BitXor`, `AesTables`, `AesField`, `AesState`, `FiniteMaps`, `Rijndael`), with the worked
  example of FIPS 197 (`RijndaelVector`), and **64-bit cipher feedback** (`Cfb64`).
* **G.722 ADPCM** (`AdpcmTables`, `AdpcmBand`, `AdpcmCoder`, `AdpcmQuantizer`, `AdpcmFilter`): encoder and decoder in
  lockstep, their stability, and how closely both bands follow the signal.
* **MPEG-2** bit buffer and motion vectors (`MpegBits`, `MpegMotion`, `MpegVectors`).
* **GSM LPC** autocorrelation and reflection coefficients (`GsmArith`, `GsmLpc`, `GsmReflection`).

`Arith` and `ByteTable` hold the powers of two, word wrap-around and the leading-zero table that several kernels share.
`dafny verify dfyconfig.toml` checks everything.

Bit masks and shifts of C are written as quotients, remainders and products by powers of two, exclusive or as a function on
non-negative integers. A value stored in a C `int` is wrapped to 32 bits wherever it is not proved to fit.

## What the proofs found

* Bellman-Ford's last loop has no test for INFINITY, so an edge out of an unreachable vertex can make it reject a graph
  without negative cycles. `BellmanFord.BellmanFord` states the exact verdict, `RejectsWithoutCycle` runs it on one.
* The JPEG block decoder picks the AC table by the DC table number and never looks at the component's AC table number.
  `JpegAcExact.BlocksReturnExactly` says when that is harmless: exactly when the picked table spells alike the end of
  block and every run and size that the named table codes. It asks for an anchor, a coefficient without a run that the
  two tables share or whose codeword is no longer than its value; `JpegAcExample.DifferentYetHarmless` and
  `JpegAcShifted.ShiftedYetHarmless` show tables without one that spell differently and lose nothing,
  `WrongTableHarms` a block that comes back wrong.
* The JPEG symbol decoder's length loop has no bound. `JpegHuffman.OverrunExactly` says on which bits it leaves its
  table, `NeverOverrunsExactly` for which tables it never does, and `TableIsLeft` gives a table and a memory for which
  it does.
* The JPEG bit reader's branch for a nearly full word is never entered for reads of up to 25 bits
  (`JpegBits.LongReadOnly`).
* G.722: `upzero` never writes entry 2 of the delay line, in the encoder and decoder alike, so both still agree. The
  decoder looks its output difference up with the encoder's last code instead of the received one; its predictor state
  does not depend on that. The difference is right at every scale factor exactly when the two codes have the same
  table entry (`AdpcmCoder.OutputIsRightExactlyFor`), as they have straight after encoding (`EncodeDecodePair`);
  `RunGoesWrong` is a run in which the first sample is wrong.
* MIPS: `MULTU` extends the registers by their signs, so it gives the unsigned product only under the condition of
  `MipsMultiply.MultuIsUnsignedExactly`. The sorting program does not use it.
* GSM: rescaling after the autocorrelation turns samples of 32760 and above into -32768, and is exact rounding for all
  others (`GsmLpc.RescalingIsExactlyRounding`).

## Model

| member | source | states |
|---|---|---|
| `FloatSpec.RoundingIsUnique` | examples/TMR/template/dfsin/softfloat.c:172-232 | a value has one round-to-nearest-even double, so the correctness predicates below fix the result bits |
| `FloatSpec.MidpointsDecide` | examples/TMR/template/dfsin/softfloat.c:172-232 | a magnitude is the nearest-even one exactly when the value lies between its two midpoints, ties going to the even one |
| `FloatRounding.RoundedMagnitudeIsCorrect` | examples/TMR/template/dfsin/softfloat.c:172-232 | the rounding routine applied to any significand that agrees with the exact value on every multiple of the rounding unit gives the correctly rounded magnitude: normal, subnormal, zero and overflow to infinity |
| `SoftFloat.RoundAndPackFloat64` | examples/TMR/template/dfsin/softfloat.c:172-232 | the branches, the jamming shift for small exponents and the packed carry compute exactly that rounded magnitude, with the sign given |
| `SoftFloat.JamThenRound` | examples/TMR/template/dfsin/softfloat.c:200-220 | a bit jammed into the last place before rounding does not change what the full value rounds to |
| `SoftFloat.NormalizeFloat64Subnormal` | examples/TMR/template/dfsin/softfloat.c:120-128 | a subnormal is brought to a 53-bit significand of the same value |
| `FloatMacros.CountLeadingZeros32` | examples/TMR/template/dfsin/softfloat-macros:238-271 | the shift brings the leading one of a nonzero word to bit 31 |
| `FloatMacros.CountLeadingZeros64` | examples/TMR/template/dfsin/softfloat-macros:282-300 | the shift brings the leading one of a nonzero word to bit 63 |
| `FloatMacros.ShiftRight64Jamming` | examples/TMR/template/dfsin/softfloat-macros:59-80 | the quotient by a power of two with a one jammed into the last bit exactly when nonzero bits are lost |
| `FloatMacros.Add128` | examples/TMR/template/dfsin/softfloat-macros:139-151 | 128-bit sum modulo 2^128 over two words |
| `FloatMacros.Sub128` | examples/TMR/template/dfsin/softfloat-macros:159-168 | 128-bit difference modulo 2^128 over two words |
| `FloatMacros.Mul64To128` | examples/TMR/template/dfsin/softfloat-macros:175-198 | the exact 128-bit product from four 32-bit products |
| `FloatDivide.EstimateDiv128To64` | examples/TMR/template/dfsin/softfloat-macros:208-231 | with a normalised divisor the estimate is never below the true quotient and at most two above it; all ones when the quotient does not fit |
| `SoftFloat.QuotientSignificand` | examples/TMR/template/dfsin/softfloat.c:589-608 | estimate and correction loop end with a significand that rounds as the exact quotient does, also when the correction is skipped because the low nine bits exceed 2 |
| `SoftFloat.Float64Div` | examples/TMR/template/dfsin/softfloat.c:535-610 | for finite operands and a nonzero divisor the result is the round-to-nearest-even double of the exact quotient (section 4.3.1 of IEEE 754-2008); NaN, infinite and zero cases in full |
| `SoftFloat.Float64Mul` | examples/TMR/template/dfsin/softfloat.c:467-527 | for finite operands the result is the round-to-nearest-even double of the exact product; NaN, infinite and invalid cases in full |
| `SoftFloatAdd.SumRounds` | examples/TMR/template/dfsin/softfloat.c:330-358 | alignment with jammed bits never changes the rounding of a sum, carry out of the significand included |
| `SoftFloatAdd.DifferenceRounds` | examples/TMR/template/dfsin/softfloat.c:395-444 | alignment with jammed bits never changes the rounding of a difference, cancellation included |
| `SoftFloatAdd.LostBitsMeanLarge` | examples/TMR/template/dfsin/softfloat.c:395-444 | when alignment loses bits the difference stays large enough for its sticky bit to lie below the rounding unit |
| `SoftFloatAdd.AddFloat64Sigs` | examples/TMR/template/dfsin/softfloat.c:285-359 | the magnitude of the sum of magnitudes, correctly rounded, with the given sign |
| `SoftFloatAdd.NormalizeRoundAndPackFloat64` | examples/TMR/template/dfsin/softfloat.c:243-251 | normalising first leaves the rounded magnitude of the value unchanged |
| `SoftFloatAdd.SubFloat64Sigs` | examples/TMR/template/dfsin/softfloat.c:366-446 | the difference of magnitudes, correctly rounded, with the sign of the larger operand; zero result positive |
| `SoftFloatAdd.Float64Add` | examples/TMR/template/dfsin/softfloat.c:447-459 | for finite operands of any signs the result is the round-to-nearest-even double of the exact sum |
| `SoftFloatAdd.Float64Le` | examples/TMR/template/dfsin/softfloat.c:620-638 | true exactly when neither operand is a NaN and the value of the first is at most that of the second, the two zeros being equal |
| `SoftFloat.NaNIsPropagated` | examples/TMR/template/dfsin/softfloat-specialize:107-122 | the NaN returned for a NaN operand is one of the operands, sign and payload kept, and quiet; which one of two is stated |
| `FftSpec.FixMpyRounds` | examples/TMR/template/fft/fft_general.c:135-149 | for any two shorts the shift-and-test product is the product over 2^15 rounded to nearest, halves upward, exactly unless both are -32768 |
| `FftSpec.ReverseIsInvolution` | examples/TMR/template/fft/fft_general.c:152-162 | reversing the bits of an index twice gives it back |
| `Fft.NewIndex` | examples/TMR/template/fft/fft_general.c:152-162 | the loop computes the bit reversal of its argument |
| `Fft.CopyReversed` | examples/TMR/template/fft/fft_general.c:171-182 | output entry k is input entry Reverse(k), the first and last included |
| `Fft.PairsDisjoint` | examples/TMR/template/fft/fft_general.c:215-241 | two different butterflies of a stage touch four different positions |
| `Fft.StageAdvances` | examples/TMR/template/fft/fft_general.c:208-244 | a stage that joins every pair of blocks turns transforms of length 2^s into transforms of length 2^(s+1) |
| `Fft.Stage` | examples/TMR/template/fft/fft_general.c:214-241 | the two inner loops join every pair of blocks exactly once |
| `Fft.Fft` | examples/TMR/template/fft/fft_general.c:165-245 | for every size 2^n up to 2^10 and every sine table the arrays end as exactly the recursive even/odd decimation-in-time transform over the same fixed-point butterfly |
| `FftSpec.ButterflyRotates` | examples/TMR/template/fft/fft_general.c:215-240 | a butterfly with a balanced table gives u plus and minus v rotated clockwise by the angle of the table entry, within one unit of the exact rotation |
| `FftSpec.ImpulseAtStart` | examples/TMR/template/fft/fft_general.c:208-244 | the transform of an impulse at sample 0 is that value everywhere |
| `FftSpec.ImpulseResponse` | examples/TMR/template/fft/fft_general.c:208-244 | the transform of an impulse a at sample 1, for every size and balanced table: entry m is (cos, -sin) of the angle m / N times a, read off the table and rounded, and entry m + N/2 its negative |
| `Walks.Pigeonhole` | examples/TMR/template/bellmanford/bellmanford.c:41-49 | a walk of as many edges as there are vertices repeats a vertex |
| `Walks.ShortWalk` | examples/TMR/template/bellmanford/bellmanford.c:41-49 | without a reachable negative cycle every walk is matched by one of fewer edges than vertices and no more weight |
| `BellmanFord.StaysLoopless` | examples/TMR/template/bellmanford/bellmanford.c:41-49 | without a reachable negative cycle a relaxation never extends a recorded walk to a vertex it has met, so recorded walks stay shorter than the vertex count |
| `BellmanFord.PassCompletes` | examples/TMR/template/bellmanford/bellmanford.c:41-49 | after i passes no distance exceeds the weight of any walk of at most i edges |
| `BellmanFord.VerdictIsExact` | examples/TMR/template/bellmanford/bellmanford.c:51-56 | the last loop finds no relaxable edge exactly when there is no reachable negative cycle and every edge from an unreachable source passes the unguarded test |
| `BellmanFord.BellmanFord` | examples/TMR/template/bellmanford/bellmanford.c:31-59 | returns true exactly under that condition, and without a reachable negative cycle distance[v] is the least weight of any walk from src, INFINITY for an unreachable v |
| `BellmanFord.UnreachableEdgeFails` | examples/TMR/template/bellmanford/bellmanford.c:52 | a graph without negative cycle, fit for the method, that fails the unguarded test |
| `BellmanFord.RejectsWithoutCycle` | examples/TMR/template/bellmanford/bellmanford.c:31-59 | the run on that graph ends in a rejection |
| `QuickSort.Partition` | examples/TMR/template/qsort/qsort.c:55-61 | the hole-based loops leave a permutation of the segment with everything left of the returned position at most the pivot and everything right at least |
| `QuickSort.SplitKeepsStack` | examples/TMR/template/qsort/qsort.c:61-64 | pushing both halves keeps every unordered pair of positions inside one segment on the stack |
| `QuickSort.SplitKeepsLevels` | examples/TMR/template/qsort/qsort.c:62-64 | with the smaller half on top every level k keeps size[k] * 2^k within the element count |
| `QuickSort.QuickSort` | examples/TMR/template/qsort/qsort.c:47-69 | terminates for every length, leaves a sorted permutation, and never uses more than log2(elements) levels, below 300 |
| `Mips.Machine.Dispatch` | examples/TMR/template/mips/mips.c:144-292 | the two nested switches and the reset of register 0 act on the machine as the instruction semantics does |
| `MipsSort.CompareSwap` | examples/TMR/template/mips/imem.h:38-81 | the compare-and-swap routine, run from its entry, exchanges the two words exactly when they are out of order and returns with everything else kept |
| `MipsSort.InnerLoop` | examples/TMR/template/mips/imem.h:38-81 | one run of the inner machine-code loop places the least remaining word |
| `MipsSort.OuterLoop` | examples/TMR/template/mips/imem.h:38-81 | the outer machine-code loop reaches its end with all eight words placed |
| `MipsSort.ProgramSorts` | examples/TMR/template/mips/mips.c:126-295 | for every eight words the 44-word program reaches pc = 0 after finitely many steps with the words sorted and permuted |
| `MipsSort.RunProgram` | examples/TMR/template/mips/mips.c:139-295 | the do-while loop terminates in that state: every fetch is inside the program and memory holds the sorted words |
| `MipsSort.SortFromReset` | examples/TMR/template/mips/mips.c:126-295 | the same from the initial register and memory contents |
| `MipsMultiply.MultIsExact` | examples/TMR/template/mips/mips.c:165-169 | hi and lo together are the exact signed product of the two registers |
| `MipsMultiply.MultuIsUnsignedExactly` | examples/TMR/template/mips/mips.c:170-176 | they are the unsigned product that MULTU stands for exactly when neither register is negative, or one is zero, or both are the most negative number |
| `JpegBits.FetchUndoesStuffing` | examples/TMR/template/jpeg/huffman.c:91-105 | fetching from bytes in which every FF is followed by a stuffed 00 gives back the original bytes, one by one |
| `JpegBits.BitReader.Pgetc` | examples/TMR/template/jpeg/huffman.c:91-105 | one data byte and the position behind it, markers delivered as the source delivers them |
| `JpegBits.BitReader.BufGetb` | examples/TMR/template/jpeg/huffman.c:110-122 | exactly the next bit of the abstract stream |
| `BitStream.BitsAtOnce` | examples/TMR/template/jpeg/huffman.c:129-160 | loading whole bytes and splitting off n bits is the same, in value and position, as n single-bit reads |
| `JpegBits.BitReader.BufGetv` | examples/TMR/template/jpeg/huffman.c:129-160 | for every n from 1 to 32 the value and stream position of n single-bit reads, read_position ending in -1..6; across the branch for a nearly full word, too |
| `JpegHuffman.CanonicalRule` | examples/TMR/template/jpeg/huffman.c:185-203 | the codewords follow the rule of section C.2 of ITU-T T.81: one more than the last, extended by zeros |
| `JpegHuffman.FirstCodewordIsZero` | examples/TMR/template/jpeg/huffman.c:182-187 | the first codeword is all zeros |
| `JpegHuffman.CodewordsFit` | examples/TMR/template/jpeg/huffman.c:168-203 | under the Kraft inequality every codeword fits its length |
| `JpegHuffman.OnlyOneBegins` | examples/TMR/template/jpeg/huffman.c:227-245 | no codeword begins another: at most one comes next in any stream |
| `JpegHuffman.GenerateCodes` | examples/TMR/template/jpeg/huffman.c:185-203 | the nested do-while loops fill in every canonical codeword |
| `JpegHuffman.HuffMakeDhuffTb` | examples/TMR/template/jpeg/huffman.c:168-220 | for every nonempty BITS list mincode, maxcode and valptr bound exactly the codewords of each length, maxcode of the longest one too large |
| `JpegHuffman.SymbolOfCodeword` | examples/TMR/template/jpeg/huffman.c:227-245 | on a stream beginning with codeword k the symbol is huffval[k] and exactly that codeword is consumed |
| `JpegHuffman.DecodeHuffman` | examples/TMR/template/jpeg/huffman.c:227-245 | the symbol, the read error or the loop leaving its table, exactly as the next-symbol function has it |
| `JpegHuffman.OutcomeExactly` | examples/TMR/template/jpeg/huffman.c:231-243 | which of the three it is: the bits of the longest length lie below, at or above the value behind the last codeword |
| `JpegHuffman.OverrunExactly` | examples/TMR/template/jpeg/huffman.c:231-234 | the length loop finds the code above maxcode at all sixteen lengths, so that it goes on behind the table, exactly when the bits of the longest length exceed that value |
| `JpegHuffman.NeverOverrunsExactly` | examples/TMR/template/jpeg/huffman.c:231-234 | no memory makes the loop leave a table exactly when the table leaves at most the word of ones of its longest length unused |
| `JpegHuffman.TableIsLeft` | examples/TMR/template/jpeg/huffman.c:231-234 | a valid table, with 00 its only codeword, that a memory of bytes C0 makes the loop leave |
| `JpegBlock.ExtendUndoesCoding` | examples/TMR/template/jpeg/huffman.c:267-277 | sign extension undoes the additional-bits code of every nonzero value |
| `JpegBlock.DecodeCoefficients` | examples/TMR/template/jpeg/huffman.c:286-313 | the AC loop computes the decoding function with every write inside the block |
| `JpegBlock.DecodeHuffMCU` | examples/TMR/template/jpeg/huffman.c:252-314 | the whole block decoder computes the decoding function over the DC and the AC table of the DC table number, ending in a read error or outside a table exactly when the function does |
| `JpegBlock.DecodingUndoesEncoding` | examples/TMR/template/jpeg/huffman.c:252-314 | for every block and previous DC value, decoding what sections F.1.2.1 and F.1.2.2 of ITU-T T.81 encode restores all 64 coefficients and consumes exactly those bits |
| `JpegBlock.EncodedFits` | examples/TMR/template/jpeg/huffman.c:252-314 | with Kraft tables every encoded block is a real bit string |
| `JpegBlock.EarlierKept` | examples/TMR/template/jpeg/huffman.c:286-313 | a coefficient that has been passed is never written again |
| `JpegAcTable.InterchangeableReturns` | examples/TMR/template/jpeg/huffman.c:259-288 | when the picked AC table spells alike what the encoder sends with the named one, every block comes back from every memory and every place in a byte, although the wrong table is read |
| `JpegAcExact.BlocksReturnExactly` | examples/TMR/template/jpeg/huffman.c:259-288 | and only then: for a component whose AC number names a table with an end of block and an anchor, all blocks come back through the table of the DC number exactly when that table spells alike the end of block and every run and size the other codes |
| `JpegAcExact.AnchorMustBeAlike` | examples/TMR/template/jpeg/huffman.c:286-313 | the anchor: a coefficient without a run whose codeword is no longer than its value must be a codeword of both tables for the same action, or some block of 63 coefficients, written to memory with its FF bytes stuffed, comes back wrong |
| `JpegAcExact.RunsMustBeAlike` | examples/TMR/template/jpeg/huffman.c:286-313 | from there to every run and size, by a block that ends in that run and coefficient |
| `JpegAcExact.EndMustBeAlike` | examples/TMR/template/jpeg/huffman.c:308-312 | and to the end of block |
| `JpegAcExample.WrongTableHarms` | examples/TMR/template/jpeg/huffman.c:259-288 | valid tables, component numbers and a stream carrying the encoded zero block, which comes back with every AC coefficient -1 |
| `JpegAcExample.SwappedCodesHarm` | examples/TMR/template/jpeg/huffman.c:259-288 | the exact condition applied: tables that meet all its demands, their two codewords swapped, so that some memory holds a block that is lost |
| `JpegAcShifted.ShiftedYetHarmless` | examples/TMR/template/jpeg/huffman.c:286-313 | and why one without a run: a table that codes one zero and a coefficient as 101000, and one without that codeword that reads every block right, two or three bits out of step |
| `JpegAcExample.DifferentYetHarmless` | examples/TMR/template/jpeg/huffman.c:286-313 | why an anchor is asked for: a table that codes only the end of block, as 01, and one that reads it as 16 zeros and an end, with every block coming back |
| `AesTables.InvSubUndoesSub` | examples/TMR/template/aes/aes_func.c:62-129 | the inverse S-box undoes the S-box on every byte |
| `AesField.TwiceIsLinear` | examples/TMR/template/aes/aes_func.c:374-377 | doubling with reduction by 283 distributes over exclusive or |
| `AesField.ThriceIsTwicePlus` | examples/TMR/template/aes/aes_func.c:378-383 | the tripling shortcut is doubling plus the value |
| `AesField.UnmixUndoesMix` | examples/TMR/template/aes/aes_func.c:367-505 | the 14, 11, 13, 9 column step inverts the 2, 3, 1, 1 step over GF(2^8) |
| `AesState.ByteSubShiftRow` | examples/TMR/template/aes/aes_func.c:132-243 | for 4, 6 and 8 columns the in-place cycles substitute every byte and rotate row r by its offset (1, 2, 3, and 1, 3, 4 for eight columns) |
| `AesState.InversShiftRowByteSub` | examples/TMR/template/aes/aes_func.c:252-363 | the same for the inverse rotation and substitution |
| `AesState.UnshiftUndoesShift` | examples/TMR/template/aes/aes_func.c:132-363 | the inverse step restores every state, for all three widths |
| `AesState.RowsRotate` | examples/TMR/template/aes/aes_func.c:132-243 | each byte comes from the column that the table of offsets names, substituted: 1, 2, 3 columns on for rows 1 to 3, and 1, 3, 4 in a state of eight columns |
| `Rijndael.MixOne` | examples/TMR/template/aes/aes_func.c:374-387 | the statements for one output byte compute the mixed byte plus the key byte |
| `Rijndael.UnmixOne` | examples/TMR/template/aes/aes_func.c:450-494 | the four shift chains compute the unmixed byte |
| `Rijndael.Cipher.KeySchedule` | examples/TMR/template/aes/aes_key.c:76-163 | for the nine sizes every later column of the word table is the one nk before it plus the last column, which is turned by a row, substituted and given its power of two where a key length begins, and substituted in the middle of a 256-bit key (section 5.2 of FIPS 197); any other type code gives -1 |
| `Rijndael.RoundConstantIsPower` | examples/TMR/template/aes/aes_key.c:64-73 | round constant i is 2 to the power i in GF(2^8) |
| `Rijndael.TypeCodes` | examples/TMR/template/aes/aes_key.c:82-131 | a type code spells key and block bits, and the larger of the two sets 10, 12 or 14 rounds |
| `Rijndael.Cipher.AddRoundKey` | examples/TMR/template/aes/aes_func.c:511-542 | adds the key of the given round to the state and nothing else |
| `Rijndael.Cipher.MixColumnAddRoundKey` | examples/TMR/template/aes/aes_func.c:366-429 | mixes every column and adds the round key, through the buffer |
| `Rijndael.Cipher.AddRoundKeyInversMixColumn` | examples/TMR/template/aes/aes_func.c:433-508 | adds the round key and unmixes every column, through the buffer |
| `Rijndael.Cipher.Encrypt` | examples/TMR/template/aes/aes_enc.c:64-116 | the round structure of encryption for all nine sizes |
| `Rijndael.Cipher.Decrypt` | examples/TMR/template/aes/aes_dec.c:63-122 | the round structure of decryption for all nine sizes |
| `Rijndael.Reversed` | examples/TMR/template/aes/aes_dec.c:108-122 | decryption passes through the states of encryption in reverse order |
| `Rijndael.DecryptionUndoesEncryption` | examples/TMR/template/aes/aes_dec.c:63-122 | decryption of an encryption is the original state, for every state, key and size |
| `Rijndael.EncryptionUndoesDecryption` | examples/TMR/template/aes/aes_dec.c:63-122 | and encryption of a decryption is the original state: both permute the finite set of states |
| `Rijndael.RoundTrip` | examples/TMR/template/aes/aes_dec.c:63-122 | encrypting a buffer in place and decrypting it in place with the same key leaves it as it was |
| `RijndaelVector.KnownAnswer` | examples/TMR/template/aes/aes_enc.c:64-116 | the worked example of Appendix B of FIPS 197, which is the input and expected output of the program: that key enciphers that block to 39 25 84 1d ... 0b 32, and deciphers it back |
| `AdpcmBand.Predictor.ComputeZeroPart` | examples/TMR/template/adpcm/adpcm.c:580-592 | the multiply-accumulate loop is the zero-section prediction |
| `AdpcmBand.Predictor.Upzero` | examples/TMR/template/adpcm/adpcm.c:661-691 | coefficients leak and step by sign, and the delay line moves on without ever writing entry 2 |
| `AdpcmBand.Predictor.Adapt` | examples/TMR/template/adpcm/adpcm.c:330-352 | the updates in source order, each using the values the source has at that point |
| `AdpcmBand.ScalelInRange` | examples/TMR/template/adpcm/adpcm.c:648-656 | for scale factors in range the shift is never negative and the scale lies in 32..16384, or 8..16384 in the higher band |
| `AdpcmBand.LowStepIsStable` | examples/TMR/template/adpcm/adpcm.c:608-745 | one step keeps the lower band in the pole stability triangle with bounded zero coefficients and scale factors, whatever the code |
| `AdpcmBand.HighStepIsStable` | examples/TMR/template/adpcm/adpcm.c:648-763 | the same for the higher band |
| `AdpcmCoder.Quantl` | examples/TMR/template/adpcm/adpcm.c:607-629 | the loop stops at the first decision level that is not exceeded |
| `AdpcmCoder.LowCodeInRange` | examples/TMR/template/adpcm/adpcm.c:607-629 | the lower-band code is a six-bit value that indexes every table it is used for |
| `AdpcmCoder.Codec.Encode` | examples/TMR/template/adpcm/adpcm.c:247-395 | filter, both bands and multiplexing: new encoder state and code as the step function gives them |
| `AdpcmCoder.Codec.Decode` | examples/TMR/template/adpcm/adpcm.c:400-534 | both bands take the step for the received codes; the output samples are those of the encoder code il, not of the received one |
| `AdpcmCoder.OutputIsRightExactlyFor` | examples/TMR/template/adpcm/adpcm.c:424-430 | for any two codes, over all scale factors, the looked-up difference is that of the received code exactly when the table entries are equal: the same code, or both among 0 to 3 and 63 |
| `AdpcmCoder.ReconstructionFollows` | examples/TMR/template/adpcm/adpcm.c:424-430 | the reconstructed sample is right exactly when the difference is |
| `AdpcmCoder.RunGoesWrong` | examples/TMR/template/adpcm/adpcm.c:247-430 | a run from reset: a loud and a silent pair get the low codes 61 and 4, and the first reconstruction with the pending code is -25 where the received one means 0 |
| `AdpcmCoder.FirstSampleWrong` | examples/TMR/template/adpcm/adpcm.c:400-534 | the two pairs encoded and the first code decoded: -25 goes into the output samples |
| `AdpcmCoder.EncodeDecodePair` | examples/TMR/template/adpcm/adpcm.c:845-868 | decoding a code straight after encoding it reconstructs from the received code |
| `AdpcmCoder.Codec.Reset` | examples/TMR/template/adpcm/adpcm.c:539-574 | encoder and decoder start from the same state |
| `AdpcmCoder.Lockstep` | examples/TMR/template/adpcm/adpcm.c:286-497 | after any number of pairs the decoder state in both bands equals the encoder state (clause 6.2 of ITU-T G.722) |
| `AdpcmCoder.EncoderIsStable` | examples/TMR/template/adpcm/adpcm.c:286-395 | the stability invariant holds over every run of the encoder from reset |
| `AdpcmCoder.DecoderIsStable` | examples/TMR/template/adpcm/adpcm.c:409-497 | and over every run of the decoder, on any codes |
| `AdpcmCoder.EncodeThenDecode` | examples/TMR/template/adpcm/adpcm.c:845-868 | resetting, encoding all pairs and decoding all codes leaves both sides in the same state, with il holding the low code of the last pair |
| `AdpcmQuantizer.HighCodeIsNearest` | examples/TMR/template/adpcm/adpcm.c:349-362 | the higher-band code is nearest: no other code reconstructs a difference nearer to eh by more than one, for every scale factor in range |
| `AdpcmQuantizer.LowCodeIsInside` | examples/TMR/template/adpcm/adpcm.c:607-628 | what the lower-band code reconstructs has the sign of el or is 0, lies in the decision interval of el and is off by no more than its width; the difference for the predictors lies in the interval of the upper four bits |
| `AdpcmQuantizer.LowBandTracks` | examples/TMR/template/adpcm/adpcm.c:286-334 | the reconstruction an encoder step leaves, and the sample a decoder in the same state puts out for its code, are no further from the band sample than those intervals are wide |
| `AdpcmQuantizer.HighBandTracks` | examples/TMR/template/adpcm/adpcm.c:336-395 | the higher band's reconstruction is as near to the band sample as any other code would have brought it, up to one |
| `AdpcmQuantizer.EncoderFollows` | examples/TMR/template/adpcm/adpcm.c:247-395 | both over every run of the encoder from reset |
| `AdpcmFilter.TransmitIsSum` | examples/TMR/template/adpcm/adpcm.c:257-269 | the transmit sums are over every second entry of the delay line and its tap |
| `AdpcmFilter.DelayLine` | examples/TMR/template/adpcm/adpcm.c:271-276 | after n pairs the delay line holds the last 24 samples, newest first |
| `AdpcmFilter.SteadySignal` | examples/TMR/template/adpcm/adpcm.c:256-280 | a steady signal goes to the lower band unchanged and leaves the higher band at 0 |
| `AdpcmFilter.AlternatingSignal` | examples/TMR/template/adpcm/adpcm.c:256-280 | an alternating signal goes to the higher band unchanged and leaves the lower band at 0 |
| `AdpcmFilter.ReceiveIsSum` | examples/TMR/template/adpcm/adpcm.c:506-519 | the receive sums are over the newest value, the delayed ones in order and every second tap |
| `AdpcmFilter.SteadyOutput` | examples/TMR/template/adpcm/adpcm.c:506-523 | a steady value comes out of the receive filter unchanged |
| `AdpcmFilter.LeakedLearns` | examples/TMR/template/adpcm/adpcm.c:661-684 | a zero coefficient leaks one part in 256 and steps by 128 to the side that brings its product with the delayed value nearer to the difference |
| `AdpcmFilter.FirstPoleFollows` | examples/TMR/template/adpcm/adpcm.c:726-747 | the first pole coefficient leaks and moves by 192 to the sign of the product of the last two partial reconstructions, rounded down, unless a bound stops it |
| `AdpcmFilter.SecondPoleFollows` | examples/TMR/template/adpcm/adpcm.c:696-721 | the second one leaks, moves by 128 to the sign of the product of the last and the last but two, and against the first coefficient |
| `AdpcmFilter.PoleSection` | examples/TMR/template/adpcm/adpcm.c:595-604 | the pole section is the sum of its two products over 2^14, rounded down |
| `AdpcmFilter.LouderCodesRaise` | examples/TMR/template/adpcm/adpcm.c:633-644 | a code for a larger difference never leaves the logarithm of the scale factor smaller; the faintest ones lower it and the loud ones raise it |
| `AdpcmFilter.LouderHighCodesRaise` | examples/TMR/template/adpcm/adpcm.c:752-763 | the same in the higher band |
| `AdpcmFilter.ScaleDoubles` | examples/TMR/template/adpcm/adpcm.c:648-656 | the scale factor doubles with every 2048 of its logarithm, up to its last bit |
| `AdpcmFilter.HistoryMoves` | examples/TMR/template/adpcm/adpcm.c:308-334 | after two steps the delays hold the two partial and full reconstructions in order |
| `Cfb64.DecryptionUndoesEncryption` | examples/TMR/template/blowfish/bf_cfb64.c:96-150 | decryption from the same register and position restores every message (section 6.3 of NIST SP 800-38A) |
| `Cfb64.EncryptedTogether` | examples/TMR/template/blowfish/bf_cfb64.c:99-123 | a second part encrypted from the state the first part leaves continues the same cipher text |
| `Cfb64.StreamRoundTrip` | examples/TMR/template/blowfish/bf_cfb64.c:80-151 | any chunking on one side and any other on the other side restores the message, and both sides end with equal register and position |
| `Cfb64.Refill` | examples/TMR/template/blowfish/bf_cfb64.c:103-119 | the register is packed into two words, put through the cipher and unpacked in place |
| `Cfb64.BfCfb64Encrypt` | examples/TMR/template/blowfish/bf_cfb64.c:80-151 | both byte loops produce the specified text, register and position, also when input and output are one buffer |
| `Cfb64.WholeBlock` | examples/TMR/template/blowfish/bf_cfb64.c:118-121 | from position 0, after eight bytes of cipher text the register holds them |
| `Cfb64.CipherFeedback` | examples/TMR/template/blowfish/bf_cfb64.c:99-123 | byte k of block b of the cipher text is the message byte plus byte k of the enciphered register, which is the cipher text of the block before (section 6.3 of NIST SP 800-38A) |
| `Cfb64.RefilledIsBigEndian` | examples/TMR/template/blowfish/bf_cfb64.c:103-117 | the cipher is applied to the two numbers that the halves of the register spell, most significant byte first, and its two words are spelled back the same way |
| `BitStream.LoadingAhead` | examples/TMR/template/motion/getbits.c:128-177 | a reader that keeps bytes loaded ahead delivers the bits of one that does not |
| `MpegBits.BitBuffer.FillBuffer` | examples/TMR/template/motion/getbits.c:55-82 | the read buffer is refilled with the 2048 input bytes |
| `MpegBits.BitBuffer.ShowBits` | examples/TMR/template/motion/getbits.c:109-114 | the next N bits without moving |
| `MpegBits.BitBuffer.FlushBuffer` | examples/TMR/template/motion/getbits.c:128-163 | moves on by exactly N bits and restores 25 to 32 pending bits above zero low bits, across refills |
| `MpegBits.BitBuffer.GetBits` | examples/TMR/template/motion/getbits.c:167-177 | returns exactly the next N bits of the stream, for any N the window holds, 1 to 25 always |
| `MpegMotion.CodewordDecodes` | examples/TMR/template/motion/getvlc.c:48-79 | the three lookup tables decode every codeword that begins with a zero, whatever the sign, and consume just its bits |
| `MpegVectors.MotionCodewordDecodes` | examples/TMR/template/motion/getvlc.c:48-79 | a stream that begins with the codeword of m in Table B-10 of ISO/IEC 13818-2, the single one for 0 included, gives motion code m and is read on from behind it |
| `MpegVectors.NoCodewordIsZero` | examples/TMR/template/motion/getvlc.c:74-75 | nine bits below 12 behind a zero give motion code 0 with one bit used |
| `MpegMotion.GetMotionCode` | examples/TMR/template/motion/getvlc.c:48-79 | the reader computes that decoding |
| `MpegMotion.DecodedInRange` | examples/TMR/template/motion/motion.c:146-171 | the decoded component lies in [-lim, lim) and equals prediction plus differential modulo 2 lim (section 7.6.3.1 of ISO/IEC 13818-2) |
| `MpegMotion.FullPel` | examples/TMR/template/motion/motion.c:155-169 | in full-pel units the decoded component is even, lies in twice the range, and equals the even part of the prediction plus twice the differential modulo twice the range |
| `MpegMotion.EveryTargetIsReachable` | examples/TMR/template/motion/motion.c:146-171 | every vector in range is reached from every prediction by some code and residual |
| `MpegMotion.FitsInt` | examples/TMR/template/motion/motion.c:153-169 | no intermediate value leaves 32 bits for sizes up to 25 |
| `MpegMotion.DecodeMotionVector` | examples/TMR/template/motion/motion.c:146-171 | the in-place update computes the decoded component and keeps the other one |
| `MpegMotion.MotionVector` | examples/TMR/template/motion/motion.c:94-137 | both components, residuals, optional differentials and the halved vertical prediction, in stream order |
| `MpegMotion.VectorKept` | examples/TMR/template/motion/motion.c:94-171 | whatever the stream holds, both components of a vector in range stay in range |
| `MpegVectors.StillComponent` | examples/TMR/template/motion/motion.c:110-117 | a component whose next bit is a one keeps its prediction, in full-pel units the even part of it, and uses that bit |
| `MpegVectors.DifferentialsCount` | examples/TMR/template/motion/motion.c:157-167 | the differentials count up from 1 through residuals and codes in order, and a negative code turns the sign |
| `MpegVectors.VectorReadBack` | examples/TMR/template/motion/motion.c:94-137 | the bits of both components and their dual prime differentials, in stream order, come back as the vector and differentials they stand for, vertical scaling included, and nothing more is used |
| `MpegVectors.EveryVectorCanBeSent` | examples/TMR/template/motion/motion.c:94-137 | for every prediction, target and differentials in range there are bits that every stream beginning with them decodes to that target |
| `ByteTable.LeadingZerosNormalise` | examples/TMR/template/gsm/add.c:71-88 | the table entry is the shift that brings a byte's leading one to bit 7 |
| `GsmArith.NormNormalises` | examples/TMR/template/gsm/add.c:90-123 | the norm brings a positive value into [2^30, 2^31) |
| `GsmArith.GsmDiv` | examples/TMR/template/gsm/add.c:125-158 | the shift-subtract loop returns the 15-bit fraction num/denum, 32767 when they are equal and 0 for a zero numerator |
| `GsmArith.SumIsNearest` | examples/TMR/template/gsm/add.c:25-69 | a saturating sum with a rounded product is the word nearest to the exact value |
| `GsmLpc.ScaledIsSmall` | examples/TMR/template/gsm/lpc.c:56-76 | after scaling every sample lies within 2048, the most negative word included |
| `GsmLpc.ScalingIsNeeded` | examples/TMR/template/gsm/lpc.c:56-69 | a positive scaling count n means that some sample reaches 1024 * 2^n: the frame is not scaled more than needed |
| `GsmLpc.CorrelationBound` | examples/TMR/template/gsm/lpc.c:85-141 | no partial sum of the products leaves 32 bits |
| `GsmLpc.LagZeroIsLargest` | examples/TMR/template/gsm/lpc.c:85-141 | no lag correlates more strongly than lag zero |
| `GsmLpc.Prologue` | examples/TMR/template/gsm/lpc.c:92-128 | the hand-unrolled STEP macros add exactly the products of the first eight samples |
| `GsmLpc.Autocorrelation` | examples/TMR/template/gsm/lpc.c:38-149 | L_ACF[k] is twice the correlation sum of the scaled frame, lag zero the largest, all inside 32 bits, and the frame is left rescaled (section 4.2.4 of GSM 06.10) |
| `GsmLpc.RescalingIsExactlyRounding` | examples/TMR/template/gsm/lpc.c:144-148 | a sample comes back rounded to the scaling exactly when it is below 32760; from there on 2^15 wraps to -2^15 |
| `GsmReflection.NormalisedFits` | examples/TMR/template/gsm/lpc.c:182-184 | shifting every lag by the norm of lag zero neither overflows nor loses bits in the upper half |
| `GsmReflection.SchurStep` | examples/TMR/template/gsm/lpc.c:216-228 | the in-place loop is the simultaneous update of both arrays |
| `GsmReflection.CoefficientIsQuotient` | examples/TMR/template/gsm/lpc.c:209-212 | a coefficient is minus P[1] / P[0] in 15 bits, cut off towards zero, just below one where the quotient is one |
| `GsmReflection.StepIsNearest` | examples/TMR/template/gsm/lpc.c:216-228 | each entry of a step is the word nearest to the exact Schur recursion: no other word is nearer |
| `GsmReflection.ReflectionCoefficients` | examples/TMR/template/gsm/lpc.c:163-230 | the recursion computes the specified coefficients, each strictly inside 16 bits, with every division legal |
| `GsmReflection.AnalyseFrame` | examples/TMR/template/gsm/lpc.c:312-323 | the eight coefficients are those the recursion specifies for twice the correlations of the scaled frame, zeros for a silent one, and the frame is left rescaled |

## Left out

- Test vectors other than the one of Rijndael, printing, result counters and the `main` functions.
- SoftFloat exception flags, tininess and the rounding modes other than to nearest.
- `float64_ge` and `float64_neg`, `int32_to_float64` and the sine series of dfsin.
- Fft.Fft: the sine table is a parameter, any 768 entries; the table's values and the inverse transform, a compile-time constant 0, are not modelled.
- BellmanFord.BellmanFord: asks for weights of size at most some w with (nodecount + 2) * w below INFINITY, or (nodecount * edgecount + 2) * w where a negative cycle can be reached, so that no distance overflows an int or equals INFINITY; beyond that the C sums can overflow and nothing is claimed.
- Mips.Machine.Dispatch: data addresses go through the interpreter's index macro modulo the 64-word memory; shift counts taken from a register count modulo 32.
- JpegHuffman.DecodeHuffman: when the length loop leaves its table the outcome is LeftTable; what the C loop then compares with, the memory behind the table, is not modelled. The C program ends on a read error, the model returns it.
- JpegAcExact.BlocksReturnExactly: for tables that meet the Kraft inequality, a DC table that codes category 0, and a named AC table with an end of block and an anchor; JpegAcTable.InterchangeableReturns, the direction to the blocks, asks for none of that. For a named table that codes coefficients without a run, but each with a codeword longer than its value and not spelled alike, the other direction is left open.
- JpegBlock.DecodeHuffMCU: DC categories above 20 are excluded, as the source's mask table ends there.
- The inverse DCT, colour conversion, block output and marker parser of the JPEG decoder.
- Rijndael.Cipher.Encrypt: a type code other than the nine leaves the C globals as they were; such calls are not modelled.
- The S-box of Rijndael is taken as a table, not derived from inversion in the field.
- AdpcmBand.Predictor.Adapt: the source writes the predictor out four times, over four sets of globals; the model has one class with four instances. `long` is wide enough for every product.
- AdpcmCoder.Codec.Decode: no bound on output samples, since the source does not saturate the reconstructed signals.
- The Feistel rounds and key schedule of Blowfish: the block cipher is an arbitrary function on two words.
- MpegBits.BitBuffer.constructor: stands behind the first refill, as after the test program's initialisation; the System-stream accounting and end-of-file padding, which the source never reaches, are left out.
- MpegMotion.MotionVector: component sizes up to 25; the wrapper that chooses between one and two vectors is not modelled.
- GSM log-area ratios and their quantisation.
- SHA, matrix multiplication, FIR, SATD and vector addition, whose loops compute what their bodies say, and the inlined and duplicated copies of the kernels above.

# Verified model of the simulator's hard cores

A Dafny model of the parts of the RISC-V / ARM system-on-chip simulator whose
results are hardest to see from the code: the double-precision FPU datapath, the
128-bit multiply trees, the instruction cache, the attribute tree with its
printer, parser and sort, ARM exception frames and condition flags, the clocked
AXI bus wrapper, the sparse DDR memory, the clock callback queue and the LR/SC
reservation. Verify all files together with `dafny verify dfyconfig.toml`.

## How the model is laid out

| files | component |
|---|---|
| `Bits.dfy` | powers of two, shifts, bit extraction and the value of a bit array; no claim about the program |
| `Ieee754.dfy`, `FpuRounding.dfy` | doubles as integers in units of 2^-1074, roundTiesToEven (section 4.3.1 of IEEE 754-2008) as a relation between an exact number and a bit pattern, and what truncation before rounding does to it |
| `RippleAdder.dfy`, `FpuPipeline.dfy`, `FpuAddSub.dfy`, `FpuAddSubRounding.dfy` | FADD.D, FSUB.D, comparisons, FMAX.D, FMIN.D |
| `FpuMultiplier.dfy`, `FpuMul.dfy` | the 53x53 multiplier and FMUL.D |
| `FpuDivider.dfy`, `FpuDiv.dfy` | the fourteen-stage radix-4 divider and FDIV.D |
| `FpuConvert.dfy` | integer to double and back |
| `MulTree.dfy` | MULHU, MULH, MULHSU (section 7.1 of the RISC-V Unprivileged ISA manual, version 20191213) |
| `ICache.dfy` | the instruction cache in front of the bus |
| `AttributeTree.dfy`, `AttributeParser.dfy`, `AttributeScanner.dfy`, `AttributeRoundTrip.dfy`, `AttributeGrammar.dfy`, `AttributeSort.dfy` | attribute values: printer, parsing function, scanner, round trip, the grammar it accepts, in-place sort |
| `ArmException.dfy`, `ArmFlags.dfy` | exception entry and exit, PUSH and POP, flags and conditions |
| `AxiWrapper.dfy` | the burst state machine, one step per clock (sections A3.4.1 and A3.4.4 of the AMBA AXI specification) |
| `SparseMemory.dfy` | the DDR block list |
| `ClockQueue.dfy` | the callback queue |
| `Reservation.dfy` | the reservation and its countdown |

Integers of the program that can wrap are wrapped explicitly. Bit arrays are
arrays of bits whose value is `Value(a[..])`. The bus is a parameter: a function
from addresses to bytes for the cache, an outcome per access elsewhere.

## What turned out not to hold

Where the program does not do what its name promises, the model keeps the code
and states the exact condition under which it does.

- FADD.D and FSUB.D drop alignment bits without a sticky bit. The result is the
  correctly rounded sum for all finite operands if and only if they are outside
  `LosesTie`, a family with an alignment shift of 53 or 54 (`AddSubRounding`,
  `LostTieExample`).
- FMUL.D fails exactly when a cut-off bit turns a non-tie into a tie with an
  even significand, or when a subnormal significand rounds up to 2^52 and the
  carry is lost, so that the result is zero (`MulRounding`; on the bits of the
  product `NormalExceptions` and `SubnormalExceptions`; `RoundedDownExample`,
  `HalvedToZeroExample`).
- FDIV.D ignores the residue when it decides a tie, keeps only 52 or 53 quotient
  bits of a dividend of at most three units, and loses the same carry; outside
  these three families the quotient is correctly rounded for all finite operands
  with a nonzero divisor (`DivRounding`; on the bits of the quotient
  `DivNormalExceptions`, `DivShiftedExceptions`, `DivSubnormalExceptions` and
  `ShortDividend`; `RoundedDownQuotient`, `HalvedToZeroQuotient`,
  `ShortDividendExample`).
- With an infinite operand FADD.D and FSUB.D are right only for two infinities of
  one sign, and infinity plus 1 is a NaN (`AddSubSpecial`, `InfinityPlusFinite`);
  FMUL.D turns infinity times a power of two into a NaN and infinity times a NaN
  into infinity (`MulSpecial`). FDIV.D is right there (`DivSpecial`,
  `DivByZero`), but raises its flag for a divisor of +0 alone (`FlagExact`).
- FEQ.D, FLT.D and FLE.D order -0 below +0 and read a NaN as one more number;
  each is right exactly under the condition of `FeqExact`, `FltExact` and
  `FleExact` (`ZeroExamples`). FMAX.D and FMIN.D return the second operand as
  soon as one is not finite, which is right exactly under the condition of
  `MaxExact` and `MinExact` (`InfinityExamples`).
- FCVT.L.D and FCVT.W.D return the smallest integer for everything out of range,
  FCVT.LU.D and FCVT.WU.D wrap negative numbers around, and FCVT.WU.D does not
  extend the sign: `FcvtLExact`, `FcvtWExact`, `FcvtLUExact` and `FcvtWUExact`
  say exactly when each returns what the ISA asks for (`FcvtExamples`).
- MULH and MULHSU complement the upper word only, which is wrong when the lower
  word is zero, and take -2^63 for 2^63 (`MulhIff`, `MulhsuIff`, `MulhExample`,
  `MulhsuExample`).
- The cache has no valid bit and drops the address bits from 32 on. From a cold
  start every fetch of every run returns the bus contents if and only if no line
  found in the initial line memories differs from the bus and the bus decodes no
  more than 32 address bits (`ColdStartExact`); zeroed line memories answer every
  fetch from the first 4 KiB with zeros (`ZeroedFetch`).
- A FIXED or WRAP burst goes to address 0 after the first beat, and an INCR read
  from an unaligned address loses the lower byte lanes of every later beat,
  because the address is not aligned after the first one. Reads deliver the right
  bytes if and only if `ReadsRight` holds, writes, whose low address bits are
  masked, if and only if `WordsRight` does (`ReadBurstPlaced`,
  `WriteBurstPlaced`, `UnalignedReadExample`, `FixedBurstExample`). A write
  request raised together with a read request is taken but never served
  (`WritesAnswered`, `LostWriteExample`).
- A DDR access across a 1 KiB boundary stays in the block it starts in. The tail
  of such a write is seen by accesses that cross the same boundary and by no
  others, so that the memory is a flat one, whatever the data, if and only if
  every byte read was last written through the block of the read (`FlatExact`,
  `CrossingExample`).
- A due null callback ends a drain of the clock queue early. The drain does its
  work if and only if no null comes before the last due callback in the order of
  removal (`DrainExact`, `NullEndsDrain`, `NullExamples`).
- With address translation, LR reserves the translated address while SC compares
  the untranslated one, so that LR and SC of one address succeed if and only if
  it translates to itself (`SameAddressSuccess`, `TranslatedExample`).

## Model

| member | source | states |
|---|---|---|
| `Ieee754.RoundingUnique` | debugger/src/cpu_fnc_plugin/riscv-ext-f.cpp:485-788 | the rounding relation used for every FPU result determines one bit pattern, so a proved result is the only correct one |
| `Ieee754.MidpointsDecide` | debugger/src/cpu_fnc_plugin/riscv-ext-f.cpp:485-788 | nearest-even over all doubles is the same as lying between the two neighbouring midpoints, with ties going to the even pattern |
| `RippleAdder.RippleAddSub` | debugger/src/cpu_fnc_plugin/riscv-ext-f.cpp:485-788 | the 106 columns of carry or borrow propagation add or subtract the values of the operands up to a final carry of weight 2^106 |
| `FpuPipeline.AlignBits` | debugger/src/cpu_fnc_plugin/riscv-ext-f.cpp:485-788 | the normalising multiplexer shifts the sum so that its leading one reaches the fixed position |
| `FpuPipeline.RoundBits` | debugger/src/cpu_fnc_plugin/riscv-ext-f.cpp:485-788 | gathers the 53-bit significand and a rounding bit that is set above half and at a half with an odd significand |
| `FpuAddSub.SumBits` | debugger/src/cpu_fnc_plugin/riscv-ext-f.cpp:485-788 | after alignment the ripple adder yields the integer sum or difference, and never a carry or borrow out |
| `FpuAddSub.LeadingOne` | debugger/src/cpu_fnc_plugin/riscv-ext-f.cpp:485-788 | the scan for the leading one reports the shift that normalises the sum |
| `FpuAddSub.AddSignificands` | debugger/src/cpu_fnc_plugin/riscv-ext-f.cpp:485-788 | the whole bit-array path equals add, normalise, scale back and round on integers |
| `FpuAddSub.AddSubCompare` | debugger/src/cpu_fnc_plugin/riscv-ext-f.cpp:485-788 | the bit-array implementation refines the arithmetic description for every selected operation, and its exception output |
| `FpuAddSubRounding.AddSubRounding` | debugger/src/cpu_fnc_plugin/riscv-ext-f.cpp:485-788 | FADD.D and FSUB.D of any finite operands are the exact result rounded to nearest even, with the right zero sign, subnormals and overflow, if and only if the operands are not in the lost-tie family |
| `FpuAddSubRounding.LostTieExample` | debugger/src/cpu_fnc_plugin/riscv-ext-f.cpp:485-788 | 2^53 + (1 + 2^-52) is not rounded correctly |
| `FpuAddSubRounding.AddSubSpecial` | debugger/src/cpu_fnc_plugin/riscv-ext-f.cpp:715-748 | FADD.D and FSUB.D with an operand that is not finite are right if and only if one is a NaN or both are infinities of the same sign |
| `FpuAddSubRounding.InfinityPlusFinite` | debugger/src/cpu_fnc_plugin/riscv-ext-f.cpp:715-748 | infinity plus or minus any finite number comes out as a NaN |
| `FpuAddSubRounding.CompareFlags` | debugger/src/cpu_fnc_plugin/riscv-ext-f.cpp:485-788 | for every pair of patterns the equal, more and less flags give the numeric order, except that -0 counts as less than +0 and a NaN as a number beyond infinity |
| `FpuAddSubRounding.FeqExact` | debugger/src/cpu_fnc_plugin/riscv-ext-f.cpp:1254-1281 | FEQ.D is right for exactly the operands that are neither zeros of different sign nor one NaN twice |
| `FpuAddSubRounding.FltExact` | debugger/src/cpu_fnc_plugin/riscv-ext-f.cpp:1352-1383 | FLT.D is right if and only if the operands are not -0 and +0, in this order, and no NaN reads as the smaller or larger of an ascending pair |
| `FpuAddSubRounding.FleExact` | debugger/src/cpu_fnc_plugin/riscv-ext-f.cpp:1320-1347 | FLE.D is right if and only if the operands are not +0 and -0, in this order, and no NaN is part of a pair that reads as not descending |
| `FpuAddSubRounding.ZeroExamples` | debugger/src/cpu_fnc_plugin/riscv-ext-f.cpp:1254-1383 | +0 = -0 and +0 <= -0 come out as false, -0 < +0 as true |
| `FpuAddSubRounding.MaxExact` | debugger/src/cpu_fnc_plugin/riscv-ext-f.cpp:1384-1401 | FMAX.D returns the maximum with -0 below +0, the number beside a NaN, and the canonical NaN for two, if and only if the second operand is no NaN and the first is one, or both are finite, or the second is not below the first; or both are NaN and the second is the canonical one |
| `FpuAddSubRounding.MinExact` | debugger/src/cpu_fnc_plugin/riscv-ext-f.cpp:1406-1424 | the same for FMIN.D and the minimum |
| `FpuAddSubRounding.InfinityExamples` | debugger/src/cpu_fnc_plugin/riscv-ext-f.cpp:485-788 | the maximum of infinity and 1 comes out as 1, and so does the minimum of minus infinity and 1 |
| `FpuMultiplier.PartialProducts` | debugger/src/cpu_fnc_plugin/riscv-ext-f.cpp:306-483 | the nibble multiplexers deliver the multiples of the multiplicand that the digits of the multiplier ask for |
| `FpuMultiplier.Accumulate` | debugger/src/cpu_fnc_plugin/riscv-ext-f.cpp:306-483 | the split 57-bit accumulation with its carry word yields the full product |
| `FpuMultiplier.IMul53` | debugger/src/cpu_fnc_plugin/riscv-ext-f.cpp:306-483 | the 106 output bits are exactly A * B for all 53-bit operands, the shift locates the leading one, the overflow bit says that it is bit 105 |
| `FpuDivider.DivStage` | debugger/src/cpu_fnc_plugin/riscv-ext-f.cpp:37-125 | one stage delivers eight quotient bits and the remainder, eight ones for a zero divisor, and the multiplexer entry of the leading one |
| `FpuDivider.Stages` | debugger/src/cpu_fnc_plugin/riscv-ext-f.cpp:127-304 | after every stage the bytes so far are the quotient of the shifted dividend, with its remainder and the leading-zero count |
| `FpuDivider.IDiv53` | debugger/src/cpu_fnc_plugin/riscv-ext-f.cpp:127-304 | 105 quotient bits equal floor(a * 2^104 / d), the zero-residue flag holds exactly when d divides a * 2^104, the shift counts the leading zeros; a zero divisor gives 105 ones and no shift |
| `FpuDiv.Normalize` | debugger/src/cpu_fnc_plugin/riscv-ext-f.cpp:1119-1127 | the loop finds the shift that brings the leading one of the divisor to bit 52 |
| `FpuDiv.FDiv` | debugger/src/cpu_fnc_plugin/riscv-ext-f.cpp:1101-1248 | the bit-array implementation of FDIV.D refines its arithmetic description for every nonzero divisor; a zero divisor gives infinity with the product of the signs, a NaN for 0 / 0, and the dividend if that is a NaN; the division-by-zero flag is raised for +0 alone |
| `FpuDiv.FlagExact` | debugger/src/cpu_fnc_plugin/riscv-ext-f.cpp:1240-1245 | the flag is raised rightly if and only if the divisor is not zero, or it is +0 and the dividend finite and not zero, or it is -0 and the dividend is not |
| `FpuDiv.RoundRatio` | debugger/src/cpu_fnc_plugin/riscv-ext-f.cpp:1172-1187 | rounding of an exact fraction to nearest even, decided by the bits of its integer quotient and whether the remainder is zero |
| `FpuDiv.NeverAllOnes` | debugger/src/cpu_fnc_plugin/riscv-ext-f.cpp:1182-1225 | a normalised quotient never rounds up to the next power of two, so the exponent field cannot wrap |
| `FpuDiv.DivRounding` | debugger/src/cpu_fnc_plugin/riscv-ext-f.cpp:1101-1248 | FDIV.D of finite operands with a nonzero divisor, subnormals and overflow included, is the exact quotient rounded to nearest even if and only if the operands are outside three explicit families |
| `FpuDiv.DivSpecial` | debugger/src/cpu_fnc_plugin/riscv-ext-f.cpp:1189-1238 | FDIV.D with an infinite operand or a NaN is always right |
| `FpuDiv.DivByZero` | debugger/src/cpu_fnc_plugin/riscv-ext-f.cpp:1189-1238 | and so is division of any operand by zero |
| `FpuDiv.RoundedDownQuotient` | debugger/src/cpu_fnc_plugin/riscv-ext-f.cpp:1101-1248 | a quotient of normal numbers that lies above a midpoint and is rounded down |
| `FpuDiv.HalvedToZeroQuotient` | debugger/src/cpu_fnc_plugin/riscv-ext-f.cpp:1101-1248 | a quotient that should be the smallest normal number and comes out as zero |
| `FpuDiv.ShortDividend` | debugger/src/cpu_fnc_plugin/riscv-ext-f.cpp:1101-1248 | fewer than 54 quotient bits reach the rounding stage only if the dividend is at most three units of 2^-1074 |
| `FpuDiv.DivNormalExceptions` | debugger/src/cpu_fnc_plugin/riscv-ext-f.cpp:1101-1248 | for a normal dividend and result the failing family is: quotient bits that show a tie above an even significand, with a remainder that is not zero |
| `FpuDiv.DivShiftedExceptions` | debugger/src/cpu_fnc_plugin/riscv-ext-f.cpp:1101-1248 | the same for a quotient moved by fewer than 52 places to the left, with the lost carry of a subnormal result |
| `FpuDiv.DivSubnormalExceptions` | debugger/src/cpu_fnc_plugin/riscv-ext-f.cpp:1101-1248 | for a quotient moved k places to the right the failing family is: low bits in a band of width 2^k above a tie without being one, or a quotient that rounds up to the smallest normal number |
| `FpuDiv.ShortDividendExample` | debugger/src/cpu_fnc_plugin/riscv-ext-f.cpp:1101-1248 | 2^-1074 divided by 3 * 2^-1074 is not the double nearest to one third |
| `FpuMul.FMul` | debugger/src/cpu_fnc_plugin/riscv-ext-f.cpp:1464-1604 | the bit-array implementation of FMUL.D refines its arithmetic description |
| `FpuMul.MulRounding` | debugger/src/cpu_fnc_plugin/riscv-ext-f.cpp:1464-1604 | FMUL.D of any finite operands, subnormals included, is the exact product rounded to nearest even if and only if the operands are outside two explicit families |
| `FpuMul.MulSpecial` | debugger/src/cpu_fnc_plugin/riscv-ext-f.cpp:1548-1600 | FMUL.D with an operand that is not finite is right if and only if no operand is infinite, or the other one is finite and zero or no power of two |
| `FpuMul.NormalExceptions` | debugger/src/cpu_fnc_plugin/riscv-ext-f.cpp:1464-1604 | for a normal result the failing family is: significand product at least 2^105 and low 54 bits equal to 2^52 + 1 |
| `FpuMul.SubnormalExceptions` | debugger/src/cpu_fnc_plugin/riscv-ext-f.cpp:1464-1604 | for a subnormal result it is: low bits of the significand product above a tie by less than one unit of the kept fraction, or a product that rounds up to the smallest normal number |
| `FpuMul.RoundedDownExample` | debugger/src/cpu_fnc_plugin/riscv-ext-f.cpp:1464-1604 | a product of normal numbers that is rounded down instead of up |
| `FpuMul.HalvedToZeroExample` | debugger/src/cpu_fnc_plugin/riscv-ext-f.cpp:1464-1604 | a product that should be the smallest normal number and comes out as zero |
| `FpuConvert.Int2Double` | debugger/src/cpu_fnc_plugin/riscv-ext-f.cpp:790-833 | sign extension, magnitude, leading one and rounding refine the arithmetic description, of which the four instructions are cases |
| `FpuConvert.Int2DoubleRounds` | debugger/src/cpu_fnc_plugin/riscv-ext-f.cpp:790-833 | the double is the integer rounded to nearest even, with its sign, for every integer below 2^64 in magnitude |
| `FpuConvert.FcvtDL` | debugger/src/cpu_fnc_plugin/riscv-ext-f.cpp:937-953 | FCVT.D.L gives the double nearest to the signed 64-bit number the register holds |
| `FpuConvert.FcvtDLU` | debugger/src/cpu_fnc_plugin/riscv-ext-f.cpp:957-973 | the same for FCVT.D.LU and unsigned numbers |
| `FpuConvert.FcvtDW` | debugger/src/cpu_fnc_plugin/riscv-ext-f.cpp:977-993 | FCVT.D.W gives the double nearest to the signed number in the low 32 bits, whatever the upper bits are |
| `FpuConvert.FcvtDWU` | debugger/src/cpu_fnc_plugin/riscv-ext-f.cpp:997-1013 | the same for FCVT.D.WU and unsigned numbers |
| `FpuConvert.Double2Int` | debugger/src/cpu_fnc_plugin/riscv-ext-f.cpp:835-906 | truncation toward zero in two's complement when in range, the stated limit value and flag otherwise |
| `FpuConvert.FcvtLExact` | debugger/src/cpu_fnc_plugin/riscv-ext-f.cpp:1017-1033 | FCVT.L.D returns the integer part clipped to the signed 64-bit range, its upper end for a NaN, if and only if the operand is below 2^63 in magnitude, or negative and no NaN |
| `FpuConvert.FcvtWExact` | debugger/src/cpu_fnc_plugin/riscv-ext-f.cpp:1059-1075 | the same for FCVT.W.D and 2^31 |
| `FpuConvert.FcvtLUExact` | debugger/src/cpu_fnc_plugin/riscv-ext-f.cpp:1038-1054 | FCVT.LU.D is right if and only if the operand lies between -1 and 2^64, both excluded |
| `FpuConvert.FcvtWUExact` | debugger/src/cpu_fnc_plugin/riscv-ext-f.cpp:1080-1096 | FCVT.WU.D is right if and only if the operand is not negative and below 2^31, or negative with an integer part that is a multiple of 2^32, or negative from 2^63 on and no NaN |
| `FpuConvert.FcvtExamples` | debugger/src/cpu_fnc_plugin/riscv-ext-f.cpp:1017-1054 | FCVT.LU.D of -1 and FCVT.L.D of infinity return the wrong limit |
| `FpuConvert.RoundTrip` | debugger/src/cpu_fnc_plugin/riscv-ext-f.cpp:790-906 | a signed 64-bit integer survives conversion to double and back, as `Double2Int` converts it, if and only if its magnitude has at most 53 significant bits |
| `FpuConvert.SmallIsExact` | debugger/src/cpu_fnc_plugin/riscv-ext-f.cpp:790-906 | every magnitude up to 2^53 is among those that survive |
| `MulTree.FirstLevel` | debugger/src/cpu_fnc_plugin/riscv-ext-m.cpp:416-512 | each leaf is, as a 128-bit number, the multiplicand times its base-4 digit of the multiplier |
| `MulTree.CombineAdds` | debugger/src/cpu_fnc_plugin/riscv-ext-m.cpp:416-512 | a shift-and-add of two 128-bit nodes, with the carry recovered from top bits, is exact |
| `MulTree.LevelHolds` | debugger/src/cpu_fnc_plugin/riscv-ext-m.cpp:416-512 | each level holds the multiplicand times the digits of the doubled width |
| `MulTree.MULHU` | debugger/src/cpu_fnc_plugin/riscv-ext-m.cpp:416-512 | the tree returns floor(a * b / 2^64) for all 64-bit operands |
| `MulTree.MULH` | debugger/src/cpu_fnc_plugin/riscv-ext-m.cpp:172-290 | sign handling around the tree: complemented upper word for a negative product |
| `MulTree.MulhIff` | debugger/src/cpu_fnc_plugin/riscv-ext-m.cpp:172-290 | MULH is the signed upper half if and only if the product is not negative or its low word is not zero, with the cases of -2^63 spelled out |
| `MulTree.MulhExample` | debugger/src/cpu_fnc_plugin/riscv-ext-m.cpp:172-290 | (-4) * 2^62 gives -2 instead of -1 |
| `MulTree.MULHSU` | debugger/src/cpu_fnc_plugin/riscv-ext-m.cpp:298-408 | the same for signed times unsigned |
| `MulTree.MulhsuIff` | debugger/src/cpu_fnc_plugin/riscv-ext-m.cpp:298-408 | MULHSU is the signed upper half if and only if the stated condition holds |
| `MulTree.MulhsuExample` | debugger/src/cpu_fnc_plugin/riscv-ext-m.cpp:298-408 | the same operands fail for MULHSU |
| `ICache.Split` | debugger/src/cpu_fnc_plugin/icache_func.cpp:243-275 | for every address, masks and shifts give the only tag, index, bank and offset that make up its low 32 bits |
| `ICache.NextHalf` | debugger/src/cpu_fnc_plugin/icache_func.cpp:123-157 | the second half-word is in the same line, or at the start of a line of the other bank |
| `ICache.LookUp` | debugger/src/cpu_fnc_plugin/icache_func.cpp:159-194 | the last way with a matching tag is selected and delivers its two half-words, zeros and 4 if there is none |
| `ICache.WriteLine` | debugger/src/cpu_fnc_plugin/icache_func.h:75-82 | strobed words and the tag are replaced, nothing else |
| `ICache.ReadLine` | debugger/src/cpu_fnc_plugin/icache_func.cpp:224-241 | four bursts of eight bytes leave exactly the bus contents of the line |
| `ICache.NextLruRotates` | debugger/src/cpu_fnc_plugin/icache_func.cpp:75-107 | the replacement word stays a rotation of 0, 1, 2, 3 and its victim advances by one |
| `ICache.FillReached` | debugger/src/cpu_fnc_plugin/icache_func.cpp:75-107 | for any bus a refill keeps the invariant of a set: the ways refilled so far hold lines filled from the bus, the others what they held at the start, and the replacement word is a rotation that names the next of them |
| `ICache.HitCoherent` | debugger/src/cpu_fnc_plugin/icache_func.cpp:159-194 | in every such bank the way that a lookup selects holds what the bus holds if this is so for the lines found at the start: refills never uncover a masked one |
| `ICache.FetchedHoldsBoth` | debugger/src/cpu_fnc_plugin/icache_func.cpp:63-121 | from any line memories both lines of a fetch are cached after it: the second refill does not evict the first line |
| `ICache.RunRotations` | debugger/src/cpu_fnc_plugin/icache_func.cpp:22-121 | after every run of fetches, for any bus and any line memories, every replacement word is a rotation of 0, 1, 2, 3 |
| `ICache.FilledSurvives` | debugger/src/cpu_fnc_plugin/icache_func.cpp:63-121 | in every run of fetches a line that was missing and got filled is still cached after up to three more misses of its set, whatever happens to other sets, and is not after exactly four |
| `ICache.ICacheFunctional.constructor` | debugger/src/cpu_fnc_plugin/icache_func.cpp:22-33 | any line memories, and the replacement words 3, 2, 1, 0 in every set |
| `ICache.ICacheFunctional.GetCachedValue` | debugger/src/cpu_fnc_plugin/icache_func.cpp:123-222 | for any line memories and any address, whether the line of each half-word is cached, and the half-words that the banks deliver for them |
| `ICache.ICacheFunctional.BTransport` | debugger/src/cpu_fnc_plugin/icache_func.cpp:63-121 | from any line memories a fetch touches first one line and then the other and returns what the banks then deliver; the first error report is never raised, the second exactly when the result differs from the bus |
| `ICache.FetchAll` | debugger/src/cpu_fnc_plugin/icache_func.cpp:63-121 | the words of any run of fetches from any line memories, and the line memories after it |
| `ICache.ColdStartExact` | debugger/src/cpu_fnc_plugin/icache_func.cpp:22-121 | every fetch of every run from a cold start returns the aligned word of the bus if and only if every line found in the initial line memories, one that fits an address and has no later way with the same tag, holds the bus contents, and the bus ignores the address bits from 32 on |
| `ICache.UnusedStart` | debugger/src/cpu_fnc_plugin/icache_func.cpp:22-121 | with initial tags that fit no address the second condition alone decides |
| `ICache.AliasedFetch` | debugger/src/cpu_fnc_plugin/icache_func.cpp:243-260 | a fetch repeats the first half-word of an earlier one at an address that differs from bit 32 on only |
| `ICache.StaleFetch` | debugger/src/cpu_fnc_plugin/icache_func.h:70-100 | any line found at the start that differs from the bus is returned by some fetch |
| `ICache.ZeroedFetch` | debugger/src/cpu_fnc_plugin/icache_func.h:70-100 | zeroed line memories answer every fetch from the first 4 KiB with zeros, whatever the bus holds |
| `AttributeTree.AttributeToString` | debugger/src/common/attribute.cpp:490-564 | the printer appends the printed form to the buffer |
| `AttributeScanner.SkipSpecialSymbols` | debugger/src/common/attribute.cpp:566-573 | stops at the first character that is no white space |
| `AttributeScanner.ScanString` | debugger/src/common/attribute.cpp:579-597 | reads up to the same quote; missing quote and overlong text are the error cases |
| `AttributeScanner.ScanBytes` | debugger/src/common/attribute.cpp:677-717 | the byte-list loop refines the grammar, including the characters it does not refuse |
| `AttributeScanner.ScanNumber` | debugger/src/common/attribute.cpp:731-781 | prefix, digit run of bounded length, base selection, saturation and negation |
| `AttributeScanner.AssignKey` | debugger/src/common/attribute.cpp:157-167 | the index operator replaces the value of a key or appends a pair |
| `AttributeParser.AssignIs` | debugger/src/common/attribute.cpp:157-167 | in places of the dictionary: the first pair with the key gets the value and nothing else changes, or the pair is added at the end |
| `AttributeParser.ValueOfIs` | debugger/src/common/attribute.cpp:427-435 | a key is there when its first pair that is not nil holds the value found |
| `AttributeParser.ResolveCases` | debugger/src/common/attribute.cpp:665-676 | what a "Type" entry makes of a dictionary |
| `AttributeParser.ShiftInBits` | debugger/src/common/attribute.cpp:685-695 | a digit is ORed, bit by bit, into the byte shifted up by four, also a digit that is none |
| `AttributeScanner.StringToAttribute` | debugger/src/common/attribute.cpp:575-790 | the recursive scanner returns what the grammar gives at every offset of every text, error cases included |
| `AttributeRoundTrip.RoundTrip` | debugger/src/common/attribute.cpp:490-790 | the printed form of any restorable tree is consumed completely and gives the same tree, unsigned integers coming back as signed with the same 64 bits |
| `AttributeRoundTrip.PrintSigned` | debugger/src/common/attribute.cpp:490-564 | printing what was read back gives the same text |
| `AttributeRoundTrip.Reload` | debugger/src/common/attribute.cpp:478-488 | printing to a buffer and parsing it composes to that round trip |
| `AttributeRoundTrip.StringSurvives` | debugger/src/common/attribute.cpp:579-597 | a text value survives alone if and only if it has no quote and no NUL and is shorter than 1024 bytes |
| `AttributeGrammar.Derived` | debugger/src/common/attribute.cpp:575-790 | every text that a declarative grammar derives is read as the value it derives: decimal, octal and hexadecimal numbers with saturation, both quotes, both spellings of the constants, bytes with and without prefix, nested lists and dictionaries, white space between all tokens and a trailing comma |
| `AttributeGrammar.DerivedText` | debugger/src/common/attribute.cpp:575-790 | the same behind leading white space, with the offset of the next token |
| `AttributeGrammar.ReadText` | debugger/src/common/attribute.cpp:575-790 | the scanner does that |
| `AttributeGrammar.DecimalReads` | debugger/src/common/attribute.cpp:731-781 | a number below 2^64 in base ten is read as that number, as its 64-bit word reads when signed |
| `AttributeGrammar.NegativeReads` | debugger/src/common/attribute.cpp:731-781 | with a minus sign as its negative |
| `AttributeGrammar.OctalReads` | debugger/src/common/attribute.cpp:731-781 | behind a zero in base eight |
| `AttributeGrammar.UnclosedList` | debugger/src/common/attribute.cpp:600-628 | a list whose text ends before its bracket is an error |
| `AttributeGrammar.UnclosedString` | debugger/src/common/attribute.cpp:579-597 | so is a text without its closing quote |
| `AttributeGrammar.MissingColon` | debugger/src/common/attribute.cpp:629-650 | and an entry without its colon |
| `AttributeGrammar.PrintExamples` | debugger/src/common/attribute.cpp:490-564 | the printed form of constants, texts, numbers and bytes, spelled out |
| `AttributeGrammar.ListExample` | debugger/src/common/attribute.cpp:490-564 | the same for a list |
| `AttributeGrammar.DictExample` | debugger/src/common/attribute.cpp:490-564 | and a dictionary |
| `AttributeSort.TextLessIs` | debugger/src/common/attribute.cpp:342-370 | `strcmp` below zero is the order of a dictionary: a smaller character at the first difference, or the end of the text |
| `AttributeSort.Preorder` | debugger/src/common/attribute.cpp:342-370 | comparison of items of one kind is a total preorder, and so is that of signed and unsigned integers from 0 to 2^63 - 1 |
| `AttributeSort.MixedKeys` | debugger/src/common/attribute.cpp:342-370 | exactly when a signed and an unsigned integer compare as numbers |
| `AttributeSort.MixedUnsortable` | debugger/src/common/attribute.cpp:342-370 | no order of a list that holds a negative integer and an unsigned one below 2^63 is sorted, because each is less than the other |
| `AttributeSort.SwapListItem` | debugger/src/common/attribute.cpp:320-333 | exchanges two items |
| `AttributeSort.FirstSwap` | debugger/src/common/attribute.cpp:336-408 | the exchange that moves the pivot itself leaves both scanned ends on their side of the new pivot value |
| `AttributeSort.Partition` | debugger/src/common/attribute.cpp:336-408 | on any items: an index in [lo, hi-1], the range permuted and the rest unchanged; on items of one kind also a value that separates the two parts |
| `AttributeSort.Quicksort` | debugger/src/common/attribute.cpp:410-417 | terminates, permutes the range and leaves the rest alone whatever the items are, and sorts it if they are of one kind |
| `AttributeSort.Sort` | debugger/src/common/attribute.cpp:419-425 | terminates with a permutation of the list; texts come out in the order of a dictionary and integers (all signed, all unsigned, or from 0 to 2^63 - 1) in ascending order, for the items themselves and for lists by the column asked for |
| `ArmException.PushedWord` | debugger/src/cpu_arm_plugin/cpu_arm7_func.cpp:143-184 | words stacked downwards are read back at their places |
| `ArmException.PopIntoIs` | debugger/src/cpu_arm_plugin/thumb.cpp:2311-2345 | POP loads each listed register from the place PUSH gave it and no other register |
| `ArmException.ExceptionRoundTrip` | debugger/src/cpu_arm_plugin/cpu_arm7_func.cpp:143-244 | entry, PUSH {list, LR}, any body that keeps SP and the stacked words, POP {list, PC}: r0-r3, the listed registers, r12, LR, CPSR and SP are those of the interrupted program, which resumes at its address with bit 0 cleared |
| `ArmException.CpuCortex.EnterException` | debugger/src/cpu_arm_plugin/cpu_arm7_func.cpp:143-201 | place by place: the eight words of the frame, lowest byte first, and no other byte of memory, SP, LR and all other registers; execution goes on at the word at 4 * idx without bit 0, which is copied to bit 5 of CPSR and nothing else of it |
| `ArmException.EntryPlaces` | debugger/src/cpu_arm_plugin/cpu_arm7_func.cpp:143-201 | the same of the entry function that the round trip uses |
| `ArmException.CpuCortex.ExitException` | debugger/src/cpu_arm_plugin/cpu_arm7_func.cpp:203-244 | place by place: which word above SP every register is loaded from, and what stays |
| `ArmException.ExitPlaces` | debugger/src/cpu_arm_plugin/cpu_arm7_func.cpp:203-244 | the same of the exit function |
| `ArmException.CpuCortex.LoadWritePC` | debugger/src/cpu_arm_plugin/instructions.cpp:333-354 | a word from 0xFFFFFF80 on exits the exception, any other is the next address without bit 0, which is copied to bit 5 of CPSR |
| `ArmException.CpuCortex.PushT1` | debugger/src/cpu_arm_plugin/thumb.cpp:2389-2423 | the loop over the register list stacks LR and the listed registers in order |
| `ArmException.CpuCortex.PopT1` | debugger/src/cpu_arm_plugin/thumb.cpp:2311-2345 | the loop loads the listed registers and PC, with SP set before an exception exit |
| `ArmException.CpuCortex.ExecPush` | debugger/src/cpu_arm_plugin/thumb.cpp:2389-2423 | in terms of the instruction word: register i of every set bit lies at the new SP plus four times the number of lower set bits, LR on top for bit 8, no other byte of memory and no register but SP changes; nothing happens in an IT block whose condition fails |
| `ArmException.CpuCortex.ExecPop` | debugger/src/cpu_arm_plugin/thumb.cpp:2311-2345 | the registers of the set bits are loaded from the same places, no other is, SP moves above them, and for bit 8 execution goes on at the word on top |
| `ArmException.PushPlaces` | debugger/src/cpu_arm_plugin/thumb.cpp:2389-2423 | the places of the pushed registers |
| `ArmException.PopPlaces` | debugger/src/cpu_arm_plugin/thumb.cpp:2311-2345 | the places of the loaded registers |
| `ArmException.FlagPlaces` | debugger/src/common/arm-isa.h:314-334 | N, Z, C and V are bits 31 to 28 of the status word |
| `ArmFlags.AddFormulas` | debugger/src/cpu_arm_plugin/arm7tdmi.cpp:156-163 | the bitwise C and V formulas of additions agree with AddWithCarry |
| `ArmFlags.SubFormulas` | debugger/src/cpu_arm_plugin/arm7tdmi.cpp:120-132 | those of subtractions agree with AddWithCarry on the complemented operand, and so does the result |
| `ArmFlags.StatusRegister.ArmAdd` | debugger/src/cpu_arm_plugin/arm7tdmi.cpp:139-164 | ADD, ADC and CMN leave the result and flags of AddWithCarry |
| `ArmFlags.StatusRegister.ArmSub` | debugger/src/cpu_arm_plugin/arm7tdmi.cpp:98-133 | SUB, SBC, CMP, RSB and RSC leave the result and flags of AddWithCarry on the complemented operand |
| `ArmFlags.StatusRegister.CmpT1` | debugger/src/cpu_arm_plugin/thumb.cpp:851-876 | CMP leaves the flags of rn + ~rm + 1, or nothing changed in an IT block whose condition fails |
| `ArmFlags.CompareDecides` | debugger/src/cpu_arm_plugin/instructions.cpp:24-57 | after CMP every condition code decides by unsigned or signed integer comparison of the operands |
| `ArmFlags.ConditionalExecution` | debugger/src/cpu_arm_plugin/instructions.cpp:92-97 | in an IT block behind CMP the integers compared decide whether an instruction is executed, outside it always is |
| `AxiWrapper.RtlWrapper.CombProc` | debugger/src/cpu_sysc_plugin/rtl_wrapper.cpp:116-258 | next registers and outputs of one evaluation, fields that no branch assigns keeping their value |
| `AxiWrapper.SettlesAll` | debugger/src/cpu_sysc_plugin/rtl_wrapper.cpp:116-214 | after any sequence of evaluations within a clock only the last one counts |
| `AxiWrapper.SameSteps` | debugger/src/cpu_sysc_plugin/rtl_wrapper.cpp:116-214 | leftover request fields outside a burst are never observed |
| `AxiWrapper.RtlWrapper.Clock` | debugger/src/cpu_sysc_plugin/rtl_wrapper.cpp:116-286 | a clock with inputs that change any number of times is one step of the state machine on the last of them |
| `AxiWrapper.ResetTakesOneClock` | debugger/src/cpu_sysc_plugin/rtl_wrapper.cpp:146-194 | in every run an idle wrapper that sees a reset is not ready in that clock and the next one, without a beat, and then idle again, and ready unless reset is raised again |
| `AxiWrapper.ReadyAfter` | debugger/src/cpu_sysc_plugin/rtl_wrapper.cpp:146-194 | from any state, without a reset, it is ready after exactly the remaining beats of its burst, at once when idle and after one clock in reset |
| `AxiWrapper.RequestStarts` | debugger/src/cpu_sysc_plugin/rtl_wrapper.cpp:196-214 | a request raised in a ready clock starts its burst in the next one with its address, length and type, a read before a write; without one the next clock has no beat |
| `AxiWrapper.ReadBurst` | debugger/src/cpu_sysc_plugin/rtl_wrapper.cpp:159-172 | in every run a read burst of any type and length n takes n + 1 beats, at addr + 8k for INCR and at 0 after the first beat otherwise, raises last and accepts again only on the final one, and reports SLVERR exactly when that or an earlier beat of the burst failed |
| `AxiWrapper.WriteBurst` | debugger/src/cpu_sysc_plugin/rtl_wrapper.cpp:173-189 | the same for a write burst, with one response after the last beat and none before |
| `AxiWrapper.BeatsRight` | debugger/src/cpu_sysc_plugin/rtl_wrapper.cpp:159-189 | the beats of a burst are in the aligned words that the AXI specification puts them in if and only if it is INCR, or has one beat, or is FIXED in word 0, or WRAP with two beats from word 1 on |
| `AxiWrapper.LanesExact` | debugger/src/cpu_sysc_plugin/rtl_wrapper.cpp:309-324 | reading at one address delivers, whatever the bus holds, all byte lanes of a transfer from another if and only if the words are the same and the offset is not larger |
| `AxiWrapper.ReadBurstPlaced` | debugger/src/cpu_sysc_plugin/rtl_wrapper.cpp:159-172 | in every run all beats of an accepted read burst deliver the bytes of the AXI specification, whatever the bus holds, if and only if the words are right and, for INCR with several beats, the address is aligned |
| `AxiWrapper.WriteBurstPlaced` | debugger/src/cpu_sysc_plugin/rtl_wrapper.cpp:173-189 | in every run all beats of an accepted write burst write exactly the strobed bytes of the words of the AXI specification, for every contiguous strobe, if and only if the words are right |
| `AxiWrapper.UnalignedReadExample` | debugger/src/cpu_sysc_plugin/rtl_wrapper.cpp:159-172 | a two-beat INCR read from 4 reads its second beat at 12 and loses the lower lanes |
| `AxiWrapper.FixedBurstExample` | debugger/src/cpu_sysc_plugin/rtl_wrapper.cpp:159-172 | a two-beat FIXED read from 8 reads its second beat at 0 |
| `AxiWrapper.Conserved` | debugger/src/cpu_sysc_plugin/rtl_wrapper.cpp:116-258 | over every run, reads equal last beats, requested beats equal delivered ones, and write requests equal responses plus lost ones, up to what is in progress |
| `AxiWrapper.WritesAnswered` | debugger/src/cpu_sysc_plugin/rtl_wrapper.cpp:198-214 | no write goes unanswered if and only if both requests are never raised to a ready wrapper |
| `AxiWrapper.LostWriteExample` | debugger/src/cpu_sysc_plugin/rtl_wrapper.cpp:198-214 | both requests raised to an idle wrapper: three clocks later it is idle again and the write has no response |
| `AxiWrapper.Mask2Offset` | debugger/src/cpu_sysc_plugin/rtl_wrapper.cpp:347-355 | the lowest selected byte lane, 0 if none |
| `AxiWrapper.Mask2Size` | debugger/src/cpu_sysc_plugin/rtl_wrapper.cpp:357-367 | the number of selected lanes in a row from lane 0 |
| `AxiWrapper.WriteAccess` | debugger/src/cpu_sysc_plugin/rtl_wrapper.cpp:325-336 | a write beat writes exactly the strobed bytes of its word, each with the data of its lane, if and only if they are contiguous |
| `SparseMemory.DDR.constructor` | debugger/src/socsim_plugin/ddr.cpp:22-28 | a new memory is a valid list that holds zeros everywhere |
| `SparseMemory.DDR.Walk` | debugger/src/socsim_plugin/ddr.cpp:54-60 | stops at the block with the number, or where it belongs |
| `SparseMemory.DDR.GetpMem` | debugger/src/socsim_plugin/ddr.cpp:54-89 | returns the block of an address, keeping the list doubly linked, strictly ascending and with the same contents |
| `SparseMemory.DDR.ReadBytes` | debugger/src/socsim_plugin/ddr.cpp:43-52 | a read of up to eight bytes returns what its block holds at their addresses, past a multiple of 1024 too |
| `SparseMemory.DDR.WriteBytes` | debugger/src/socsim_plugin/ddr.cpp:43-52 | a write changes what its block holds at the addresses written, and no other block |
| `SparseMemory.BTransport` | debugger/src/socsim_plugin/ddr.cpp:43-52 | the answer and the new contents for every access |
| `SparseMemory.RunAll` | debugger/src/socsim_plugin/ddr.cpp:43-89 | over any run of accesses, crossing ones included, every read returns what earlier writes left in its block |
| `SparseMemory.SeesFlatExact` | debugger/src/socsim_plugin/ddr.cpp:43-89 | an access sees the flat memory at an address, whatever is written in the run, if and only if the last write to the address went to the same block |
| `SparseMemory.FlatExact` | debugger/src/socsim_plugin/ddr.cpp:43-89 | all reads of a run are those of a flat zero-initialised memory, whatever is written, if and only if every byte read was last written through the block of the read |
| `SparseMemory.NoCrossing` | debugger/src/socsim_plugin/ddr.cpp:43-89 | runs without an access across a multiple of 1024 always meet this |
| `SparseMemory.CrossingExample` | debugger/src/socsim_plugin/ddr.cpp:43-89 | a read across the boundary returns what a write across it stored there, a read behind the boundary does not |
| `ClockQueue.ClockAsyncTQueue.Put` | debugger/src/common/async_tqueue.cpp:95-107 | appends to the pre-queue, or refuses when it holds 1024 items; accepted callbacks stay delivered or pending |
| `ClockQueue.ClockAsyncTQueue.Move` | debugger/src/common/async_tqueue.cpp:109-127 | the first registration of the callback in the pre-queue, or else in the main queue, gets the new time and nothing else changes; the result says whether there is one |
| `ClockQueue.ClockAsyncTQueue.PushPreQueued` | debugger/src/common/async_tqueue.cpp:129-146 | the pre-queue is appended across growth of the array |
| `ClockQueue.ClockAsyncTQueue.GetNext` | debugger/src/common/async_tqueue.cpp:149-169 | removes and returns the first due item from the counter on, the last item taking its place |
| `ClockQueue.LedgerTaken` | debugger/src/common/async_tqueue.cpp:149-169 | removal by swapping keeps accepted callbacks equal to delivered plus pending ones, as multisets |
| `ClockQueue.LedgerPush` | debugger/src/common/async_tqueue.cpp:129-146 | so does moving the pre-queue into the main queue |
| `ClockQueue.Drain` | debugger/src/cpu_sysc_plugin/rtl_wrapper.cpp:294-299 | the drain loop delivers and leaves what the drain function says, and the pre-queue then holds all that the delivered callbacks registered, up to its 1024 places |
| `ClockQueue.DrainComplete` | debugger/src/cpu_sysc_plugin/rtl_wrapper.cpp:294-299 | without due null callbacks a drain delivers each due callback once and leaves exactly the later items |
| `ClockQueue.OrderIsDue` | debugger/src/common/async_tqueue.cpp:149-169 | repeated removal takes exactly the due callbacks, null or not |
| `ClockQueue.DrainExact` | debugger/src/cpu_sysc_plugin/rtl_wrapper.cpp:294-299 | a drain delivers every due callback but null once and leaves exactly the later items if and only if no null comes before the last due callback in the order of removal |
| `ClockQueue.NullEndsDrain` | debugger/src/common/async_tqueue.cpp:149-169 | in every queue exactly the due callbacks before the first null, in the order of removal, are delivered, and exactly those behind it stay |
| `ClockQueue.NullExamples` | debugger/src/common/async_tqueue.cpp:149-169 | a null that is removed last does no harm, one that is removed first keeps the other callback from being delivered |
| `Reservation.CpuRiver.MmuAddrReserve` | debugger/src/cpu_fnc_plugin/cpu_riscv_func.h:77-80 | records the address and starts the countdown at 64 |
| `Reservation.CpuRiver.MmuAddrRelease` | debugger/src/cpu_fnc_plugin/cpu_riscv_func.h:81-88 | succeeds and clears exactly when a live reservation is for the address |
| `Reservation.CpuRiver.DecodeInstruction` | debugger/src/cpu_fnc_plugin/cpu_riscv_func.cpp:248-250 | counts down to zero |
| `Reservation.CpuRiver.Exec` | debugger/src/cpu_fnc_plugin/riscv-ext-a.cpp:305-424 | one LR, SC, other instruction or reset, and what SC writes to its destination |
| `Reservation.Countdown` | debugger/src/cpu_fnc_plugin/cpu_riscv_func.cpp:222-250 | before every event of every run the countdown is 65 minus the age of the live reservation, and zero exactly when there is none |
| `Reservation.SuccessIff` | debugger/src/cpu_fnc_plugin/riscv-ext-a.cpp:364-424 | SC writes 0 if and only if the latest reserving LR was for its address at most 63 decodes ago, nothing released it since, and the store is aligned and does not fault |
| `Reservation.SameAddressSuccess` | debugger/src/cpu_fnc_plugin/riscv-ext-a.cpp:305-424 | a live LR at most 63 decodes before an aligned SC of the same address that does not fault: it succeeds if and only if the address translates to itself |
| `Reservation.SpacedPair` | debugger/src/cpu_fnc_plugin/riscv-ext-a.cpp:305-424 | a load, n other instructions and a store from reset on: the store succeeds if and only if the load was aligned and did not fault, its translated address is that of the store, n is at most 62, and the store is aligned and does not fault |
| `Reservation.TranslatedExample` | debugger/src/cpu_fnc_plugin/riscv-ext-a.cpp:305-424 | LR directly followed by SC of a translated address fails |
| `Reservation.OneSuccess` | debugger/src/cpu_fnc_plugin/riscv-ext-a.cpp:305-424 | between two successes there is a reserving LR |

## Left out

- FpuAddSubRounding.AddSubSpecial, FpuMul.MulSpecial and FpuDiv.DivSpecial: any NaN counts as right, although the ISA asks for the canonical one; which payload and sign a NaN gets is only in the refinement.
- FpuAddSub.AddSubCompare: the exception output, which no instruction reads, is only in the refinement.
- FpuConvert.Double2Int: the rounding-mode field, which the original ignores; the reference rounds toward zero.
- The copy of the FPU in socsim_plugin/fpu_func.cpp, single precision, and the remaining instruction sets.
- ICache.ICacheFunctional.BTransport: the bus contents do not change during a run, the burst payload is eight bytes, and addresses do not wrap at 2^64.
- AttributeTree.AttributeToString: floating-point values, interface attributes and Python objects are not values of the model, so neither is their printed form.
- AttributeScanner.StringToAttribute: a number with a fraction and a dictionary that names the service interface end with `Unmodelled`; a text of 1024 bytes or more, a key that is no text, a "Type" entry that is neither text nor nil and digits beyond the end of the text end with `Undefined`, because the original overruns or misreads memory there.
- AttributeTree.AutoBuffer: an append-only text; allocation and growth are not modelled, except that the first allocation bounds the strings that can be read.
- AttributeSort.Sort: lists that mix texts, integers and other values, or whose items are shorter than the index asked for, are excluded because the original reads memory of the wrong type; the error message for a value that is no list is not modelled.
- ArmException.CpuCortex.ExecPush and ArmException.CpuCortex.ExecPop: the mask and the condition of the IT block are given; how the IT instruction sets and advances them is not modelled.
- ArmException.ExceptionRoundTrip: address translation and protection of stack accesses are not modelled, and the stack pointer leaves room for the stacked words.
- ArmFlags.StatusRegister.ArmAdd and ArmFlags.StatusRegister.ArmSub: operand decoding, shifts and the write to the program counter are not modelled.
- AxiWrapper.RtlWrapper.CombProc: reset outputs, interrupt lines and the cycle counter are not modelled, and data only in `ReadLanes` and `WriteAccess`; ready and valid signals and the transfer size of the master are ignored by the original too, so the reference addresses are those of eight-byte transfers.
- SparseMemory.BTransport: accesses of more than eight bytes; the base address is already subtracted.
- ClockQueue.ClockAsyncTQueue.Put: races outside the mutex and the reset that forgets pending items; the capacity is not bounded by the width of an integer.
- Reservation.CpuRiver.Exec: the loaded and stored data; a doubleword load returns only its low 32 bits in the original.
- Plugin loading, the GUI, the debugger commands, the RPC client, SystemC scheduling below one clock, instruction decoding tables and the register-bank peripherals: plumbing or finite tables.

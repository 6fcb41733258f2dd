# Verification of the UTF-8 validators

fastvalidate-utf-8 decides in several unrelated ways whether a byte string is
well-formed UTF-8: SIMD kernels of 16, 32 and 64 lanes, with and without an ASCII
fast path; Hoehrmann's table-driven automaton; and a scalar loop copied in part
from Guava. This project models all of them in Dafny and proves what each one
decides, for every string of every length, against one reference: the legal byte
sequences of Table 3-7 of Unicode 6.0, which is also section 4 of RFC 3629.

Main results:

- Every SIMD validator, at every width and on either path, accepts exactly the
  well-formed strings (`BlockRun.VerdictIsWellFormed`,
  `Simd.ValidateUtf8Fast`, `Simd.ValidateUtf8FastAsciiPath`).
- The lanes of a block, which never parse a character, run an automaton: an error
  is flagged exactly when the automaton rejects, and otherwise the last carry and
  the last byte determine its state (`Kernel.BlockFlags`,
  `Kernel.BlockSimulates`, `BlockRun.DfaStateFromLastLane`). The automaton is that
  of Table 3-7 except that a lead C0 or C1 is noticed one byte late.
- The ASCII fast path leaves a stale `previous` behind and is still invisible
  (`BlockRun.AsciiPathRefines`); that `previous` is what the plain kernel would
  leave had the ASCII blocks not been there (`BlockRun.FastPathSkips`).
- The DFA loops accept exactly the prefixes of well-formed strings, and with the
  trailing NUL that callers pass, exactly the well-formed strings.
- The decoder and the encoding of RFC 3629 are inverse to each other, and on
  ill-formed input, too, the decoder emits scalar values only
  (`Decoder.EmitsScalars`).
- The random generator can draw exactly the well-formed texts whose ASCII bytes are
  spaces (`Generator.DrawnExactly`).
- After any run without an error, the carry of every lane but the first counts the
  bytes that the text up to that lane is missing (`BlockRun.CarryCountsMissing`).
- Where the code is not exact, the project says exactly when, by conditions on
  bytes: the DFA without the trailing NUL (`Agreement.DfaAloneAcceptsTruncation`),
  the two-cursor DFA loops (`TwoCursor.WronglyAccepts`, `TwoCursor.WronglyRejects`,
  `TwoCursor.RightExactly`), the Guava loop (`Guava.WellFormedIffLaxWithoutAscii`,
  `Guava.LaxIffRaisedWellFormed`), and lane 0 of the carries
  (`BlockRun.LaneZeroCountsMissing`). For the first two the condition is that one
  of the last three bytes announces a character that ends beyond them
  (`Automaton.Cut`).

Where comments and code of the repository disagree, the model follows the code:

- include/simdutf8check.h:89 says that any byte after C0 or C1 is flagged as
  overlong, but the signed comparison with 127 lets 7F pass; the pair is caught by
  the continuation check instead.
- benchmarks/benchmark.c:188-190 describes a test on signed bytes, but the bytes
  are unsigned there, and trailing bytes are tested against BF only.

## Files

| file | content |
|---|---|
| `Utf8.dfy` | Table 3-7, well-formed and viable strings, the encoding of RFC 3629 |
| `Automaton.dfy` | the nine-state automaton by byte ranges, and its language |
| `Bits.dfy` | bitwise and, or, masks and powers of two |
| `HoehrmannTables.dfy` | the tables of benchmarks/hoehrmann.h are the automaton |
| `Hoehrmann.dfy` | single steps, decoding steps, the four validating loops |
| `Decoder.dfy` | decoding whole strings, round trips |
| `TwoCursor.dfy` | the experimental two-cursor loops |
| `PrefixSum.dfy` | the arithmetic of the carries |
| `LazyAutomaton.dfy` | the automaton the lanes run, the four local checks |
| `Kernel.dfy` | one block, lane by lane, simulates that automaton |
| `BlockRun.dfy` | whole runs, both paths, tail and end test, the verdict |
| `Lanes.dfy`, `LaneShifts.dfy` | the vector instructions of the three instruction sets |
| `Simd.dfy` | the validators as written, over those instructions |
| `Agreement.dfy` | widths, placement and machines agree |
| `Guava.dfy` | the scalar loop and its 32-bit plane test |
| `Generator.dfy` | the random text generator |

The specification of a block (`Kernel`, `BlockRun`) is on plain integers and holds
for any width of five lanes or more. `Simd` is the code: a class whose fields are
`has_error` and `previous`, updated in place by saturating, wrapping, signed,
shuffling and permuting 8-bit instructions, for the instruction set given as a
value of type `Isa`. The copies of the code for AVX2 and AVX-512 differ from the
SSE one only in those instructions, so one class stands for the three.

## Model

| member | source | states |
|---|---|---|
| `Utf8.PrependLegal` | include/simdutf8check.h:9-24 | a row of the table in front of a string does not change whether it is well-formed |
| `Utf8.EncodeLegal` | include/simdutf8check.h:9-24 | the encoding of every Unicode scalar value is a row of the table |
| `Utf8.EncodeAllWellFormed` | include/simdutf8check.h:9-24 | the encoding of any sequence of scalar values is well-formed |
| `Automaton.AcceptsWellFormed` | benchmarks/hoehrmann.h:85-89 | a run from state 0 ends in state 0 if and only if the string is well-formed |
| `Automaton.NotRejectedIffViable` | benchmarks/hoehrmann.h:126-135 | a run is not rejected if and only if the string is a prefix of some well-formed string |
| `Automaton.MissingIsShortest` | benchmarks/hoehrmann.h:126-135 | a prefix of a well-formed string is completed by as many bytes as its state owes, and by no fewer |
| `Automaton.WellFormedUnlessCut` | benchmarks/hoehrmann.h:126-135 | a prefix of a well-formed string is itself well-formed if and only if none of its last three bytes announces more bytes than follow |
| `Automaton.AsciiTail` | benchmarks/hoehrmann.h:126-135 | followed by non-empty ASCII, such as a NUL, not rejected, accepted and well-formed are the same |
| `Automaton.AsciiSurroundings` | tests/unit.c:81-92 | ASCII text on either side leaves well-formedness alone |
| `Bits.TopBit` | include/simdutf8check.h:358-359 | for every k, masking a number below 2^(k+1) with bit k tests it against 2^k |
| `Bits.LowMask` | benchmarks/hoehrmann.h:70-71 | for every k, masking with the k low bits takes the remainder by 2^k |
| `Bits.OrDisjoint` | benchmarks/hoehrmann.h:70 | for every k, the bitwise or of a number below 2^k and a multiple of 2^k is their sum |
| `HoehrmannTables.ClassTable` | benchmarks/hoehrmann.h:12-38 | the 256-entry table gives every byte its class by range |
| `HoehrmannTables.TransitionTables` | benchmarks/hoehrmann.h:39-67 | both transition tables make the step of the automaton, one on sixteen times the state |
| `HoehrmannTables.ReadTransition` | benchmarks/hoehrmann.h:72 | the index stays below 144 and the entry is the next state |
| `HoehrmannTables.ReadShiftedTransition` | benchmarks/hoehrmann.h:81 | the index stays below 144 and the entry is sixteen times the next state |
| `Hoehrmann.MaskLead` | benchmarks/hoehrmann.h:71 | 0xff shifted right by the class and masked with a byte is the remainder by a power of two, which leaves the payload of a lead byte, for every class |
| `Hoehrmann.MaskTrail` | benchmarks/hoehrmann.h:70 | the mask 0x3f leaves the six low bits |
| `Hoehrmann.AppendBits` | benchmarks/hoehrmann.h:70 | the bitwise or of six bits and the 32-bit code point shifted left is sixty-four times the code point modulo 2^26, plus those bits |
| `Hoehrmann.Dfa.UpdateState` | benchmarks/hoehrmann.h:85-89 | state and result become the automaton's next state; the code point is untouched |
| `Hoehrmann.Dfa.Decode` | benchmarks/hoehrmann.h:68-74 | the state makes the automaton's step, and the code point, computed by the masks, the shifts and the or of the source, takes six more bits or a lead payload, modulo 2^32 |
| `Hoehrmann.ShiftlessDfa.UpdateState` | benchmarks/hoehrmann.h:91-95 | the state stays sixteen times the automaton's state |
| `Hoehrmann.ShiftlessDfa.Decode` | benchmarks/hoehrmann.h:76-83 | as decode, with equal code points after every byte |
| `Hoehrmann.ValidateBranchless` | benchmarks/hoehrmann.h:105-113 | true if and only if the input is a prefix of a well-formed string |
| `Hoehrmann.ValidateBranchlessShiftless` | benchmarks/hoehrmann.h:115-124 | the same verdict |
| `Hoehrmann.Validate` | benchmarks/hoehrmann.h:126-135 | the same verdict, with the early exit |
| `Hoehrmann.ValidateShiftless` | benchmarks/hoehrmann.h:137-146 | the same verdict, with the early exit |
| `Decoder.DecodesLegal` | benchmarks/hoehrmann.h:68-74 | over one character the state is neither ACCEPT nor REJECT before the last byte, and then ACCEPT with the character's value |
| `Decoder.DecodesEncoding` | benchmarks/hoehrmann.h:68-74 | decoding the encoding of any scalar value emits that value at the last byte and not before |
| `Decoder.DecodesEncodings` | benchmarks/hoehrmann.h:68-74 | decoding the encoding of a sequence of scalar values gives the sequence back |
| `Decoder.ReencodesInput` | benchmarks/hoehrmann.h:68-74 | between two ACCEPT states the emitted code points are all scalar values and re-encode to the input |
| `Decoder.EmitsScalars` | benchmarks/hoehrmann.h:68-74 | on every input, ill-formed and truncated ones included, all emitted code points are scalar values and re-encode to the longest well-formed prefix of the input, which is all of it when the run ends in ACCEPT |
| `Decoder.WellFormedIffEncoding` | include/simdutf8check.h:9-24 | a string is well-formed if and only if it is the encoding of some sequence of scalar values |
| `Decoder.StartByte` | benchmarks/hoehrmann.h:70-71 | the code point after any byte read in ACCEPT, the bytes that start no character included |
| `Decoder.GathersOutsideAccept` | benchmarks/hoehrmann.h:70 | over any bytes read outside ACCEPT, after an error too, the code point gathers their six low bits, modulo 2^32 |
| `Decoder.SixBytesForget` | benchmarks/hoehrmann.h:70 | after six such bytes it depends on nothing read before them |
| `TwoCursor.ScanBack` | benchmarks/hoehrmann.h:151-157 | the backward scan stops at the split point: it steps over bytes of 0x81..0xBF only, and stops at index 0 or on a byte that is none of them, such as 0x80 |
| `TwoCursor.SplitPointUnique` | benchmarks/hoehrmann.h:154-157 | what the scan steps over and where it may stop determine the split point |
| `TwoCursor.ValidateDouble` | benchmarks/hoehrmann.h:150-167 | true if and only if both parts on either side of the split point are viable by themselves; the empty input included |
| `TwoCursor.ValidateDoubleShiftless` | benchmarks/hoehrmann.h:171-189 | the same verdict |
| `TwoCursor.SoundBetweenCharacters` | benchmarks/hoehrmann.h:150-167 | if the first part is well-formed, the verdict is that of the one-cursor loop |
| `TwoCursor.ViableSplit` | benchmarks/hoehrmann.h:154-157 | on a viable string the first part is well-formed, and the verdict right, if and only if the second part does not begin with a continuation byte |
| `TwoCursor.WronglyAccepts` | benchmarks/hoehrmann.h:166 | an accepted string is good if and only if none of the last three bytes of the first part announces more bytes than follow there; also: a bad string is accepted if and only if the first part stops inside a character and the second part is viable |
| `TwoCursor.WronglyRejects` | benchmarks/hoehrmann.h:154-157 | a viable string is rejected if and only if the scan stops on a 0x80 after the first byte |
| `TwoCursor.RightUnlessCut` | benchmarks/hoehrmann.h:150-167 | where no character is cut at the split, for any split, the verdict is that of the one-cursor loop |
| `TwoCursor.RightExactly` | benchmarks/hoehrmann.h:150-167 | the verdict is right if and only if no character is cut at the split point, or a 0x80 follows it and the string is bad, or another byte follows it and the answer is no |
| `TwoCursor.BothFail` | benchmarks/hoehrmann.h:150-167 | concrete inputs for both failures: C3 41 and C2 80 |
| `PrefixSum.CarryBounds` | include/simdutf8check.h:44-55 | on any input, with incoming carries of at most 12, no sum exceeds 15, no carry 25, and from lane 3 on no carry exceeds 12 |
| `PrefixSum.CarryReach` | include/simdutf8check.h:44-55 | for any lengths, matched or not, the two steps compute from lane 3 on how far the characters announced in four lanes reach, plus exactly what the second pair of lanes covers twice |
| `PrefixSum.CarryReachesIn` | include/simdutf8check.h:44-55 | the same for the first three lanes and the two carries of the block before |
| `PrefixSum.CarryExact` | include/simdutf8check.h:44-65 | for any lengths: while no lane mismatches, the carry exceeds the length exactly by the bytes still owed; in lane 0 it overcounts by what the last lane but one owes |
| `PrefixSum.LaneZeroOvercounts` | include/simdutf8check.h:52-54 | a concrete block where lane 0 carries 4 and two bytes are owed |
| `PrefixSum.CarryIsOwed` | include/simdutf8check.h:44-55 | for any lengths: from lane 1 on a carry is the number of bytes owed, counting its own; `Kernel.CarryCounts` says so of the text |
| `PrefixSum.CarriesHandedOn` | include/simdutf8check.h:134-156 | the last two carries of a clean block are exact and fit what the next block relies on |
| `PrefixSum.CarrySmall` | include/simdutf8check.h:180-184 | no carry of a clean block exceeds 4, so the limit 9 of the end test never fires for a clean run |
| `LazyAutomaton.LazyIsEager` | include/simdutf8check.h:93-117 | the automaton of the lanes differs from that of Table 3-7 only after a well-formed string and a single C0 or C1 |
| `LazyAutomaton.LazyStates` | include/simdutf8check.h:93-117 | its states 0 and PENDING say that the string is well-formed, and that it ends in such a C0 or C1 |
| `LazyAutomaton.LazyMissingIsShortest` | include/simdutf8check.h:44-55 | the bytes owed in a state of it are, on every prefix of a well-formed string, the fewest that complete it |
| `LazyAutomaton.LaneDecides` | include/simdutf8check.h:26-117 | the four local checks on two neighbouring bytes and the sign of the excess carry flag exactly what the automaton rejects, for every lead and second byte |
| `LazyAutomaton.AboveMaxIsIllegal` | include/simdutf8check.h:73-85 | the maximum check flags, after ED and F4, exactly the second bytes that no row of the table has |
| `LazyAutomaton.BelowMinIsOverlong` | include/simdutf8check.h:93-117 | the minimum check flags a continuation byte if and only if the pair's least value fits a shorter encoding, and another byte only after C0 and C1, 7F excepted |
| `LazyAutomaton.TooLargeStartsNothing` | include/simdutf8check.h:27-32 | the size check flags exactly the bytes that announce four bytes and start no row |
| `Kernel.Carries` | include/simdutf8check.h:44-55 | on any bytes, bounded carries coming in give carries of at most 25, the last two at most 12 |
| `Kernel.LanesSimulate` | include/simdutf8check.h:134-156 | by induction over lanes: no lane is flagged if and only if the automaton does not reject |
| `Kernel.CarryCounts` | include/simdutf8check.h:44-65 | while no lane is flagged, the carry of a lane from 1 on is one more than what the text up to its byte is missing |
| `Kernel.LaneZeroCounts` | include/simdutf8check.h:52-54 | the carry of lane 0 exceeds the announced length by what the text before is missing and by what the last lane but one owed |
| `Kernel.BlockFlags` | include/simdutf8check.h:134-156 | a block adds no error if and only if the automaton does not reject its bytes |
| `Kernel.BlockSimulates` | include/simdutf8check.h:134-156 | a clean block leaves a `previous` that describes the automaton's new state |
| `Kernel.UnfinishedIffOwed` | include/simdutf8check.h:179-185 | the end test fires if and only if the automaton is inside a character |
| `BlockRun.FastBlockTracks` | include/simdutf8check.h:358-367 | an all-ASCII block passes exactly between characters, and the unchanged `previous` still describes the state |
| `BlockRun.RunTracks` | include/simdutf8check.h:390-403 | after any number of blocks on either path, has_error is zero if and only if the automaton has not rejected, and then `previous` describes its state |
| `BlockRun.RunBlocks` | include/simdutf8check.h:158-170 | after any number of blocks of any input, garbage included, the carries are still bounded and the nibbles are those of the bytes |
| `BlockRun.CleanIffViable` | include/simdutf8check.h:158-170 | has_error is zero after whole blocks if and only if they are a prefix of a well-formed string, or a well-formed string and one C0 or C1 |
| `BlockRun.CarryCountsMissing` | include/simdutf8check.h:44-65 | after any blocks on either path that left has_error zero, the carry of a lane from 1 on, if no lane up to it is flagged, is one more than what all bytes read up to it are missing |
| `BlockRun.LaneZeroCountsMissing` | include/simdutf8check.h:52-54 | after such blocks the carry of lane 0, flagged or not, is the announced length, plus what they are missing, plus the overcount |
| `BlockRun.AsciiPathRefines` | include/simdutf8check.h:354-388 | after every block has_error is zero on the fast path if and only if it is zero on the plain one |
| `BlockRun.FastPathSkips` | include/simdutf8check.h:354-388 | after any blocks `previous` of the fast path is what the plain kernel would leave if the ASCII blocks were not there |
| `BlockRun.AsciiBlocksKeepPrevious` | include/simdutf8check.h:358-367 | any number of ASCII blocks leaves `previous` as it was |
| `BlockRun.PlainPrevious` | include/simdutf8check.h:134-156 | after any blocks, garbage included, the plain kernel keeps the last one with its nibbles, and from lane 3 on the carries are the reach of the lengths announced in it |
| `BlockRun.DfaStateFromLastLane` | include/simdutf8check.h:119-156 | while has_error is zero the DFA state of all bytes read is a function of the last carry and the last byte |
| `BlockRun.VerdictIsWellFormed` | include/simdutf8check.h:158-188 | block loop, zero-padded tail and exact-multiple test together accept exactly the well-formed strings, at any width of at least five lanes and on either path |
| `Lanes.HighNibble` | include/simdutf8check.h:125-130 | a 16-bit shift by four and a mask give the high nibble of either byte |
| `Lanes.TablesRepeat` | include/simdutf8check_avx512.h:57-62 | the packed 32-bit words of the 64-lane tables spell the rows of the 16-lane tables |
| `Lanes.LookUp` | include/simdutf8check.h:209-223 | a shuffle that looks up inside its own 16 lanes looks up in one row of 16 everywhere |
| `Lanes.EndLimits` | include/simdutf8check_avx512.h:248-253 | the limits are 1 in the last lane and 9 in the others in all three spellings |
| `LaneShifts.HalvesShift` | include/simdutf8check.h:193-199 | permuting halves and aligning inside each half is the shift across all 32 lanes |
| `LaneShifts.Index1` | include/simdutf8check_avx512.h:33-39 | the index table of eight 64-bit words counts k - 1, and 0x7F in lane 0 |
| `LaneShifts.Index2` | include/simdutf8check_avx512.h:41-47 | the same for the shift by two |
| `LaneShifts.PushLastByte` | include/simdutf8check.h:193-195 | on all three instruction sets the block moves up one lane and the last byte of the block before comes in |
| `LaneShifts.PushLast2Bytes` | include/simdutf8check.h:197-199 | the same by two lanes |
| `Simd.Checker.constructor` | include/simdutf8check.h:160-164 | no error, and a `previous` of zeros in every lane of every part |
| `Simd.Checker.CheckSmallerThan0xF4` | include/simdutf8check.h:27-32 | a lane stays zero if and only if it was and its byte is at most F4 |
| `Simd.Checker.ContinuationLengths` | include/simdutf8check.h:34-42 | the lookup gives every lane the length its byte announces |
| `Simd.Checker.CarryContinuations` | include/simdutf8check.h:44-55 | for any lengths and bounded incoming carries the 8-bit lanes hold the integer prefix sum: nothing wraps |
| `Simd.Checker.CheckContinuations` | include/simdutf8check.h:57-68 | a lane stays zero if and only if it was and the carry exceeds the length exactly at continuation bytes |
| `Simd.Checker.CheckFirstContinuationMax` | include/simdutf8check.h:73-85 | a lane stays zero if and only if it was and the byte is not out of 80..9F after ED or of 80..8F after F4 |
| `Simd.Checker.CheckOverlong` | include/simdutf8check.h:93-117 | a lane stays zero if and only if it was and the pair is not overlong; after C0 and C1 the byte 7F slips through |
| `Simd.Checker.CountNibbles` | include/simdutf8check.h:125-130 | the nibbles are the bytes divided by 16 |
| `Simd.Checker.CheckUtf8Bytes` | include/simdutf8check.h:134-156 | state and has_error become those of one plain block of the specification; a lane of has_error stays zero if and only if it was and that lane has no error; the raw bytes kept are the block |
| `Simd.Checker.RaiseUnfinished` | include/simdutf8check.h:180-184 | has_error stays zero if and only if it was and no carry is over its limit, and so does each lane: 1 in the last, 9 in the others |
| `Simd.Checker.HasOnlyAscii` | include/simdutf8check.h:358-359 | the mask test holds if and only if all bytes are ASCII |
| `Simd.Checker.CheckUtf8BytesAsciiPath` | include/simdutf8check.h:354-388 | state and has_error become those of one block of the fast path; an ASCII block leaves `previous` untouched, any other replaces it |
| `Simd.Checker.HasNoError` | include/simdutf8check.h:187 | true if and only if every lane of has_error is zero |
| `Simd.Checker.FinishInput` | include/simdutf8check.h:172-187 | the tail in a zeroed buffer, or the end test when nothing is left |
| `Simd.ValidateUtf8Fast` | include/simdutf8check.h:158-188 | true if and only if the input is well-formed, on all three instruction sets, reading only inside the input |
| `Simd.ValidateUtf8FastAsciiPath` | include/simdutf8check.h:390-422 | the same with the fast path |
| `Agreement.WidthIndependence` | include/simdutf8check_avx512.h:222-293 | any two widths and paths give the same verdict on every input |
| `Agreement.PlacementInvariance` | tests/unit.c:81-92 | ASCII before and after a string never changes a verdict |
| `Agreement.DfaWithNulAgrees` | tests/unit.c:51 | with the trailing NUL the DFA accepts exactly the well-formed strings, as every SIMD validator does |
| `Agreement.DfaAloneAcceptsTruncation` | benchmarks/hoehrmann.h:126-135 | without it, a string the DFA accepts is accepted by the SIMD validators if and only if none of its last three bytes announces more bytes than follow; the strings where they differ are those that a continuation byte and more would make well-formed |
| `Guava.PlaneTest` | benchmarks/benchmark.c:187-191 | for leads F0..FF and any second byte the wrapping 32-bit expression is zero exactly for F0 with 90 and above, F1..F3, and F4 with at most 8F |
| `Guava.ValidateUtf8` | benchmarks/benchmark.c:145-200 | true if and only if the input is well-formed once 80 stands for every ASCII byte inside a character; that is Table 3-7 without the lower bound of unrestricted trailing bytes; no byte outside the input is read |
| `Guava.LaxIfRaisedLegal` | benchmarks/benchmark.c:161-195 | for one character: its branch passes if and only if it is a row of the table once 80 stands for ASCII in trailing places |
| `Guava.LaxIffRaisedWellFormed` | benchmarks/benchmark.c:145-200 | for every string: the loop's form holds if and only if the string with 80 for every ASCII byte inside an announced length is well-formed |
| `Guava.WellFormedIffLaxWithoutAscii` | benchmarks/benchmark.c:145-200 | well-formed means accepted by the loop and without ASCII inside the announced length of a character; so every well-formed string is accepted |
| `Guava.AcceptsAsciiInside` | benchmarks/benchmark.c:161 | C2 41 is accepted and not well-formed |
| `Generator.TurnLegal` | benchmarks/benchmark.c:95-139 | a turn of the loop writes one legal character of at most four bytes, or nothing for a first draw above F4 |
| `Generator.SingleDraw` | benchmarks/benchmark.c:96-98 | a first draw below 80 writes a space and one above F4 writes nothing, and the rest of the draws is used as if from the start |
| `Generator.SeveralDraws` | benchmarks/benchmark.c:99-139 | every other turn uses one more draw for each trailing byte, and one where the lead is drawn anew, and no more |
| `Generator.GeneratesWellFormed` | benchmarks/benchmark.c:93-142 | for all draws the text is well-formed after the last turn made, shorter than N before the loop ends, and has between N and N + 3 bytes when it does |
| `Generator.GeneratesOnlySpaces` | benchmarks/benchmark.c:98 | every ASCII byte of the text is a space |
| `Generator.DrawnExactly` | benchmarks/benchmark.c:93-142 | the texts that some N and some draws finish are exactly the well-formed ones whose ASCII is spaces: every legal character of two to four bytes can be drawn |
| `Generator.GeneratedTextAccepted` | benchmarks/benchmark.c:93-142 | that text is accepted by every SIMD validator, by the DFA with its NUL and by the Guava loop |
| `Generator.WriteTurn` | benchmarks/benchmark.c:95-139 | the branches append exactly the character that the draws and the table rows give, and write nothing else |
| `Generator.PopulateUtf8` | benchmarks/benchmark.c:93-142 | a buffer with room for what is written holds the text, well-formed and with spaces for ASCII, then a NUL, and no byte after it is written |

## Left out

- Simd.ValidateUtf8Fast: the input is an array read from its first to its last element; pointer, length, alignment of loads and `size_t` limits are not modelled.
- Simd.ValidateUtf8FastAsciiPath: the source has no fast path for SSE; the model allows it for any instruction set. A block that is not ASCII goes through the same method as on the plain path, where the source repeats the body.
- Simd.Checker.CheckUtf8Bytes: replaces `previous` itself, where the source returns a struct that its caller assigns.
- TwoCursor.ValidateDouble: inputs longer than INT_MAX are excluded, where the source's `int` index overflows; and since the source reads the byte at index 0 even of an empty input, the array must have one.
- Generator.PopulateUtf8: the calls to `rand` are a finite sequence of draws; when too few are left for another turn the model stops and returns `finished` false. Termination on an endless stream is not claimed. The branch for `w < 0xF0` after `w <= 0xEF` is unreachable and absent.
- TwoCursor.ValidateDoubleShiftless: the same two demands.
- Vector instructions: each is a function on lanes, taken on trust; the bit mask of AVX-512 is a vector of lanes that hold 0 or 1. CPU feature detection and performance are not modelled.
- The ASCII checkers (include/simdasciicheck.h, include/simdasciicheck_avx512.h, `is_ascii`, `validate_ascii_nosimd`, `validate_ascii_nointrin`): folds of high bits that would add only easy members.
- The benchmark driver, its timing macros and the unit tests as programs.

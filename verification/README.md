# A verified model of Kache RISC-V

Kache RISC-V is a five-stage RV32 processor with a floating-point unit, a serial port and firmware.
This project models its hardest parts clock by clock, or loop by loop, and proves what they are for.
`dafny verify dfyconfig.toml` checks everything.

**The pipeline and the machine it refines.** `Isa` is the instruction set, one instruction at a time, for
every datapath. `Pipeline` is one clock of all latches: forwarding, load-use and store-load stalls, the
multi-cycle divider, predicted fetch, squashing, the return-address registers. Its main theorem holds for every
program of the subset, any predictions and any number of clocks. `PipelineProgress` bounds how long nothing
retires. `Core` is the processor as a class whose stages update their registers, branch history table, register
bank and memory in place; it is proved to take the step of `Pipeline`. `SequentialCore` is the archived 4-state
core, and `CoresAgree` shows that the two run the same RV32I program to the same history. `Words` relates 32-bit
words to numbers; `Alu`, `Multiplier`, `IntegerDivider` and `ByteMemory` are the datapath, each against the
instruction set's operation over numbers, bits or bytes, and `Rv32` puts them together. `Rv32Isa` is RV32IM as a
relation between machine states that uses none of these circuits; it is shown to leave no choice, and both cores
to run it. `BranchHistory` is the two-bit counter table and its index, `ReturnStack` the return-address predictor
as a stack, `ReturnPrediction` what it does in pipeline runs.

**The floating-point unit.** `Rounding` says what correct rounding of a real number is (IEEE 754-2008,
section 4.3), without an algorithm, and `FloatResult` what a correct register is, overflow included (section
7.4). `FRound`, `FMul`, `FAdd`, `FDiv`, `FSqrt`, `FCvt`, `FToInt`, `FCmp` and `FloatFormat` (decoding and leading
zeros) model the units over integers and powers of two; `FSubnormal` is about results below the normal range,
`IntegerRounding` the rounding of real numbers to integers. All except the conversions, whose formats are fixed,
are parametric in the format: any exponent width and a fraction of 2 to 62 bits, which the 64-bit leading-zero
counter bounds; `FSqrt` for those its exponent halving suits. `FRound` and the counter itself have no upper bound.

**The serial port.** `UartTransmitter` and `UartReceiver` are the two state machines, `UartLine` the waveform
between them, `UartLink` the round trip under a mismatch of the two bit times, `UartTightness` the proof that
no larger mismatch would do.

**Bellard's digits of pi.** `PiArithmetic` (inverse, power, prime search), `PiPrimeSum` (the inner loop),
`PiDigits` (the whole program) over the number theory in `NumberTheory` and `PiTerms`.

Where the code and what it is meant to do differ, the model follows the code, and the exact condition is a
theorem:

- A left shift with the alternate bit, a reserved encoding, fills with ones (`Alu.PipelineAluCorrect`).
- MULHSU extends the sign of rs2 instead of rs1 (`Multiplier.MultiplyCorrect`).
- The adder keeps no sticky bit (`FAdd.AddCorrect` names every pair of operands this spoils); adder,
  multiplier and narrowing conversion answer infinity to every overflow.
- Multiplier and narrowing conversion shift a subnormal result before they round it, and cut a carry into the
  normal range off (`FSubnormal.SubnormalProductExactlyWhen`, `FSubnormal.SubnormalNarrowExactlyWhen`).
- The square root rounds to nearest on remainder bits instead of the next root digit
  (`FSqrt.NearestSqrtExactlyWhen`).
- Comparison takes a zero for half the smallest normal number (`FCmp.CompareOrders`).
- Narrowing turns a NaN into an infinity, and widening turns an infinity into 2^1023
  (`FCvt.SingleRoundTrip`, `FCvt.InfinityWidensToFinite`).
- Conversion of a double to an integer looks for round bit and sticky bit together in the directed modes, lets a
  rounding carry past the greatest integer, and has the answers to a NaN and to positive infinity of the signed
  and the unsigned format exchanged (`FToInt.ConvertedExactlyWhen`).
- The prime test takes 1 for prime and 2 for composite (`PiArithmetic.IsPrime`, `PiArithmetic.NextPrime`).
- Breakpoints: HALT holds fetch and decode but not the stages behind them, so the pipeline retires the same
  EBREAK on every later clock. `Isa` makes EBREAK a step to itself, which is also what the sequential core does.

## Model

| member | source | states |
|---|---|---|
| Pipeline.PipelineRefinesIsa | src/Processor/Pipeline/ExecuteUnit.v:103-358 | after any number of clocks, under any predictions, what has retired is exactly a prefix of the one-instruction-at-a-time run, value by value; registers and memory are those of that run |
| Pipeline.StepKeepsInv | src/Processor/ControlUnit.v:24-32 | every clock keeps the whole-pipeline invariant and advances it by what retires |
| Pipeline.StepKeepsFlow | src/Processor/Pipeline/DecodeUnit.v:304-400 | one clock moves every instruction on or holds it without changing the point of the sequential run it stands for |
| Pipeline.LatchKeepsFlow | src/Processor/Pipeline/ExecuteUnit.v:312-358 | latching all stages at once keeps that correspondence, stalls and flushes included |
| Pipeline.OperandsArchitectural | src/Processor/Pipeline/ExecuteUnit.v:103-125 | both levels of forwarding deliver the architectural value of any register that is not a load still in flight |
| Pipeline.HazardsHeld | src/Processor/Pipeline/DecodeUnit.v:318-323 | no instruction enters execute next to a load it depends on, and no load behind a store |
| Pipeline.LoadSeesMemory | src/Processor/Pipeline/MemoryUnit.v:127-150 | a load in execute reads a memory with every earlier store in it |
| Pipeline.BranchResolved | src/Processor/Pipeline/ExecuteUnit.v:287-310 | a correction is the true successor, and without one the predicted address was |
| Pipeline.FetchKept | src/Processor/Pipeline/FetchUnit.v:31-56 | through stalls, predictions and corrections, what is fetched is the successor of what executes or was so predicted |
| Pipeline.DecodeToExecute | src/Processor/Pipeline/DecodeUnit.v:327-400 | what enters execute is the next instruction of the sequential run or a bubble |
| Pipeline.ExecuteToMemory | src/Processor/Pipeline/ExecuteUnit.v:320-357 | the memory latch receives the address, operand and result the instruction set asks for |
| Pipeline.DividerKept | src/Processor/Pipeline/ExecuteUnit.v:200-222 | under all stalls and flushes the divider is idle or part-way through the division in execute, on the right operands |
| Pipeline.QuotientReady | src/Processor/Pipeline/ExecuteUnit.v:224-232 | when it reports that it has finished, the word the divider shows is, as a number, the quotient or remainder funct3 asks for of the architectural operands, and the instruction set's result |
| PipelineProgress.AlwaysRetires | src/Processor/ControlUnit.v:24-32 | from every state a run reaches another instruction has retired after 38 clocks |
| PipelineProgress.HazardLastsOneClock | src/Processor/Pipeline/DecodeUnit.v:318-325 | a load-use or store-load stall lasts exactly one clock and the instruction held back then moves on |
| PipelineProgress.DivideLasts33Clocks | src/Processor/Pipeline/ExecuteUnit.v:200-222 | a division stalls the pipeline for exactly 33 clocks |
| Core.Processor.constructor | src/Processor/Pipeline/FetchUnit.v:50-54 | a drained processor at the given pc, registers zero |
| Core.Processor.Clock | src/Processor/Pipeline/ExecuteUnit.v:320-358 | one rising edge of all stages updated in place is one clock of the pipeline model with the bit the table held before it; the table and the history record the branch that left execute under the index it was predicted with |
| Core.Processor.UpdateHistory | src/Processor/Pipeline/DecodeUnit.v:207-220 | a branch leaving execute is recorded in the history and in its counter; nothing else changes |
| Core.Processor.WriteBackStage | src/Processor/RegisterFile.v:22-60 | the bank changes in the one register written back, never in x0 |
| Core.Processor.MemoryStage | src/Processor/Pipeline/MemoryUnit.v:127-170 | memory changes by the store in the stage unless it is to a device, and the write-back latch gets the extracted load |
| Core.Processor.DecodeStage | src/Processor/Pipeline/DecodeUnit.v:235-249 | the decode latch and the return-address registers after one clock |
| Core.Processor.FetchStage | src/Processor/Pipeline/FetchUnit.v:41-56 | pc and the fetch latch after one clock |
| Core.Processor.Run | src/Processor/Pipeline/DecodeUnit.v:203-225 | n clocks of the class are n clocks of the model for the predictions its own tables made, so every theorem about runs applies to it, and the tables have recorded the branches resolved |
| Core.Processor.PredictionSettled | src/Processor/Pipeline/DecodeUnit.v:203-225 | two recorded outcomes alike under the index of the fetched branch settle the next prediction, and after three alike one other does not change it |
| BranchHistory.SettledPrediction | src/Processor/Pipeline/DecodeUnit.v:207-225 | that, of the table alone, whatever it held before and whatever was recorded under other indices |
| BranchHistory.LastNine | src/Processor/Pipeline/DecodeUnit.v:205-209 | the history is the last nine outcomes, the newest in its top bit |
| BranchHistory.IndexBits | src/Processor/Pipeline/DecodeUnit.v:223 | bit k of the index is bit k + 1 of the address, changed by bit k - 3 of the history |
| BranchHistory.Saturate | src/Processor/Pipeline/DecodeUnit.v:210-218 | the counter moves towards the outcome and stops at its ends |
| ReturnPrediction.StackFollowsRun | src/Processor/Pipeline/DecodeUnit.v:227-249 | in every run, under any stalls, squashes and predictions, the four registers hold what the calls and returns of the instructions retired and in write-back, memory and execute leave in them, and of no other |
| ReturnPrediction.ReturnMispredictedExactlyWhen | src/Processor/Pipeline/ExecuteUnit.v:300-304 | in a run, a return to its call's link address, after a body with no returns but from its own calls, which link other addresses, is mispredicted unless these have all returned with at most three ever live at once, and then it is not |
| ReturnPrediction.ShallowReturnNeverMispredicted | src/Processor/Pipeline/ExecuteUnit.v:300-304 | with at most three live calls inside, whatever they link, it never is |
| ReturnPrediction.JumpMispredicted | src/Processor/Pipeline/DecodeUnit.v:309-310 | any JALR of a run is mispredicted exactly when its target is not on top of the registers at its place in the sequential run |
| ReturnPrediction.DecodeApplies | src/Processor/Pipeline/DecodeUnit.v:236-247 | each clock the registers undergo the call or return decoded, if it is not stalled or squashed |
| ReturnStack.AgreesWithIdeal | src/Processor/Pipeline/DecodeUnit.v:227-249 | after any calls and returns the four registers agree with an unbounded stack on every valid entry |
| ReturnStack.PredictedExactlyWhen | src/Processor/Pipeline/DecodeUnit.v:235-249 | after a body with no returns but from its own calls, which link other addresses, a call's address is on top exactly when these have all returned with at most three ever live at once |
| ReturnStack.ShallowReturnPredicted | src/Processor/Pipeline/DecodeUnit.v:235-249 | at most three live calls suffice whatever they link |
| ReturnStack.FourDeepForgets | src/Processor/Pipeline/DecodeUnit.v:235-249 | an example: four nested calls inside, the first linking another address, leave that one on top |
| IntegerDivider.DivideCorrect | src/Processor/Pipeline/ExecuteUnit.v:188-232 | for any word width and all operands, w + 1 clocks end with the required quotient or remainder, division by zero and overflow included, whatever the inputs do meanwhile |
| IntegerDivider.DigitStep | src/Processor/Pipeline/ExecuteUnit.v:212-221 | each clock keeps dividend = quotient * divisor + remainder with one more digit known |
| IntegerDivider.RequiredUnique | src/Processor/Pipeline/ExecuteUnit.v:224-232 | the specification leaves one result |
| IntegerDivider.Engine.Tick | src/Processor/Pipeline/ExecuteUnit.v:200-222 | one rising edge of the divider registers in place |
| IntegerDivider.Engine.Divide | src/Processor/Pipeline/ExecuteUnit.v:200-232 | a whole division from rest leaves the required word |
| Multiplier.MultiplyCorrect | src/Processor/Pipeline/ExecuteUnit.v:177-186 | MUL is the word congruent to the product modulo 2^32, MULH and MULHU the word h with h * 2^32 <= product < (h + 1) * 2^32 modulo 2^64, on all operands; MULHSU exactly when the two sign corrections coincide |
| Multiplier.ProductUnique | src/Processor/Pipeline/ExecuteUnit.v:225-227 | those requirements leave one word |
| Multiplier.MulhsuDiffers | src/Processor/Pipeline/ExecuteUnit.v:181-182 | a concrete pair on which MULHSU is wrong |
| Alu.PipelineAluCorrect | src/Processor/Pipeline/ExecuteUnit.v:135-175 | the one-hot result with flipped shifts and borrow-based comparisons is, as a number, the sum or difference modulo 2^32, the product or the signed or unsigned quotient by 2^(b mod 32), the truth of the comparison, or bit by bit the logical operation; except exactly for a nonzero left shift of a negative operand with the alternate bit |
| Alu.SequentialAluCorrect | archive/Seq/Processor.v:93-131 | so is the sequential core's, with no exception |
| Alu.SameAluExactlyWhen | archive/Seq/Processor.v:93-131 | the two ALUs differ on those shifts and nowhere else |
| Alu.ResultUnique | src/Processor/Pipeline/ExecuteUnit.v:166-175 | the requirement leaves one word |
| Alu.ComparisonsMean | src/Processor/Pipeline/ExecuteUnit.v:138-148 | the 33-bit difference decides equality, signed and unsigned order |
| Alu.FlipShift | src/Processor/Pipeline/ExecuteUnit.v:150-165 | flipping, shifting right and flipping back is a left shift |
| ByteMemory.StoreIsByteStore | src/Processor/Pipeline/MemoryUnit.v:80-125 | an aligned store of any size writes exactly the addressed bytes, in little-endian order |
| ByteMemory.LoadIsByteLoad | src/Processor/Pipeline/MemoryUnit.v:152-170 | an aligned load brings the addressed bytes: a byte or half as the number they are, in two's complement unless unsigned, a word or double byte for byte, and ones above a word |
| ByteMemory.MemoryIsByteMap | src/Memory.v:34-46 | over any run of aligned stores the masked word memory holds the byte last written at every address |
| ByteMemory.LoadAfterStores | src/Processor/Pipeline/MemoryUnit.v:80-170 | every later aligned load brings those bytes, extended in the same sense |
| ByteMemory.MuxedStoreAgrees | archive/Seq/Processor.v:217-242 | the archived lane multiplexers write the same memory |
| ByteMemory.DataMemory.Tick | src/Memory.v:39-46 | the array changes in place, as the map does, under the five mask bits |
| ByteMemory.DataMemory.Fetch | src/Memory.v:34-37 | the addressed word and the one above it |
| Rv32Isa.StepIsArchitectural | src/Processor/Pipeline/ExecuteUnit.v:127-310 | on an instruction within what the circuits get right they take the step of RV32IM: pc + Bimm, Jimm, 4 or 2, or rs1 + Iimm made even, modulo 2^32; rd alone is written, with the number the opcode asks for; loads bring and stores change exactly the addressed little-endian bytes |
| Rv32Isa.StepUnique | src/Processor/Pipeline/ExecuteUnit.v:127-310 | from machines alike in pc, registers and bytes, RV32IM steps to machines alike, with the same value committed |
| Rv32Isa.PipelineRunsRv32 | src/Processor/Pipeline/ExecuteUnit.v:103-358 | on every program, under any predictions, the pipeline with its own circuits retires what an execution of RV32IM commits, instruction by instruction, and has its registers and its bytes of memory, while the instructions stay within that |
| Rv32.DatapathsAgree | archive/Seq/Processor.v:66-242 | on RV32I words of the ROM with aligned stores the datapaths of the sequential core and the pipeline take the same step and commit the same value |
| SequentialCore.RoundIsStep | archive/Seq/Processor.v:244-307 | from fetch to fetch the 4-state core takes exactly one instruction-set step, in 3 clocks, or 4 for a load, and halts at EBREAK |
| SequentialCore.SequentialRunsIsa | archive/Seq/Processor.v:271-307 | n rounds are n instructions |
| SequentialCore.Processor.Tick | archive/Seq/Processor.v:271-307 | one rising edge in place is one clock of that model |
| CoresAgree.HistoriesAgree | src/Processor/Pipeline/WriteBackUnit.v:23-24 | what the pipeline retires is, instruction by instruction, what the sequential core executes |
| CoresAgree.CoresAgree | archive/Seq/Processor.v:244-307 | after as many rounds as the pipeline has retired, registers and memory are equal |
| CoresAgree.SequentialRunsRv32 | archive/Seq/Processor.v:244-307 | after n rounds the sequential core has the pc, registers and bytes of an execution of RV32IM after n steps |
| FloatFormat.CLZCorrect | src/Processor/FPU/CLZ.v:16-32 | at every power-of-two width the recursive counter gives the true number of leading zeros of a nonzero input |
| FloatFormat.DecodeKeepsValue | src/Processor/FPU/FClass.v:53-72 | decoding keeps the value of every finite nonzero operand and normalises it |
| FloatFormat.UnpackOfPack | src/Processor/FPU/FClass.v:26-38 | the three fields survive their register image |
| FloatFormat.ClassByImage | src/Processor/FPU/FClass.v:27-38 | the six classes are ranges of the register without its sign |
| FloatFormat.ValuesOfFormat | src/Processor/FPU/FClass.v:59-72 | one is where the bias says, values grow in equal steps within a binade, double from one to the next, and lead through the subnormals to zero |
| FloatFormat.ExponentRanges | src/Processor/FPU/FClass.v:59-60 | -126 to 127 for single, -1022 to 1023 for double |
| Rounding.DecisionCorrect | src/Processor/FPU/FRound.v:37-95 | round bit, sticky bit and parity, when they describe the value, choose its correct rounding in every mode |
| Rounding.RoundsUnique | src/Processor/FPU/FRound.v:37-95 | a value has one correct rounding |
| FRound.RoundExact | src/Processor/FPU/FRound.v:27-110 | for all widths with three bits to spare, an exact normalised input is correctly rounded in every mode, carry-out included |
| FRound.RoundCorrect | src/Processor/FPU/FRound.v:27-110 | so is any value its dropped bits describe |
| FloatResult.ResultUnique | src/Processor/FPU/FMUL.v:119-130 | the correct register is determined bit for bit |
| FloatResult.MaxFiniteIsLargest | src/Processor/FPU/FDIV.v:67-68 | the overflow register of the modes that round down is finite, of its sign, and no finite register of the format is larger |
| FloatResult.PackNormalCorrect | src/Processor/FPU/FMUL.v:119-130 | the packing from the normal range up is correct exactly when it does not overflow in a mode that rounds down |
| FMul.ProductExact | src/Processor/FPU/FMUL.v:47-48 | normalising the product loses nothing |
| FMul.MultiplyCorrect | src/Processor/FPU/FMUL.v:97-130 | for operands whose product is not below the normal range: correctly rounded exactly when it does not overflow in a mode that rounds it down |
| FSubnormal.SubnormalProductExactlyWhen | src/Processor/FPU/FMUL.v:91-117 | every product below the normal range is the right multiple of the smallest subnormal exactly unless bits shifted out before the rounding break a tie or make it inexact, the rounding carries into the smallest normal number, or a product flushed to zero does not round to zero |
| FAdd.AddCorrect | src/Processor/FPU/FADDd.v:121-178 | for all finite nonzero operands of either sign: zero for a subnormal or vanishing sum; otherwise correctly rounded exactly when neither an overflow to be rounded down nor one of the sums the missing sticky bit spoils |
| FAdd.NearAndTruncatedCorrect | src/Processor/FPU/FADDd.v:138-143 | truncation and nearest-to-maximum-magnitude are correct at every exponent distance, all modes up to distance nsig + 1 |
| FAdd.RoundUpMissesTiny | src/Processor/FPU/FADDd.v:138-140 | a concrete sum rounded up wrongly |
| FAdd.NearestMissesAllOnes | src/Processor/FPU/FADDd.v:138-140 | a concrete difference rounded to nearest wrongly |
| FAdd.NormaliseExact | src/Processor/FPU/FADDd.v:145-155 | normalising loses nothing unless a carry meets an odd sum |
| FAdd.FarSum | src/Processor/FPU/FADDd.v:138-143 | beyond distance nsig + 1 the floor shift leaves a rest of less than one unit |
| FDiv.DigitsAfter | src/Processor/FPU/FDIV.v:120-147 | the recurrence keeps the dividend equal to quotient digits times divisor plus a remainder below the divisor |
| FDiv.DivideCorrect | src/Processor/FPU/FDIV.v:118-189 | one activation of nsig + 5 clocks leaves the correctly rounded quotient in all five modes whenever it is not below the normal range; on overflow infinity or the largest finite number, as the mode says |
| FDiv.Divider.Tick | src/Processor/FPU/FDIV.v:77-189 | one rising edge of the divider's registers in place |
| FDiv.Divider.Activate | src/Processor/FPU/FDIV.v:118-190 | a whole activation in place ends at rest with that quotient |
| FSqrt.DigitsAfter | src/Processor/FPU/FSQRT.v:96-118 | the recurrence keeps radicand prefix = root squared plus a remainder of at most twice the root |
| FSqrt.DirectedSqrtCorrect | src/Processor/FPU/FSQRT.v:96-147 | in the three directed modes the square root of every positive finite input is correctly rounded |
| FSqrt.NearestSqrtExactlyWhen | src/Processor/FPU/FSQRT.v:118-119 | in the nearest modes, with q and rem the integer root and remainder: at an odd exponent exactly when rem <= q; at an even one exactly when rem reaches 2^(nsig+2) for an odd q, and does not for an even q, a tie to even of the kept digits apart |
| FSqrt.RegistersFit | src/Processor/FPU/FSQRT.v:152-161 | at every digit the cut slices and the sign bit of the registers lose nothing |
| FSqrt.SqrtFaithful | src/Processor/FPU/FSQRT.v:96-147 | in every mode the result is one of the two floats around the root, and exact roots are exact |
| FSqrt.NearestMissesSqrt5 | src/Processor/FPU/FSQRT.v:118-119 | a concrete root rounded to nearest wrongly |
| FSqrt.SquareRoot.Tick | src/Processor/FPU/FSQRT.v:67-150 | one rising edge of the square-root registers in place |
| FSqrt.SquareRoot.Activate | src/Processor/FPU/FSQRT.v:67-150 | a whole activation in place, at rest again after nsig + 4 clocks with a float around the root, in the directed modes the correctly rounded one |
| FCvt.WidenKeepsValue | src/Processor/FPU/FCVTSD.v:43-70 | single to double keeps the value of every finite single |
| FCvt.InfinityWidensToFinite | src/Processor/FPU/FCVTSD.v:57-60 | an infinity becomes the finite double 2^1023 of its sign |
| FCvt.NaNWidens | src/Processor/FPU/FCVTSD.v:49-56 | a NaN widens to a NaN of its kind and sign, a signalling one with its payload |
| FCvt.SingleRoundTrip | src/Processor/FPU/FCVTSD.v:98-133 | single to double to single is the identity in every mode exactly for everything but a NaN |
| FCvt.NarrowCorrect | src/Processor/FPU/FCVTSD.v:98-133 | narrowing to the normal range or above is correctly rounded exactly when it does not overflow in a mode that rounds down |
| FSubnormal.SubnormalNarrowExactlyWhen | src/Processor/FPU/FCVTSD.v:98-133 | the same of narrowing any finite double below the normal range of single |
| FSubnormal.PackedExactlyWhen | src/Processor/FPU/FMUL.v:113-117 | the packing both share, for any width of the exact significand |
| FCvt.FromIntExact | src/Processor/FPU/FCVTD.v:33-61 | a 32-bit integer, signed or unsigned, becomes a double of its value |
| FCvt.IntRoundTrip | src/Processor/FPU/FCVTD.v:63-103 | integer to double to integer is the identity on every bit pattern, signed and unsigned, in every mode |
| FToInt.ConvertedExactlyWhen | src/Processor/FPU/FCVTD.v:63-103 | any double becomes the integer it rounds to, clamped to the format, except exactly for a NaN, positive infinity, a fraction of at most a half that a directed mode rounds away from zero, and a magnitude the unit rounds past the greatest integer |
| FCmp.CompareOrders | src/Processor/FPU/FCMP.v:35-85 | for all non-NaN pairs the flags are the order of the extended reals exactly unless a zero meets a subnormal of its sign not above half the smallest normal number |
| UartTransmitter.WaveIsFrames | src/Extern/txuart.v:179-407 | under any offers and any flow control every accepted byte is one undisturbed frame, frames never overlap, and the line is high otherwise |
| UartTransmitter.FrameClock | src/Extern/txuart.v:182-407 | one clock of a frame: state, counter, shift register and line, the shortened stop-bit count included |
| UartTransmitter.Transmitter.Tick | src/Extern/txuart.v:182-407 | one rising edge of the transmitter's registers in place |
| UartReceiver.SampleInBit | src/Extern/rxuart.v:455-477 | under the matching condition every sample of a frame lands in its own bit |
| UartReceiver.FrameClock | src/Extern/rxuart.v:182-343 | one clock of reception: start-bit detection, mid-bit sampling, shifting, no break and no frame error |
| UartReceiver.ReceivedIsSent | src/Extern/rxuart.v:157-477 | on any line of frames at a matching rate the bytes strobed out are at every moment exactly those due, in order, without frame error or break |
| UartReceiver.QuietLineListens | src/Extern/rxuart.v:182-282 | after reset the receiver listens once the line has been quiet for sixteen bit times, and not before |
| UartReceiver.Receiver.Tick | src/Extern/rxuart.v:157-477 | one rising edge of the receiver's registers in place |
| UartLink.RoundTrip | src/Extern/rxuart.v:157-477 | whatever is offered, the receiver has strobed out exactly the bytes accepted more than a fixed latency ago, each once, unchanged and in order, if 9*Bt <= floor(Br/2) + 9*Br < 10*Bt |
| UartTightness.RoundTripExactlyWhen | src/Extern/rxuart.v:229-477 | every run of every resting transmitter and listening receiver round-trips exactly when the bit times meet that condition |
| UartTightness.FastReceiver | src/Extern/rxuart.v:313-318 | with a faster receiver some byte ends in a frame error |
| UartTightness.DeafReceiver | src/Extern/rxuart.v:292-304 | with half a receiver bit no shorter than the start bit, the byte is never heard |
| UartTightness.SlowReceiver | src/Extern/rxuart.v:313-318 | with a slower one two bytes back to back end in a frame error |
| UartLink.AllArrives | src/Extern/txuart.v:179-238 | once the line has been left alone for a frame everything has arrived |
| PiArithmetic.InvMod | firmware/archive/pi.c:38-62 | in 32-bit arithmetic that never overflows: the result times x is congruent to the gcd, so to 1 for a coprime pair |
| PiArithmetic.InverseUnique | firmware/archive/pi.c:38-62 | that inverse is the only one in range |
| PiArithmetic.BezoutBounds | firmware/archive/pi.c:44-57 | no coefficient exceeds the modulus in magnitude |
| PiArithmetic.PowMod | firmware/archive/pi.c:66-81 | the power reduced by the modulus |
| PiArithmetic.IsPrime | firmware/archive/pi.c:85-97 | exact from 3 on, and what it answers below |
| PiArithmetic.SquareOverflowsExactlyWhen | firmware/archive/pi.c:93 | for a 32-bit n the loop squares a divisor beyond 32 bits exactly when n is a prime not below 46339^2 |
| PiArithmetic.NextPrime | firmware/archive/pi.c:101-107 | terminates, at the least prime above n exactly when n is at least 2 |
| PiTerms.FactorialSplit | firmware/archive/pi.c:134-143 | k! is the power of p set aside times the rest, which p does not divide |
| PiTerms.OddsSplit | firmware/archive/pi.c:145-155 | the same of (2k-1)!! |
| PiTerms.OrdersDiffer | firmware/archive/pi.c:158-163 | the exponent of p in (2k-1)!! over that in k! is a count of carries, so never negative and never above vmax |
| PiPrimeSum.DenominatorInvertible | firmware/archive/pi.c:155-159 | den is coprime to av whenever its inverse is asked for |
| PiPrimeSum.StripFactors | firmware/archive/pi.c:136-139 | the do-while loop removes and counts exactly the factors p |
| PiPrimeSum.TakeFactor | firmware/archive/pi.c:134-143 | kq finds the multiples of p; num and v take the factor k |
| PiPrimeSum.TakeOddFactor | firmware/archive/pi.c:145-156 | kq2 finds the odd multiples of p; den and v take the factor 2k-1 |
| PiPrimeSum.Term | firmware/archive/pi.c:158-163 | the residue of k * num / den * p^(vmax-v) |
| PiPrimeSum.PrimeShare | firmware/archive/pi.c:125-169 | the inner loop ends with s such that s / p^vmax differs from the partial sum of k * k! / (2k-1)!! by a fraction without p in its denominator |
| PiDigits.ShareAgrees | firmware/archive/pi.c:171-174 | adding the share of one more prime removes that prime from the denominator of the error |
| PiDigits.AllSummed | firmware/archive/pi.c:118-175 | after all primes up to 2N the sum of shares equals the series modulo 1 |
| PiDigits.Sum | firmware/archive/pi.c:116-175 | the loop over the primes leaves the fractional part of 10^(n-1) times the series up to N |
| PiDigits.Digits | firmware/archive/pi.c:110-177 | with N the bits of 10^(n+20), the result is at least 0, below 10^9, and the floor of 10^(n+8) times the series up to N, modulo 10^9 |
| PiDigits.SeriesTail | firmware/archive/pi.c:114 | no continuation of the series gains more than (2N^2 + 9N + 14) / 2^N |
| PiDigits.DigitsStay | firmware/archive/pi.c:114 | so every longer partial sum has the same floor, unless 2(2N^2 + 9N + 14) / 10^12 could carry into it |

## Left out

- Pipeline instructions: CSR, atomics, FENCE, ECALL, privilege, floating-point instructions and the third
  operand are outside the modelled program subset; registers and the data path are the 32-bit integer half.
- Instruction decoding and decompression: a given function from an address to a decoded instruction.
- Reset: the pipeline starts drained, as reset leaves it; the reset input itself is not an input of the clock.
- Devices: a read from a device is a fixed function of its address; writes to it change nothing in the model.
- Address, operand and data fields of a bubble's memory latch carry values that nothing reads; they follow the
  instruction that was squashed rather than a NOP.
- How often branches are predicted correctly: the refinement holds for any answers of the branch history table.
- ROM contents and the 16-bit instruction ROM ports of the memory; data memory addresses do not wrap around.
- Rv32.DatapathsAgree: SLLI and SLL with the alternate bit set are excluded, because the encodings are reserved.
- Rv32Isa.PipelineRunsRv32: instructions on which the circuits differ from RV32IM, unaligned accesses and double
  accesses are excluded; `Rv32Isa.Regular` says which, exactly for the ALU and the multiplier. Immediates are the
  decoder's.
- ReturnPrediction.ReturnMispredictedExactlyWhen: calls inside that link the same address are excluded, because
  a stale entry then predicts correctly by coincidence; the sufficient condition covers them.
- FDiv.DivideCorrect: quotients below the normal range are modelled but not claimed, because the unit does not
  shift them; the reserved rounding modes 5 to 7, for which no result is defined, are not claimed either.
- Special cases of the arithmetic units (NaN, infinity and zero operands) and the accrued exception flags.
- Exponents are unbounded integers; the registers that hold them are wide enough for every operand.
- Divider and square root: one activation with operands held; restart with the counter at zero, the busy and
  ready handshake on the falling edge and the intermediate values shown at the output are not modelled.
- Fused multiply-add, sign injection, minimum and maximum, the single-precision integer conversions (FCVT.v).
- Serial port: eight data bits, no parity, one stop bit, the divisor constant and already latched; the break
  and reset inputs and parity are not modelled. Clear-to-send is an input after its synchroniser.
- PiDigits.Digits: the floating-point sum is exact real arithmetic and the two logarithms are exact; that the
  series converges to pi + 3 is not proved.
- PiArithmetic.IsPrime: integers are unbounded; `PiArithmetic.SquareOverflowsExactlyWhen` says where the 32-bit
  square would overflow, but what the loop then does is not modelled.
- Simulation, board support, firmware other than the pi program, superseded floating-point units.

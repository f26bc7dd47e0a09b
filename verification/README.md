# Verified models of the CEP co-simulation sources

Dafny models of the parts of the Common Evaluation Platform's co-simulation and bare-metal test environment that
carry an algorithm or a protocol, with proofs of what they promise. `dafny verify dfyconfig.toml` checks everything.

| area | modules | main results |
|---|---|---|
| Fourier transforms | `Complex`, `Fourier`, `Chirp`, `BitReversal`, `Radix2`, `Fft`, `Tone` | the in-place loops compute the plain double sum; any length through the chirp transform; inverse and convolution; the exact lengths for which this is true |
| GPS codes | `Lfsr`, `PCodeWeek`, `PCodeTable`, `Gps`, `CaCode`, `CaTaps` | table and index arithmetic agree with clocked registers (sections 3.3.2.2 and 3.3.2.3 of IS-GPS-200) at every chip of every week |
| Mailbox protocol | `Mailbox`, `MailboxInv`, `MailboxSim`, `MailboxSafety`, `MailboxProgress` | exactly-once, in-order execution with the right arguments, in every interleaving of callers, simulators and daemon; from every state all programs can be completed |
| Memory tests | `Bits64`, `MemAccess`, `MemPatterns`, `MemTheorems`, `MemRuns`, `MemFaults`, `MemWalks`, `MemFull`, `MemTest` | no false alarm; bad cells, stuck bits, stuck lines and aliased addresses are found, and exactly which stuck bits and lines are not |
| SD boot copy | `Gf2`, `Crc16`, `SdCopy`, `SdBoot` | the byte-wise CRC is polynomial division; the copy accepts exactly intact data |
| Record and replay | `Playback`, `Replay` | a captured trace replays with the same bus accesses, and exactly when it does not |
| Claiming and counting | `MultiThread`, `MultiThreadMask`, `MultiThreadResults`, `LockfreeAtomic` | mutual exclusion, completeness, termination, what is returned; lane-wise counting, in every interleaving, and when the final wait can succeed |
| Printing, parsing, renaming, filtering | `Printf`, `PrintRead`, `PrintFormats`, `PrintForms`, `PrintDigits`, `VecVal`, `VecValues`, `Uniquify`, `Iir` | round trips with their exact conditions, a renaming that keeps the tree, a causal and linear filter |

Code that changes arrays or fields step by step is a method with loops or a class, specified by a function on values;
the theorems are about those functions. The two protocols and the two multi-core tests are state machines whose steps
are single accesses to shared memory; theorems quantify over all programs and all interleavings.

## How the model reads the code

- Arithmetic in `fft.cc` and `cep_iir.cc` is over exact reals. Cosine and sine are any pair of functions with the addition
  theorem that are one only at whole turns (`Fourier.IsTrig`).
- Devices (memory, bus, SD card) are arbitrary functions or byte sequences of what has happened on them so far; the lock
  register is a test-and-set register. Commands of the simulator return arbitrary replies.
- Machine widths are written out where the code depends on them: sizes in `fft.cc`, the 12-bit registers and 64-bit indices
  of the GPS code, 64-bit words of the memory test, 16-bit CRC, 32- and 64-bit atomics, 64-bit `long` in `atol`.
- An operation has no result (`None`) where the code hangs on a silent card or a `long` overflows.

## Where the code falls short of its purpose

Each is modelled as the code has it, and the condition under which the promise holds is proved.

- `fft.cc:148`: the squared index wraps from 2^32 on, so lengths above 2^32 that are no power of two are transformed
  wrongly (`Fft.RightExactly`).
- `cep_gps.cc:311-312`: both sums can wrap for indices near 2^64; then X2, or X1 and X2, are read at a wrong time
  (`PCodeTable.PhaseExactly`, with an input in `PCodeTable.WrapShows`). The driver's own indices stay far below
  (`Gps.CepGps.GenPCode`).
- `cep_gps.cc:559`: shifting the 13-bit word by 16 leaves nothing, so five of every thirteen chips are never compared
  (`CaCode.CaGenerator.Generate`).
- `memBaseTest.cc:206-221` places the walking bit in 32-bit words although words have 64 bits, and `checkerBoardTest` uses
  32-bit constants: above bit 31 every checkerboard pattern is fixed by the parity of the address (`MemFaults.StuckBitExactly`),
  and a data walk sees the lines above only through place 31, whose sign is widened (`MemWalks.LineExactly`).
- `cep_apis.cc:516` is a label, not a default case: an unknown command neither moves the cursor nor counts as an error
  (`Replay.UnknownStops`), and neither does a spin outside the window (`Replay.PlaysOutside`, `Replay.ReplayBreaksOff`);
  nothing else stops the cursor (`Replay.StopsExactly`).
- `cepMultiThread.cc:153-154` loops over the low sixteen bits of the core mask but searches all of them: a thread that claims
  a higher core never returns 0 (`MultiThreadMask.HighNeverReturnsZero`), and `MultiThreadMask.HighClaimsExactly` says when
  that can happen.
- `cepLockfreeAtomic.cc:84-135`: the final wait needs all four lanes, so with fewer than four cores it fails in every
  interleaving, unless the other lanes hold eight already (`LockfreeAtomic.WaitSucceedsExactly`,
  `LockfreeAtomic.ThreeCoresFail`).
- `syscalls.c`: the sign is printed before the padding, so a negative number padded with spaces does not read back; the dash
  flag pads numbers with dashes; a precision of zero is read as a flag (`PrintRead.ReadExactly`,
  `PrintFormats.PrecisionExactly`).
- `VecVal.h:446`: the limit is one word too far, so exactly the texts with more digits than fit are written one word behind
  the vector (`VecVal.VecVal.SetHex`, with a text in `VecVal.NineDigitsTooMany`). A text without prefix is decimal although
  the comment there allows bare hexadecimal digits (`VecVal.BareExactly`).
- `sd.c:276`: a count of zero or less still copies one block (`SdCopy.Card.CopyBlocks`).

## Model

| member | source | states |
|---|---|---|
| `Radix2.TransformRadix2` | sims/cep_cosim/drivers/cep_tests/fft.cc:54-113 | Replaces the signal by its discrete Fourier transform as a plain double sum, in place, for every power-of-two length; refuses exactly the lengths the size checks refuse and then leaves the signal alone. |
| `BitReversal.ReverseBits` | sims/cep_cosim/drivers/cep_tests/fft.cc:254-259 | The loop reverses the lowest n bits. |
| `BitReversal.Involution` | sims/cep_cosim/drivers/cep_tests/fft.cc:254-259 | On [0, 2^n) reversing twice is the identity, so the swaps are a permutation of pairs. |
| `BitReversal.Permute` | sims/cep_cosim/drivers/cep_tests/fft.cc:76-87 | After the swap pass position k holds what was at its bit-reversed position, in both arrays. |
| `Radix2.ButterflyStep` | sims/cep_cosim/drivers/cep_tests/fft.cc:94-101 | One butterfly: the two entries become sum and difference with the turned second entry; all others stay. |
| `Radix2.ButterflyBlock` | sims/cep_cosim/drivers/cep_tests/fft.cc:94-102 | Turns the two interleaved half-size transforms of a block into the transform of the block; entries outside the block are untouched. |
| `Radix2.ButterflyPass` | sims/cep_cosim/drivers/cep_tests/fft.cc:93-103 | One level: every block of 2^(p+1) points holds the transform of its strided input. |
| `Radix2.AllPasses` | sims/cep_cosim/drivers/cep_tests/fft.cc:89-106 | All levels: from single points to the transform of the whole signal. |
| `Radix2.MergePair` | sims/cep_cosim/drivers/cep_tests/fft.cc:94-101 | The expected contents after level p+1, at both ends of a butterfly, follow from those after level p. |
| `Radix2.FloorLog2` | sims/cep_cosim/drivers/cep_tests/fft.cc:57-59 | The loop finds the floor of the base-two logarithm. |
| `Bits.ClearLowestBit` | sims/cep_cosim/drivers/cep_tests/fft.cc:42-42 | n & (n - 1) is zero exactly for powers of two. |
| `Fourier.Butterfly` | sims/cep_cosim/drivers/cep_tests/fft.cc:94-101 | Both halves of a merged transform of 2m points from the transforms of the even and odd positions. |
| `Fourier.Orthogonal` | sims/cep_cosim/drivers/cep_tests/fft.cc:49-51 | The powers of a root of unity other than one add up to zero over a period. |
| `Fourier.Inversion` | sims/cep_cosim/drivers/cep_tests/fft.cc:49-51 | The inverse sum of a transform is n times the input. |
| `Fourier.SwappedIsInverse` | sims/cep_cosim/drivers/cep_tests/fft.cc:49-51 | A transform with real and imaginary parts exchanged before and after is the inverse sum. |
| `Fourier.ConvolutionTheorem` | sims/cep_cosim/drivers/cep_tests/fft.cc:231-242 | The transform of a circular convolution is the product of the transforms. |
| `Chirp.ChirpIdentity` | sims/cep_cosim/drivers/cep_tests/fft.cc:147-165 | Chirp times conjugate chirp times chirp is the root of unity to the power jk. |
| `Chirp.IdealIsDft` | sims/cep_cosim/drivers/cep_tests/fft.cc:155-175 | With an exact chirp table the chirp transform is the Fourier sum, for every length. |
| `Fft.TransformBluestein` | sims/cep_cosim/drivers/cep_tests/fft.cc:116-189 | In place for any length: the chirp transform over the table the program computes, refused exactly from the length on whose padding does not fit. |
| `Fft.ChirpTransform` | sims/cep_cosim/drivers/cep_tests/fft.cc:155-176 | Modulate, convolve at the padded length, demodulate: together the chirp transform. |
| `Fft.Mirror` | sims/cep_cosim/drivers/cep_tests/fft.cc:160-165 | The chirp is stored at i and at m - i. |
| `Fft.Modulate` | sims/cep_cosim/drivers/cep_tests/fft.cc:156-159 | The first n entries are multiplied by the conjugate chirp; the padding stays zero. |
| `Fft.PaddedLength` | sims/cep_cosim/drivers/cep_tests/fft.cc:119-125 | The smallest power of two above 2n, or a refusal when it does not fit a machine word. |
| `Fft.Transform` | sims/cep_cosim/drivers/cep_tests/fft.cc:39-46 | Succeeds exactly for lengths that fit; the result is the Fourier sum for lengths that pass Exact (see ExactIsDft). The recursion through convolution ends because the padded length is a power of two. |
| `Fft.ExactIsDft` | sims/cep_cosim/drivers/cep_tests/fft.cc:39-46 | For powers of two and every length up to 2^32, what Transform computes is the Fourier sum. |
| `Fft.RightExactly` | sims/cep_cosim/drivers/cep_tests/fft.cc:147-153 | Transform is right on all signals of n points if and only if n is a power of two or at most 2^32: beyond that the 64-bit square of the index wraps. |
| `Fft.InverseTransform` | sims/cep_cosim/drivers/cep_tests/fft.cc:49-51 | In place, the inverse Fourier sum, so that it undoes Transform up to the factor n. |
| `Fft.ConvolveComplex` | sims/cep_cosim/drivers/cep_tests/fft.cc:209-251 | Writes the circular convolution of the two inputs, and fails exactly for lengths that do not fit; inputs may coincide. |
| `Fft.PointwiseProduct` | sims/cep_cosim/drivers/cep_tests/fft.cc:231-235 | Complex products, although the real part is overwritten last. |
| `Tone.ToneTransforms` | sims/cep_cosim/drivers/cep_tests/fft.cc:39-46 | A pure tone transforms to n at its own frequency and to zero at all others: the sign of the angle, the scale and the order of the output. |
| `Lfsr.ShiftIsClock` | sims/cep_cosim/drivers/cep_tests/cep_gps.cc:212-237 | One shift of the 12-bit word is one clock of the twelve stages with the given taps, and the bit shifted out is the output stage. |
| `Lfsr.ShiftedIsClocked` | sims/cep_cosim/drivers/cep_tests/cep_gps.cc:239-253 | The same for any number of clocks. |
| `PCodeWeek.RunIsClosed` | sims/cep_cosim/drivers/cep_tests/cep_gps.cc:309-322 | Four clocked, short-cycled registers with cycle and epoch counters, end-of-epoch, 37-chip and end-of-week holds are, at every time of every week, where the closed index form puts them. |
| `PCodeTable.X1Agrees` | sims/cep_cosim/drivers/cep_tests/cep_gps.cc:259-269 | X1 from the table, with the X1B hold, is X1 of the clocked registers at that time of the week. |
| `PCodeTable.X2Agrees` | sims/cep_cosim/drivers/cep_tests/cep_gps.cc:271-307 | X2 from the table, with both kinds of hold and the end-of-week form, is X2 of the clocked registers. |
| `PCodeTable.PCodeAgrees` | sims/cep_cosim/drivers/cep_tests/cep_gps.cc:309-322 | For every satellite byte and every index whose time, day offset included and not reduced, fits 64 bits together with the week: pcode_lookup is X1 at that time and X2 prn chips before, as clocked. |
| `PCodeTable.SatelliteAgrees` | sims/cep_cosim/drivers/cep_tests/cep_gps.cc:309-322 | Satellites 37 d + 1 to 37 d + 37 read X1 d days on from the index and X2 prn chips before that; the first 37 at the index itself. |
| `PCodeTable.PhaseExactly` | sims/cep_cosim/drivers/cep_tests/cep_gps.cc:310-313 | The X1 index is that of the time asked for if and only if the day offset does not wrap, and both indices are if and only if that time and the week fit 64 bits together less prn. |
| `PCodeTable.WrapShows` | sims/cep_cosim/drivers/cep_tests/cep_gps.cc:310-313 | At the last index both indices of satellite 38 and the X2 index of satellite 1 are wrong. |
| `Gps.CepGps.constructor` | sims/cep_cosim/drivers/cep_tests/cep_gps.cc:27-61 | Constants and initial registers of the first constructor. |
| `Gps.CepGps.SetPcodeXnInit` | sims/cep_cosim/drivers/cep_tests/cep_gps.cc:123-157 | Fast-loop constants and masked register contents; the table is not recomputed. |
| `Gps.CepGps.XPrep` | sims/cep_cosim/drivers/cep_tests/cep_gps.cc:239-257 | Fills the 4096 entries with what the four registers deliver, one bit each. |
| `Gps.CepGps.SetSvNum` | sims/cep_cosim/drivers/cep_tests/cep_gps.cc:95-107 | Fills the table, restarts the index, and takes the satellite number, the smallest one in place of one that is too large. |
| `Gps.CepGps.GenPCode` | sims/cep_cosim/drivers/cep_tests/cep_gps.cc:325-346 | Sixteen bytes with the next 128 chips as the clocked registers give them, first chip in the top bit, at any index the driver can reach; for satellites 1 to 37 these are X1 at the index and X2 so many chips before. The index advances by 128 and starts over at the table size. |
| `Gps.CepGps.PackChips` | sims/cep_cosim/drivers/cep_tests/cep_gps.cc:331-344 | The loop: chip after chip from the table into the two halves of each byte. |
| `Gps.PackedBit` | sims/cep_cosim/drivers/cep_tests/cep_gps.cc:331-344 | Bit 7 - i of a packed byte is chip i. |
| `Gps.ChipsAreClocked` | sims/cep_cosim/drivers/cep_tests/cep_gps.cc:331-336 | A run of chips by table is the run of chips by clocking, as long as its last time and the week fit 64 bits. |
| `Gps.PredictionIsClocked` | sims/cep_cosim/drivers/cep_tests/cep_gps.cc:325-346 | For both sets of constants and every index up to the table size this holds of all sixteen bytes. |
| `CaCode.CaGenerator.Reset` | sims/cep_cosim/drivers/cep_tests/cep_gps.cc:424-432 | Both registers are all ones: the start of both recurrences. |
| `CaCode.CaGenerator.Shift` | sims/cep_cosim/drivers/cep_tests/cep_gps.cc:546-554 | Stages 1 to 10 are sliding windows of the recurrences of 1+X^3+X^10 and 1+X^2+X^3+X^6+X^8+X^9+X^10, one place on. |
| `CaCode.CaGenerator.Generate` | sims/cep_cosim/drivers/cep_tests/cep_gps.cc:467-559 | Thirteen clocks; the first byte kept is the last eight of the thirteen chips, first chip highest, and the second byte kept is always zero. |
| `CaCode.CaGenerator.NextChip` | sims/cep_cosim/drivers/cep_tests/cep_gps.cc:469-544 | G1 xor the two G2 taps of the satellite, zero for other numbers. |
| `CaTaps.ChipIsDelayed` | sims/cep_cosim/drivers/cep_tests/cep_gps.cc:469-544 | The chip of each satellite is G1 xor G2 delayed by the code delay that the interface specification lists for it. |
| `CaTaps.G2Repeats` | sims/cep_cosim/drivers/cep_tests/cep_gps.cc:548-554 | G2 has period 1023. |
| `CaCode.WordTail` | sims/cep_cosim/drivers/cep_tests/cep_gps.cc:545-545 | A word of chips splits into a leading and a trailing word. |
| `MailboxSafety.LocalCommandsExact` | sims/cep_cosim/share/shIpc.cc:145-171 | In every interleaving each local command is executed once, in program order, with exactly the cells the caller wrote, and the caller goes on only with the reply in the parameter words, remote prints mixed in. |
| `MailboxSafety.RemotePrintsExact` | sims/cep_cosim/pli/vpp2shMem.cc:113-151 | Print requests are printed once each, in order, by the slot they name; the requester goes on only after its request was printed and acknowledged. |
| `MailboxSafety.OneServerEach` | sims/cep_cosim/src/shPthread.cc:185-207 | An engaged slot serves a requester that waits for it, and no two slots serve the same requester. |
| `MailboxSafety.StepPreserves` | sims/cep_cosim/src/shPthread.cc:185-207 | Every step of a caller, a simulator or the daemon keeps the protocol invariant. |
| `MailboxProgress.NeverStuck` | sims/cep_cosim/pli/vpp2shMem.cc:102-219 | From every state of every run of admissible programs some further steps complete all of them: every local command executed and answered, every print request printed, each once and in order. |
| `MailboxProgress.ServeLocal` | sims/cep_cosim/pli/vpp2shMem.cc:122-187 | A simulator that goes on alone serves the command of its own slot, whatever it is doing. |
| `MailboxProgress.ServeRemote` | sims/cep_cosim/pli/vpp2shMem.cc:112-151 | A simulator that goes on alone gets rid of the request it holds. |
| `MailboxProgress.DaemonClears` | sims/cep_cosim/src/shPthread.cc:185-207 | The daemon alone gets round to a request whose target is free, or to another one before it. |
| `MailboxProgress.RunFlags` | sims/cep_cosim/share/shIpc.cc:123-129 | A request that is acknowledged while its flag is still up is one whose flag the daemon is about to clear. |
| `MailboxSim.ForeignPreserves` | sims/cep_cosim/share/shIpc.cc:424-436 | Printing, setting the status and releasing another slot keep the invariant. |
| `MemTest.MemBaseTest.constructor` | sims/cep_cosim/drivers/diag/memBaseTest.cc:21-129 | Masks, step, seed and checker mask of a new test. |
| `MemTest.MemBaseTest.SetDatMsk` | sims/cep_cosim/drivers/diag/memBaseTest.cc:335-350 | The mask covers exactly the configured data bits, word by word. |
| `MemTest.MemBaseTest.SetAdrMsk` | sims/cep_cosim/drivers/diag/memBaseTest.cc:352-356 | The address mask is the number of addresses less one. |
| `MemTest.MemBaseTest.WriteEntry` | sims/cep_cosim/drivers/diag/cepMemTest.cc:36-62 | An access of the configured width carries the masked first word. |
| `MemTest.MemBaseTest.ReadEntry` | sims/cep_cosim/drivers/diag/cepMemTest.cc:64-93 | The first word is what the memory returns at that width. |
| `MemTest.MemBaseTest.NotEqual` | sims/cep_cosim/drivers/diag/memBaseTest.cc:189-202 | Zero exactly when written and read patterns agree under the mask in all sixteen words, although only 32 single-bit tests are made per word. |
| `MemTest.MemBaseTest.ReadEntryNCompare` | sims/cep_cosim/drivers/diag/memBaseTest.cc:160-186 | Zero exactly when the memory returns the pattern under the data mask. |
| `MemTest.MemBaseTest.Set1Pattern` | sims/cep_cosim/drivers/diag/memBaseTest.cc:206-213 | The first word has the one bit below 32, and is zero for later bits. |
| `MemTest.MemBaseTest.Set0Pattern` | sims/cep_cosim/drivers/diag/memBaseTest.cc:214-221 | The first word lacks the one bit below 32; for later bits it is 0xFFFFFFFF. |
| `MemTest.MemBaseTest.SetIncPattern` | sims/cep_cosim/drivers/diag/memBaseTest.cc:227-231 | The first word is the start pattern. |
| `MemTest.MemBaseTest.RepPattern` | sims/cep_cosim/drivers/diag/memBaseTest.cc:233-237 | Pattern and complement alternate. |
| `MemTest.MemBaseTest.InvPattern` | sims/cep_cosim/drivers/diag/memBaseTest.cc:238-242 | All words are complemented. |
| `MemTest.MemBaseTest.SetRandomPattern` | sims/cep_cosim/drivers/diag/memBaseTest.cc:255-264 | The first word is determined by the sum of seed and test seed alone, wherever the filling starts. |
| `MemTest.MemBaseTest.WalkTest` | sims/cep_cosim/drivers/diag/memBaseTest.cc:396-522 | A walk writes, checks or both over its addresses; the count is zero exactly when no check fails, and it stops at the first failure. |
| `MemTest.MemBaseTest.RangeUp` | sims/cep_cosim/drivers/diag/memBaseTest.cc:542-548 | One upward pass over the visited addresses; also the two address-pattern passes (654-694). |
| `MemTest.MemBaseTest.RangeDown` | sims/cep_cosim/drivers/diag/memBaseTest.cc:551-559 | One downward pass over the same addresses, check before write. |
| `MemTest.MemBaseTest.CheckerBoardTest` | sims/cep_cosim/drivers/diag/memBaseTest.cc:524-613 | The nine passes in order under the checker mask; zero exactly when all checks pass. |
| `MemTest.MemBaseTest.DoMemTest` | sims/cep_cosim/drivers/diag/memBaseTest.cc:617-649 | Four writing walks, four checking walks, the checkerboard; zero exactly when all checks pass. |
| `MemTest.RunTest` | sims/cep_cosim/drivers/diag/cepMemTest.cc:99-133 | Two walks by parity of the core, then everything if asked for; zero exactly when the memory passes. |
| `MemTheorems.AddressWalksAgree` | sims/cep_cosim/drivers/diag/memBaseTest.cc:396-455 | Where two address walks meet they write the same pattern. |
| `MemTheorems.DataWalksAgree` | sims/cep_cosim/drivers/diag/memBaseTest.cc:456-522 | The two data walks never meet: 3i and mask - 3j lie in different halves. |
| `MemTheorems.MixedWalksApart` | sims/cep_cosim/drivers/diag/memBaseTest.cc:396-522 | An address walk never meets a data walk: 3i is no power of two. |
| `MemTheorems.SafePasses` | sims/cep_cosim/drivers/diag/memBaseTest.cc:617-649 | Passes whose checks follow their writes pass on every memory that returns what is expected of it. |
| `MemFaults.NoFalseAlarm` | sims/cep_cosim/drivers/diag/memBaseTest.cc:617-649 | A memory without faults passes every such sequence. |
| `MemFaults.MemTestRaisesNoFalseAlarm` | sims/cep_cosim/drivers/diag/memBaseTest.cc:617-649 | doMemTest, the checkerboard and runTest return zero on a memory without faults for every width, step, base, seed and checker mask. |
| `MemFaults.StuckBitFound` | sims/cep_cosim/drivers/diag/memBaseTest.cc:524-613 | With the default mask the checkerboard fails on every memory with a stuck bit among the low 32 of a visited address. |
| `MemFaults.StuckBitExactly` | sims/cep_cosim/drivers/diag/memBaseTest.cc:524-613 | A memory whose only fault is one stuck data bit passes if and only if the bit is above bit 31 and stuck at the level its address parity gives it. |
| `MemFaults.AliasFound` | sims/cep_cosim/drivers/diag/memBaseTest.cc:524-613 | With the default mask the checkerboard fails on every memory in which two visited addresses select one cell. |
| `MemFaults.MemTestFinds` | sims/cep_cosim/drivers/diag/memBaseTest.cc:640-647 | Whatever passes doMemTest passes the checkerboard it ends with. |
| `MemWalks.RunTestFindsCell` | sims/cep_cosim/drivers/diag/cepMemTest.cc:99-133 | On either parity, with or without the full test, a cell 2^i that does not return what was written is found. |
| `MemWalks.MemTestFindsCell` | sims/cep_cosim/drivers/diag/memBaseTest.cc:617-649 | doMemTest finds such a cell at each address of its four walks, whatever the step of the checkerboard. |
| `MemWalks.RunTestFindsLine` | sims/cep_cosim/drivers/diag/cepMemTest.cc:99-133 | Without the full test, a data line stuck at a level is found unless the data walk of that parity misses it: with n places, a line below n, or place 31 for the lines above. |
| `MemWalks.LineExactly` | sims/cep_cosim/drivers/diag/cepMemTest.cc:99-133 | A memory whose only fault is a stuck data line passes if and only if the data walk misses the line and no seeded pattern of the address walk needs it. |
| `MemWalks.NoLineEscapes` | sims/cep_cosim/drivers/diag/cepMemTest.cc:99-133 | With at least six addresses per data line every stuck line is found, at either level, on either parity. |
| `MemFull.LossFound` | sims/cep_cosim/drivers/diag/memBaseTest.cc:542-611 | A visited cell that fails to return any one of the six words of the checkerboard is found. |
| `MemFull.AddressLossFound` | sims/cep_cosim/drivers/diag/memBaseTest.cc:535-538 | A visited cell that fails to return its own address is found, whatever the mask. |
| `MemFull.FullTestFinds` | sims/cep_cosim/drivers/diag/cepMemTest.cc:99-133 | The full test fails if any cell at all has a bit stuck among the low 32, or any two addresses select one cell. |
| `Gf2.Division` | sims/cep_cosim/bootrom/sd.c:184-191 | Message times x^16 plus the remainder is a multiple of x^16+x^12+x^5+1. |
| `Gf2.RemainderUnique` | sims/cep_cosim/bootrom/sd.c:184-191 | The remainder is the only sixteen bits with that property. |
| `Gf2.AgreeIffMultiple` | sims/cep_cosim/bootrom/sd.c:260-263 | Message and check value agree exactly when together they are a multiple of the generator. |
| `Gf2.RemAdds` | sims/cep_cosim/bootrom/sd.c:184-191 | The remainder is linear. |
| `Gf2.BurstNoticed` | sims/cep_cosim/bootrom/sd.c:260-263 | A nonzero error within sixteen consecutive bits breaks the agreement. |
| `Crc16.RoundIsEightClocks` | sims/cep_cosim/bootrom/sd.c:184-191 | The branch-free round is eight clocks of the shift register, most significant bit first. |
| `Crc16.CrcIsRemainder` | sims/cep_cosim/bootrom/sd.c:247-258 | The running value of a block of any length is the remainder of the block times x^16. |
| `SdCopy.CheckIsRemainder` | sims/cep_cosim/bootrom/sd.c:260-263 | The comparison of the loader accepts exactly the remainder of the block. |
| `SdCopy.Card.SdCmd` | sims/cep_cosim/bootrom/sd.c:76-100 | Seven transfers, then at most a thousand until a reply with the top bit clear. |
| `SdCopy.Card.Block` | sims/cep_cosim/bootrom/sd.c:254-261 | Stores the next 512 bytes in order and computes their check value. |
| `SdCopy.Card.WaitToken` | sims/cep_cosim/bootrom/sd.c:250-251 | Skips to behind the next 0xFE. |
| `SdCopy.Card.CopyBlock` | sims/cep_cosim/bootrom/sd.c:244-267 | One block: token, payload, check value; success exactly on agreement. |
| `SdCopy.Card.CopyBlocks` | sims/cep_cosim/bootrom/sd.c:243-276 | Stops at the first mismatch; at least one block whatever the count. |
| `SdCopy.Card.SdCopy` | sims/cep_cosim/bootrom/sd.c:199-284 | Refuses when the command is not answered with zero; otherwise the block loop and the stop command. |
| `SdCopy.FramesReceived` | sims/cep_cosim/bootrom/sd.c:243-276 | Frames sent by the card: result 0 exactly when all are intact, and then memory holds their payloads in order; otherwise it stops behind the first bad one. |
| `SdCopy.AcceptedIsIntact` | sims/cep_cosim/bootrom/sd.c:243-276 | A result of 0 means the card sent the requested number of intact frames and memory holds exactly their payloads. |
| `SdCopy.BurstFailsCopy` | sims/cep_cosim/bootrom/sd.c:263-266 | If any frame is hit by an error of at most sixteen bits, the copy fails. |
| `SdBoot.CopyExactly` | sims/cep_cosim/bootrom/sd.c:238-283 | The whole boot copy against what the card sends: 0 if and only if the read command is answered with zero and all frames are intact, with memory holding the payloads; another answer gives 1 and copies nothing; a bad frame gives 1 and memory holds the payloads up to it. |
| `SdBoot.CopyAccepted` | sims/cep_cosim/bootrom/sd.c:238-283 | A result of 0 means the card granted the read, sent that many intact frames and answered the stop command. |
| `SdBoot.BurstFailsBoot` | sims/cep_cosim/bootrom/sd.c:263-283 | If any frame is hit by an error of at most sixteen bits, the boot copy returns 1. |
| `SdBoot.CopyEnds` | sims/cep_cosim/bootrom/sd.c:243-283 | With 1009 bytes behind the frames the copy comes to its end. |
| `SdBoot.Answered` | sims/cep_cosim/bootrom/sd.c:76-100 | A command gets the first byte with its top bit clear behind the seven transfers, or the thousandth. |
| `Playback.CepPlayback` | sims/cep_cosim/drivers/cep_tests/cep_apis.cc:427-530 | Bus events, cursor and error count of the interpreter, command by command, stopping at the first error; unknown commands do nothing. |
| `Playback.PlayCommand` | sims/cep_cosim/drivers/cep_tests/cep_apis.cc:441-520 | One command at the cursor: its bus events, where the cursor goes, and whether it counts as an error. |
| `Playback.PlaySpin` | sims/cep_cosim/drivers/cep_tests/cep_apis.cc:482-506 | Reads until a match or until the count is used up, which is an error only for a positive count. |
| `Playback.ReadUntil` | sims/cep_cosim/drivers/cep_tests/cep_crypto.cc:272-286 | The recorder spins in the same way. |
| `Playback.Recorder.WriteNCapture` | sims/cep_cosim/drivers/cep_tests/cep_crypto.cc:205-225 | Performs the write and appends its three words; the first write fixes the window base, which contains its address. |
| `Playback.Recorder.ReadNCapture` | sims/cep_cosim/drivers/cep_tests/cep_crypto.cc:231-248 | Performs the read and appends a comparison with what was read. |
| `Playback.Recorder.ReadNSpin` | sims/cep_cosim/drivers/cep_tests/cep_crypto.cc:256-287 | Appends the spin and performs it; returns 1 exactly when it timed out. |
| `Playback.Recorder.MarkSingle` | sims/cep_cosim/drivers/cep_tests/cep_crypto.cc:288-292 | Marks the command count once. |
| `Replay.ReplayRepeats` | sims/cep_cosim/drivers/cep_tests/cep_apis.cc:427-530 | From the device state the capture started in, the replay makes the same bus accesses in the same order, with the cursor from boundary to boundary and no error. |
| `Replay.ReplayBreaksOff` | sims/cep_cosim/drivers/cep_tests/cep_apis.cc:427-530 | Otherwise it does so up to the first command that is out of the window or timed out, and what happens there is stated for each kind. |
| `Replay.ReplayExactly` | sims/cep_cosim/drivers/cep_tests/cep_apis.cc:427-530 | No error and the cursor at the end if and only if all addresses lie in the window and no spin timed out. |
| `Replay.InWindowExactly` | sims/cep_cosim/drivers/cep_tests/cep_apis.cc:427-530 | With all addresses in the window: returns 0 if and only if no spin timed out. |
| `Replay.PlaysOutside` | sims/cep_cosim/drivers/cep_tests/cep_apis.cc:479-513 | Outside the window a write or comparison is an error; a spin is not, and the cursor stays where it is. |
| `Replay.UnknownStops` | sims/cep_cosim/drivers/cep_tests/cep_apis.cc:515-518 | A word at the cursor that is no command: for any number of commands left, no bus access, no error, the cursor stays. |
| `Replay.StopsExactly` | sims/cep_cosim/drivers/cep_tests/cep_apis.cc:438-526 | The cursor stays where it is if and only if it stands at a word that is no command or at a spin outside the window. |
| `MultiThread.NeverTwoHolders` | sims/cep_cosim/drivers/diag/cepMultiThread.cc:49-105 | In every interleaving no two threads hold the same test between claim and release. |
| `MultiThread.NeverTwoOwners` | sims/cep_cosim/drivers/cep_tests/cep_apis.cc:535-567 | No two threads both know they own the lock register. |
| `MultiThread.ZeroMeansAllClaimed` | sims/cep_cosim/drivers/diag/cepMultiThread.cc:143-261 | A thread that returns 0 has claimed every core of coreMask & 0xFFFF once, and no other. |
| `MultiThreadResults.ReturnsExactly` | sims/cep_cosim/drivers/diag/cepMultiThread.cc:143-261 | A thread that has returned has run the test of each core it claimed once, and returns the sum of the results if that is not zero, else 0 if it has claimed the low cores and no others, and 1 if it gave up. |
| `MultiThreadResults.ZeroExactly` | sims/cep_cosim/drivers/diag/cepMultiThread.cc:153-260 | It returns 0 if and only if it has claimed the low cores of the mask, no others, and every result was 0. |
| `MultiThreadResults.ZeroPossible` | sims/cep_cosim/drivers/diag/cepMultiThread.cc:143-261 | Some run has a thread return 0 if and only if the low cores of the mask are among the words searched. |
| `MultiThreadMask.HighClaimsExactly` | sims/cep_cosim/drivers/diag/cepMultiThread.cc:152-160 | In some run some thread claims a core above bit 15 if and only if there are two threads, a core below bit 16 and one above it among the words searched. |
| `MultiThreadMask.OnlyLowClaims` | sims/cep_cosim/drivers/diag/cepMultiThread.cc:152-160 | Without these, no thread claims such a core in any run. |
| `MultiThreadMask.HighIsClaimed` | sims/cep_cosim/drivers/diag/cepMultiThread.cc:49-82 | With these, a run: the first thread holds a low core, and the second, left with the others, gets to the high one. |
| `MultiThreadMask.HighNeverReturnsZero` | sims/cep_cosim/drivers/diag/cepMultiThread.cc:152-158 | A thread that has claimed such a core never returns 0, however the run goes on. |
| `MultiThreadMask.SixteenIsClaimed` | sims/cep_cosim/drivers/diag/cepMultiThread.cc:152-160 | Cores 0 and 16, 17 words, two threads: such a run exists. |
| `MultiThread.AllReleased` | sims/cep_cosim/drivers/diag/cepMultiThread.cc:85-105 | When all threads have returned the register is free and all words are zero. |
| `MultiThread.EveryThreadReturns` | sims/cep_cosim/drivers/diag/cepMultiThread.cc:143-261 | A thread returns within a number of its own turns that the setup fixes, whatever the others do. |
| `MultiThread.BudgetFalls` | sims/cep_cosim/drivers/diag/cepMultiThread.cc:153-160 | Each turn uses up part of a budget built on the cores still to be claimed and the retries left. |
| `MultiThread.StepPreserves` | sims/cep_cosim/drivers/diag/cepMultiThread.cc:49-105 | Every access of every thread keeps the invariant that ties register and words to their holders. |
| `LockfreeAtomic.LanesCountExactly` | sims/cep_cosim/drivers/diag/cepLockfreeAtomic.cc:34-135 | From any initial word, in every interleaving: no mismatch is ever seen in a lane, and a core that is through has eight in its lane for good. |
| `LockfreeAtomic.ForeignLanesUntouched` | sims/cep_cosim/drivers/diag/cepLockfreeAtomic.cc:34-135 | Lanes of cores that take no part keep their bits: no carry crosses. |
| `LockfreeAtomic.NoMismatch` | sims/cep_cosim/drivers/diag/cepLockfreeAtomic.cc:34-82 | A core on course finds in its lane what it expects. |
| `LockfreeAtomic.OtherLanes` | sims/cep_cosim/drivers/diag/cepLockfreeAtomic.cc:34-135 | An atomic operation of one core changes no other lane. |
| `LockfreeAtomic.WaitSucceedsExactly` | sims/cep_cosim/drivers/diag/cepLockfreeAtomic.cc:84-135 | Some interleaving lets a core end the 32-bit test without error if and only if every lane without a core of its own holds eight from the start; otherwise every core that ends reports 0x100 in every interleaving. |
| `LockfreeAtomic.AllCanSucceed` | sims/cep_cosim/drivers/diag/cepLockfreeAtomic.cc:84-135 | In that case one core after the other, then one read each, lets all cores succeed. |
| `LockfreeAtomic.NoneSucceeds` | sims/cep_cosim/drivers/diag/cepLockfreeAtomic.cc:118-130 | A lane that is nobody's and not eight keeps every core from succeeding, in every interleaving. |
| `LockfreeAtomic.ThreeCoresFail` | sims/cep_cosim/drivers/diag/cepLockfreeAtomic.cc:84-135 | Three cores on a word that is zero: each that ends reports 0x100. |
| `LockfreeAtomic.ReadFindsEight` | sims/cep_cosim/drivers/diag/cepLockfreeAtomic.cc:118-125 | A read of the wait ends it if and only if all four lanes hold eight. |
| `LockfreeAtomic.FullMeansEight` | sims/cep_cosim/drivers/diag/cepLockfreeAtomic.cc:84-135 | The awaited word is the one with eight in every lane. |
| `Printf.Vprintfmt` | sims/cep_cosim/drivers/bare/syscalls.c:195-348 | For every format it ends, reads nothing behind the zero, and prints what Render says. |
| `Printf.ReadEscape` | sims/cep_cosim/drivers/bare/syscalls.c:217-276 | One escape: flags, width, precision, length and arguments taken, however many there are. |
| `Printf.PrintConversion` | sims/cep_cosim/drivers/bare/syscalls.c:278-346 | Each conversion prints its text; an unknown one is reported and prints nothing. |
| `Printf.PrintNum` | sims/cep_cosim/drivers/bare/syscalls.c:154-173 | Padding and the digits without leading zeros; the 64-entry buffer is never overrun. |
| `Printf.FillDigits` | sims/cep_cosim/drivers/bare/syscalls.c:157-165 | The digits in the buffer, lowest first, are those of the number; 64 places suffice for every base. |
| `Printf.PrintText` | sims/cep_cosim/drivers/bare/syscalls.c:284-296 | The text up to its precision, padded on the left or, with a dash, on the right. |
| `Printf.Strnlen` | sims/cep_cosim/drivers/bare/syscalls.c:427-433 | The shorter of text length and limit. |
| `Printf.Sprintf` | sims/cep_cosim/drivers/bare/syscalls.c:364-382 | The text printed and its length. |
| `PrintRead.Atol` | sims/cep_cosim/drivers/bare/syscalls.c:455-474 | Spaces, an optional sign, then every character up to the zero as a digit; no result on signed overflow. |
| `PrintRead.DigitsExact` | sims/cep_cosim/drivers/bare/syscalls.c:154-173 | Decimal digits have the value of the number and no leading zero. |
| `PrintRead.DigitsUnique` | sims/cep_cosim/drivers/bare/syscalls.c:154-173 | They are the only such text. |
| `PrintRead.ReadExactly` | sims/cep_cosim/drivers/bare/syscalls.c:455-474 | A printed number is read back if and only if it is not the most negative one and the padding is none, zeros, spaces before an unsigned number, or one dash before zero. |
| `PrintFormats.LongRoundTrip` | sims/cep_cosim/drivers/bare/syscalls.c:364-382 | atol(sprintf("%[flag][width]ld", n)) is n exactly under that condition, through the whole format scanner. |
| `PrintFormats.PlainRoundTrip` | sims/cep_cosim/drivers/bare/syscalls.c:364-382 | In particular always for "%ld" and zero-padded widths, for every long but the most negative. |
| `PrintFormats.FormatsJoin` | sims/cep_cosim/drivers/bare/syscalls.c:195-348 | Joining formats where no escape is cut joins what they print, the second with the arguments that are left. |
| `PrintFormats.PrecisionExactly` | sims/cep_cosim/drivers/bare/syscalls.c:234-271 | "%.<digits>s" cuts the text at its precision if and only if the precision is not zero or the text is empty: zeros behind the dot are taken for the zero flag. |
| `PrintForms.FormPrints` | sims/cep_cosim/drivers/bare/syscalls.c:195-348 | A format of one conversion, however its flags, width, precision and length are written, prints what the conversion letter says with them. |
| `PrintForms.TextPrinted` | sims/cep_cosim/drivers/bare/syscalls.c:284-296 | s lays the text, cut at a precision, into its field: spaces behind it for a dash, padding before it otherwise; (null) for the null pointer. |
| `PrintForms.NumberPrinted` | sims/cep_cosim/drivers/bare/syscalls.c:299-306 | d prints the argument, of 64 bits with an l and of 32 without, its sign before the padding. |
| `PrintForms.SignedIs` | sims/cep_cosim/drivers/bare/syscalls.c:185-193 | The argument is a long with an l, and its low 32 bits as an int without. |
| `PrintForms.CharacterPrinted` | sims/cep_cosim/drivers/bare/syscalls.c:279-281 | c prints the lowest byte of the argument, %% a percent sign, whatever the flags. |
| `PrintForms.UnknownPrinted` | sims/cep_cosim/drivers/bare/syscalls.c:342-345 | A percent sign before a letter that is no conversion is printed as it stands. |
| `PrintForms.PlainPrinted` | sims/cep_cosim/drivers/bare/syscalls.c:204-216 | A line feed is followed by a carriage return; other characters stand for themselves. |
| `PrintForms.StarPrinted` | sims/cep_cosim/drivers/bare/syscalls.c:256-258 | A star takes the width from the arguments. |
| `PrintDigits.DigitsValue` | sims/cep_cosim/drivers/bare/syscalls.c:154-173 | In every base the digits printed have the value of the number and no leading zero. |
| `PrintDigits.UnsignedPrinted` | sims/cep_cosim/drivers/bare/syscalls.c:309-334 | u, o, x and p print digits whose value in base 10, 8 and 16 is the argument, padded in front, p behind 0x. |
| `PrintDigits.UnsignedIs` | sims/cep_cosim/drivers/bare/syscalls.c:175-183 | The argument is reduced to 64 bits with an l, and to 32 without. |
| `PrintRead.PlusRead` | sims/cep_cosim/drivers/bare/syscalls.c:463-466 | A plus sign makes no difference to what is read. |
| `VecVal.VecVal.SetHex` | sims/cep_cosim/pli/VecVal.h:416-459 | For every text: each word of the vector holds the digits that belong to it, in both planes, and words beyond the text are zero; the word behind the vector is written, with the next digits, if and only if there are more digits than fit. |
| `VecVal.VecVal.FillWords` | sims/cep_cosim/pli/VecVal.h:441-457 | The loop with its own limit: at most one word more than the vector has, and that one exactly for texts that are too long. |
| `VecVal.NineDigitsTooMany` | sims/cep_cosim/pli/VecVal.h:445-457 | Nine hexadecimal digits for a vector of one word: the first digit goes into the word behind it. |
| `VecVal.VecVal.GetAsciiHex` | sims/cep_cosim/pli/VecVal.h:528-549 | As many digits as the width has, each the nibble of both planes at its place. |
| `VecVal.CleanUp` | sims/cep_cosim/pli/VecVal.h:424-437 | White space and underscores removed and letters lowered, in place from the end. |
| `VecVal.Ascii2Int` | sims/cep_cosim/pli/VecVal.h:308-354 | The positional value of the next digits from the right, and where they start. |
| `VecVal.HexRoundTrip` | sims/cep_cosim/pli/VecVal.h:416-549 | setHex then getAsciiHex: the hex, x and z digits come back in upper case behind zeros, over any number of words. |
| `VecVal.IgnoredAnywhere` | sims/cep_cosim/pli/VecVal.h:424-437 | White space and underscores make no difference wherever they stand. |
| `VecVal.TickBase` | sims/cep_cosim/pli/VecVal.h:369-391 | Everything up to a tick and its letter is dropped, and the letter gives the base. |
| `VecVal.CBase` | sims/cep_cosim/pli/VecVal.h:392-402 | Without a tick, everything up to the first 0x is dropped and the base is 16. |
| `VecVal.SixteenExactly` | sims/cep_cosim/pli/VecVal.h:369-405 | The base is sixteen if and only if the first tick is followed by h or x, or there is no tick and a 0x somewhere. |
| `VecVal.BareExactly` | sims/cep_cosim/pli/VecVal.h:399-401 | A text of up to eight digits without prefix gives the word it would give with one if and only if all digits but the last are zeros. |
| `VecVal.WordsFit` | sims/cep_cosim/pli/VecVal.h:319-354 | A word of digits of any base that is recognised fits in 32 bits, whatever characters stand there. |
| `VecValues.WordIsWorth` | sims/cep_cosim/pli/VecVal.h:308-354 | Each word is worth its group of figures, nine decimal, ten octal, thirty-two binary or eight hexadecimal ones, most significant first. |
| `VecValues.VectorIsWorth` | sims/cep_cosim/pli/VecVal.h:445-457 | A hexadecimal or binary text: the words, thirty-two bits each, are together its value. |
| `VecValues.HexText` | sims/cep_cosim/pli/VecVal.h:416-439 | Anything without a tick, a tick and h or x, and digits are taken as exactly these digits in base sixteen. |
| `VecValues.CaseIgnored` | sims/cep_cosim/pli/VecVal.h:433-435 | Letters count the same in either case. |
| `Uniquify.BfsCollectModules` | scripts/uniquify-module-names.py:35-48 | The worklist collects one name per node that is reachable without entering the ignored module, and nothing else. |
| `Uniquify.DfsUpdateModules` | scripts/uniquify-module-names.py:154-174 | In place on the nodes, with the value and result of Update; the shape stays. |
| `Uniquify.UpdateChild` | scripts/uniquify-module-names.py:157-164 | One instance of the recursive pass: skipped if it is the design under test, else updated and renamed. |
| `Uniquify.UpdateIsRename` | scripts/uniquify-module-names.py:154-174 | What the pass does is to rename exactly the common modules below the root that are reachable without entering the design under test. |
| `Uniquify.ModulesAfter` | scripts/uniquify-module-names.py:186-204 | The modules of the renamed model are the root and the new names of those below it. |
| `Uniquify.DisjointExactly` | scripts/uniquify-module-names.py:186-204 | If no top module carries the suffix, renamed model and top level share no module if and only if the root was not shared. |
| `Iir.DoFilter` | sims/cep_cosim/drivers/cep_tests/cep_iir.cc:127-148 | Stays in bounds for every filter length, and the output balances the difference equation at every sample, with rest before the start. |
| `Iir.OutputUnique` | sims/cep_cosim/drivers/cep_tests/cep_iir.cc:127-148 | The equation determines the output. |
| `Iir.FilterCausal` | sims/cep_cosim/drivers/cep_tests/cep_iir.cc:127-148 | Inputs that agree up to a sample give outputs that agree up to it. |
| `Iir.FilterLinear` | sims/cep_cosim/drivers/cep_tests/cep_iir.cc:127-148 | The output for a combination of inputs is the combination of the outputs. |
| `Iir.PulseShowsTaps` | sims/cep_cosim/drivers/cep_tests/cep_iir.cc:127-148 | Without feedback a pulse brings out the forward coefficients over the leading one. |
| `Iir.FeedbackDecays` | sims/cep_cosim/drivers/cep_tests/cep_iir.cc:127-148 | With one feedback coefficient -r a pulse brings out the powers of r. |

## Left out

- Rounding, memory exhaustion and the evaluation of sine and cosine in `fft.cc` and `cep_iir.cc`.
- `Fft_convolveReal`, `memcpy`, `memset`, `printhex`, binary output of `VecVal`, `regBaseTest.cc`, the 16- and 8-bit variants
  of the atomic test: simpler relatives of what is modelled.
- The second constructor of `cep_gps.cc` (63-93), which uses periods before it sets them.
- Gps.CepGps.SetSvNum, Gps.CepGps.SetPcodeXnInit: the register writes that tell the hardware.
- MailboxSafety.RemotePrintsExact: remote commands other than prints, which `send_v2c_mail` never acknowledges because it fixes
  its remote flag to 0 (`vpp2shMem.cc:197`), and slots that are initiator and target of requests at the same time
  (`mRemoteOffset` has both roles).
- MailboxSafety.LocalCommandsExact: shutdown, verbose printing, cycle counts, inactive slots and the semaphore variant of
  waiting; that a waiting caller is served under every fair schedule (some further steps always serve it:
  MailboxProgress.NeverStuck).
- The mailbox, the claiming threads and the atomic counters are state machines on values rather than classes, because every
  access is a step of its own; the retry delays are no steps.
- MemTest.MemBaseTest.WriteEntry: the bus routines behind the access, the base address they add, and the retry after a failed
  compare (the retry count is 0).
- MemTest.MemBaseTest.SetRandomPattern: the pseudo-random sequence is only a function of its seed; nothing is said about its
  range or distribution.
- `incPatTest`, `dump` and `Print` of the memory test, and configurations whose step is zero, whose width is not one of 8, 16,
  32 and 64, or whose addresses need more than 30 bits (the address count is a 32-bit `int`).
- SdCopy.Card.SdCopy: the SPI registers, the progress output and the button and scratch register that choose the block count.
- Playback.Recorder.WriteNCapture: the file syntax; addresses from 2^32 on, which the recorder truncates, are excluded. The
  one-argument `cep_readNcapture` has no return statement and is not modelled.
- Playback.CepPlayback: a cursor that runs behind the command array (excluded by its precondition).
- MultiThread.ZeroMeansAllClaimed: what the tests of the cores do, beyond an arbitrary error count; the setup by one thread is
  taken as finished; the `USE_ATOMIC` variant.
- Printf.Sprintf: the caller's buffer and its size; an integer overflow in a width or precision of more than nine digits; the
  argument list is a sequence of registers that does not end.
- PrintRead.Atol: signed overflow, undefined in C, has no result here; the negation of the most negative number when printing is
  taken as two's complement hardware does it.
- VecVal.VecVal.SetHex: warnings for illegal characters (they count as zero).
- VecVal.HexRoundTrip: other bases, whose words are not positional in 2^32; nibbles that mix known and unknown bits.
- Uniquify.DfsUpdateModules: the set of visited names, JSON files and file copies.

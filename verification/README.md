# Codec 2, the FDMDV modem tools and the edify helper, in Dafny

This project models the hard parts of the native code of a mesh telephone: the speech codec Codec 2 with its FFT,
its experimental amplitude quantiser and its bit layouts, the FDMDV modem's symbol, sync and framing layers, the
Golay code and the FIFO used with it, the decoder's channel simulator, and the configuration reader of the
ad-hoc networking helper. `dafny verify dfyconfig.toml` checks everything.

Code that works in place is modelled in place: arrays, classes with `modifies` clauses, and loops with invariants,
each proved against a specification. What is proved about the specifications is in the lemmas beside them.

| files | models | main results |
|---|---|---|
| `Complex`, `Modular`, `Dft`, `Radix`, `Butterflies`, `KissFft` | `kiss_fft.c` | for every length and plan the mixed-radix FFT computes the discrete Fourier transform; forward and inverse undo each other up to the length |
| `BitWords`, `GolayCode`, `Golay` | `golay23.c` | minimum distance seven, the decoding table is complete, every received word is decoded to the one codeword within three errors |
| `FecFrames` | `fec_enc.c`, `fec_dec.c` | protected bits survive up to three errors in each codeword |
| `Fifo` | `fifo.c` | one writer and one reader without locks: every interleaving delivers the accepted samples in order |
| `SparseVq`, `SplitOptimal`, `GainShape`, `Harmonics`, `AmpExperiment`, `SmoothAmp` | `ampexp.c` | optimality of the split and of the gain/shape search, exactly when harmonics keep a bin of their own, conservation, the delay line as a function of the whole history, energy conservation |
| `CfgSpec`, `CfgParser` | `install.c`, `GetCfgFn` | the destructive reader refines a pure specification; written files are read back |
| `BitPack`, `Interleaver` | `fdmdv_interleave.c` | two runs of the tool, one with "de", give every whole block back; which tables lose nothing |
| `Dqpsk`, `ModemSync`, `Reassembly`, `ModemLink` | `fdmdv.c`, `fdmdv_mod.c`, `fdmdv_demod.c` | exactly when symbols survive a channel, when sync is found and lost, and end-to-end delivery of codec frames |
| `FieldPack`, `Codec2Frames` | `pack.c`, `codec2.c` | Gray-coded fields round trip in all six modes; the spare bit |
| `FixedPoint` | `_kiss_fft_guts.h` | range, rounding and headroom of the fixed-point arithmetic |
| `ChannelErrors` | `c2dec.c` | errors counted exactly; the burst machine in closed form |
| `SpeechBuffers` | `codec2.c` | the sliding window and the limiter |

Real numbers stand for floating-point numbers. Library functions such as `log10`, `pow`, `sqrt`, `cabs` and `cos` are
parameters with the one or two properties that are used. Memory that the source leaves uninitialised is arbitrary.

## Where the code and its documentation differ

- `pack.c` says that unpacking works for fields of at most 8 bits. It works exactly for values of at most 16 bits
  (`FieldPack.GrayInverse`); mode 1200 relies on 9.
- `codec2.c` gives bit 15 as the place of the third voicing bit in mode 1600. The layout puts it at bit 14
  (`Codec2Frames.SpareBitPlace`), so rebuilding it goes wrong unless nothing would change (`Codec2Frames.SpareBit`).
- `golay23.c` says the decoder returns 12 data bits. It returns the corrected codeword of 23 bits, whose first 12 are
  the data.
- `install.c` promises "" for a key that is not defined. A file without any line dereferences a null pointer
  (`CfgParser.NoLines`), and a line without '=' before the key aborts (`CfgSpec.MalformedIs`).
- `ampexp.c` calls the gain of the gain/shape search optimal. It is for the plain error. For the weighted error that is
  compared it is optimal exactly when the weighted mean equals the plain one (`GainShape.GainWeighted`), and it can miss
  it (`GainShape.GainNotWeighted`).
- `c2dec.c` asserts `nend_bit <= nbit`, which allows one position too many when the frame fills its last byte
  (`ChannelErrors.PositionsInside`), as in a mode of 64 bits (`ChannelErrors.OneTooFar`).
- `ampexp.c` asserts that bins are in range, which does not keep harmonics apart. They are apart exactly when the last
  one has room for those before it (`Harmonics.OwnBinsIs`).
- `ampexp.c` shifts `model_uq` one element past its end; the model shifts the elements there are. The element read
  from beyond is overwritten before it is used.

## Model

| member | source | states |
|---|---|---|
| `KissFft.KfFactor` | jni/codec2/kiss_fft.c:309-330 | the plan multiplies up to the length, its radices are 4 or prime, and it is no longer than the base-2 logarithm of the length |
| `Butterflies.Bfly2` | jni/codec2/kiss_fft.c:21-42 | combines two half-length transforms into one, every bin the transform's definition |
| `Butterflies.Bfly3` | jni/codec2/kiss_fft.c:92-134 | the same for radix 3, whose constants follow from the twiddles alone |
| `Butterflies.Bfly4` | jni/codec2/kiss_fft.c:44-90 | the same for radix 4, forward and inverse |
| `Butterflies.Bfly5` | jni/codec2/kiss_fft.c:136-195 | the same for radix 5 |
| `Butterflies.BflyGeneric` | jni/codec2/kiss_fft.c:198-235 | the same for every radix, with the wrapping twiddle index |
| `Dft.Decimate` | jni/codec2/kiss_fft.c:238-302 | decimation in time: a transform of composite length from the transforms of the strided inputs |
| `KissFft.KfWork` | jni/codec2/kiss_fft.c:238-302 | the recursion leaves the transform of the strided input in its part of the output and nothing else changes |
| `KissFft.KissFftStride` | jni/codec2/kiss_fft.c:371-383 | every output bin is the discrete Fourier transform of the strided input, for every length and plan |
| `KissFft.Fft` | jni/codec2/kiss_fft.c:339-388 | planning and transforming together: for every length and table the output is the discrete Fourier transform |
| `Dft.Inversion` | jni/codec2/kiss_fft.c:339-368 | the transform with conjugate twiddles of a transform is the length times the input |
| `KissFft.RoundTrip` | jni/codec2/kiss_fft.c:339-383 | inverse after forward gives every sample back times the length |
| `KissFft.FourPointTable` | jni/codec2/kiss_fft.c:339-368 | the four quarter turns, forward and inverse, have every property asked of twiddles |
| `Golay.GetSyndrome` | jni/codec2/golay23.c:134-154 | the remainder of polynomial division by the generator |
| `GolayCode.CodewordSyn` | jni/codec2/golay23.c:134-154 | a word is a multiple of the generator exactly when its syndrome is zero |
| `GolayCode.MinDistance` | jni/codec2/golay23.c:19-38 | every nonzero codeword has at least seven ones |
| `GolayCode.SynInjective` | jni/codec2/golay23.c:19-38 | error patterns of at most three ones have different syndromes |
| `Golay.NextComb` | jni/codec2/golay23.c:116-132 | the next combination in order: the rightmost entry that can grows by one and those after it restart |
| `Golay.RankStep` | jni/codec2/golay23.c:116-132 | each step raises the rank by one, so that no combination is skipped or repeated |
| `Golay.Arr2Int` | jni/codec2/golay23.c:97-114 | the word with ones at exactly the given positions |
| `Golay.Perfect` | jni/codec2/golay23.c:19-38 | 1 + 23 + 253 + 1771 patterns fill all 2048 entries of the table |
| `Golay.Golay23.Init` | jni/codec2/golay23.c:166-232 | both tables are complete: a codeword for every data word, a pattern of at most three errors for every syndrome |
| `Golay.Golay23.Encode` | jni/codec2/golay23.c:245-251 | a codeword that starts with the data |
| `Golay.CodewordOfData` | jni/codec2/golay23.c:245-251 | every codeword is the encoding of its first twelve bits |
| `Golay.Golay23.Decode` | jni/codec2/golay23.c:263-268 | for every received word the only codeword that differs from it in at most three bits |
| `Golay.CountErrors` | jni/codec2/golay23.c:270-283 | the number of differing bits |
| `Golay.Channel` | jni/codec2/golay23.c:245-283 | data survives any three bit errors, and the errors are counted |
| `FecFrames.Protect` | jni/codec2/fec_enc.c:152-268 | the codec frame, followed by parity bits that complete a codeword with bits 0-11 and one with 12-23 in mode 2000, with bits 0-7 and 11-14 and one with 16-27 in 1850, and with bits 0-7 and 11-14 in 1600; the rest as the source leaves it |
| `FecFrames.GuardedIs` | jni/codec2/fec_enc.c:170-262 | which bits a mode protects: the first 24 in 2000; 0-7, 11-14 and 16-27 in 1850; 0-7 and 11-14 in 1600 |
| `FecFrames.Recover` | jni/codec2/fec_dec.c:154-271 | the data bits of each codeword are those of the codeword within three errors, the other bits as received |
| `FecFrames.Transmit` | jni/codec2/fec_dec.c:154-271 | with at most three errors on the bits of each codeword exactly those bits arrive as sent, and the others show exactly the errors on them |
| `Fifo.Fifo.constructor` | jni/codec2/fifo.c:44-57 | a new FIFO is empty |
| `Fifo.Fifo.Write` | jni/codec2/fifo.c:65-97 | all of the data is appended, or none, exactly when one place would not stay free |
| `Fifo.Fifo.Read` | jni/codec2/fifo.c:99-126 | the oldest samples are removed, or none, exactly when there are too few |
| `Fifo.UsedIs` | jni/codec2/fifo.c:128-141 | the two pointers alone give the number of samples, across any number of wraps |
| `Fifo.InvKept` | jni/codec2/fifo.c:65-141 | an invariant every step of either thread keeps |
| `Fifo.ThreadSafe` | jni/codec2/fifo.c:6-11 | under every interleaving the samples received are a prefix of those sent, and never more than the size less one wait |
| `Fifo.WriteAccepted` | jni/codec2/fifo.c:76-80 | a concurrent write is refused exactly when there is no room at the moment it looks |
| `Fifo.ReadAccepted` | jni/codec2/fifo.c:108-110 | a concurrent read is refused exactly when there are too few samples at the moment it looks |
| `Fifo.WriteCompletes` | jni/codec2/fifo.c:81-96 | an accepted write sends all its data in its own steps, whatever the reader does |
| `Fifo.ReadCompletes` | jni/codec2/fifo.c:111-125 | an accepted read delivers the samples it asked for in its own steps |
| `SparseVq.VqAmp` | jni/codec2/ampexp.c:403-432 | the first run of the table of least weighted squared distance from the nonzero bins, or codeword 0 when all are beyond the limit; its plain distance, or the limit, is added to the sum |
| `SparseVq.SearchBest` | jni/codec2/ampexp.c:403-432 | the first codeword of least masked weighted error, or codeword 0 when all are beyond 1E32 |
| `SparseVq.SearchCheapest` | jni/codec2/ampexp.c:411-427 | in terms of the numbers of the table: codeword j is its j-th run of k numbers, and the first run of least weighted squared distance from the nonzero bins is found |
| `SparseVq.SplitVq` | jni/codec2/ampexp.c:435-454 | input and output change by the chosen codeword at the nonzero bins of the band and nowhere else; the count is theirs |
| `SparseVq.NonZeroIs` | jni/codec2/ampexp.c:442-452 | the count of a band is the number of its nonzero bins |
| `SparseVq.SplitFive` | jni/codec2/ampexp.c:574-579 | the five calls on shared arrays reach the state the specification gives |
| `SplitOptimal.BandIndex` | jni/codec2/ampexp.c:574-579 | although the arrays are edited in between, each band is searched on the original spectrum |
| `SplitOptimal.SplitOptimal` | jni/codec2/ampexp.c:574-579 | the five indexes minimise the error of the whole spectrum over all tuples of codewords exactly when each band has a codeword within the limit or codeword 0 is closest anyway |
| `SplitOptimal.SpreadIs` | jni/codec2/ampexp.c:443-452 | the spectrum a tuple of indexes stands for has in each band the numbers of its codeword |
| `SplitOptimal.ErrorIs` | jni/codec2/ampexp.c:411-427 | the error that is minimised is the weighted squared distance of that spectrum from the nonzero bins |
| `SplitOptimal.Conserved` | jni/codec2/ampexp.c:443-452 | residual plus output is the original at every bin, and zero bins stay zero |
| `SplitOptimal.OutputIs` | jni/codec2/ampexp.c:443-452 | the output at a nonzero bin is the entry of the codeword chosen for its band |
| `SplitOptimal.CountIs` | jni/codec2/ampexp.c:442-452 | the statistics grow by the number of originally nonzero bins |
| `SplitOptimal.WeightsIrrelevant` | jni/codec2/ampexp.c:541-561 | weights at zero bins, which are never set, have no influence |
| `Harmonics.InRangeIs` | jni/codec2/ampexp.c:553-561 | the assertion on the bins holds exactly when the last harmonic is below half the sampling frequency |
| `Harmonics.Increasing` | jni/codec2/ampexp.c:553-561 | when the last harmonic has room for those before it, bins strictly increase |
| `Harmonics.OwnBinsIs` | jni/codec2/ampexp.c:553-561 | the bins of the harmonics 1 to l are pairwise different exactly when 80 l Wo / PI is at least l - 1 |
| `Harmonics.LowestPitch` | jni/codec2/sine.c:259-260 | at the lowest pitch the 80 harmonics have the bins 0 to 79, although they are less than a bin apart |
| `Harmonics.GatherScatter` | jni/codec2/ampexp.c:553-601 | under that condition gathering what was scattered gives every value back |
| `Harmonics.LosslessIs` | jni/codec2/ampexp.c:553-601 | gathering undoes scattering for all values exactly under that condition |
| `Harmonics.Collision` | jni/codec2/ampexp.c:553-561 | a frame on the other side of it: two harmonics share a bin and the first is lost |
| `AmpExperiment.Aexp.constructor` | jni/codec2/ampexp.c:220-229 | the delay line starts with the initial frames |
| `AmpExperiment.Aexp.SparseVqAmp` | jni/codec2/ampexp.c:536-603 | indexes, level and amplitudes are a function of the frame alone |
| `AmpExperiment.InterpSplitVq` | jni/codec2/ampexp.c:748-760 | the mean of two quantised spectra at the nonzero bins of a band |
| `AmpExperiment.Aexp.VqInterp` | jni/codec2/ampexp.c:763-851 | the output and the shifted delay line in terms of the old one |
| `AmpExperiment.AnyScratch` | jni/codec2/ampexp.c:767-816 | the interpolated frame does not depend on the uninitialised scratch array |
| `AmpExperiment.Aexp.Experiment` | jni/codec2/ampexp.c:1041-1091 | after every call of a run the output is a function of all frames so far, and the lengths compared for the statistics are equal |
| `AmpExperiment.EvenFrame` | jni/codec2/ampexp.c:781-820 | an even frame is the frame before with, at every bin of nonzero dB value, the mean of the quantised spectra around it |
| `AmpExperiment.OddFrame` | jni/codec2/ampexp.c:838-839 | an odd frame, or any frame without the option, is the frame before with its amplitudes quantised |
| `AmpExperiment.FirstFrame` | jni/codec2/ampexp.c:220-229 | what the first call puts out: the initial frame, or one interpolated from codewords 0 at level 1 and the input |
| `AmpExperiment.OwnBin` | jni/codec2/ampexp.c:553-561 | for harmonics with bins of their own the level, the weight and the dB value at a bin are the harmonic's own |
| `AmpExperiment.FrameEnergy` | jni/codec2/ampexp.c:337-350 | the level of a frame is that of its energy divided by the number of its harmonics |
| `AmpExperiment.QuantisedAmplitude` | jni/codec2/ampexp.c:596-601 | the amplitudes of any quantised frame are those of its codewords at its own level, or the level where a bin is exactly at it |
| `AmpExperiment.FrameOptimal` | jni/codec2/ampexp.c:553-579 | the indexes of a frame are the best for its sparse spectrum |
| `AmpExperiment.FrameCount` | jni/codec2/ampexp.c:536-579 | every nonzero bin of a frame is counted once |
| `GainShape.GainShapeVqAmp` | jni/codec2/ampexp.c:629-675 | the first codeword of least weighted error at its own gain, with that gain and its plain error added; the gain is left alone beyond the limit |
| `GainShape.ShapeIs` | jni/codec2/ampexp.c:643-669 | what is compared is the distance of the run of the table raised by its gain; there is a gain exactly when the band has a nonzero bin |
| `GainShape.GainOptimal` | jni/codec2/ampexp.c:643-652 | the computed gain is the only minimiser of the plain squared error over all gains |
| `GainShape.ErrorAround` | jni/codec2/ampexp.c:643-663 | any other gain costs the number of bins times the squared distance |
| `GainShape.WeightedOptimal` | jni/codec2/ampexp.c:656-669 | a gain minimises the weighted error exactly when the weighted rest it leaves is zero |
| `GainShape.GainWeighted` | jni/codec2/ampexp.c:643-669 | the computed gain minimises the weighted error exactly when the weighted mean of the differences equals it |
| `GainShape.GainNotWeighted` | jni/codec2/ampexp.c:643-669 | two bins for which another gain has less weighted error |
| `SmoothAmp.FindBin` | jni/codec2/ampexp.c:982-985 | the one bin whose edges enclose the frequency, found exactly up to 4 kHz |
| `SmoothAmp.BinIs` | jni/codec2/ampexp.c:977-985 | in radians which harmonics are left alone, which are beyond the table, and which bin the others have |
| `SmoothAmp.SmoothAmp` | jni/codec2/ampexp.c:957-1016 | defined exactly when no harmonic is above the table of edges; then harmonics above the first edge get the root mean square of their bin, and the others stay |
| `SmoothAmp.BinEnergy` | jni/codec2/ampexp.c:957-1016 | every bin keeps its energy |
| `SmoothAmp.FrameEnergy` | jni/codec2/ampexp.c:957-1016 | the frame keeps its energy |
| `CfgParser.StrTok` | jni/adhoc-edify/install.c:487-522 | the next nonempty line of the text, terminated in place, with the rest of the buffer as read |
| `CfgParser.ReadLine` | jni/adhoc-edify/install.c:489-517 | what a line says about a key, writing nothing outside the line |
| `CfgParser.GetCfg` | jni/adhoc-edify/install.c:487-524 | over the characters of the text: aborts exactly when a line with a first character other than # and no '=' comes before the key; returns the value of the first line with the key, or "" without one; fails on a text without lines |
| `CfgParser.NoLines` | jni/adhoc-edify/install.c:487-490 | the null pointer is reached exactly for texts of newlines only |
| `CfgSpec.LeadingSpace` | jni/adhoc-edify/install.c:489-490 | white space before a line changes nothing |
| `CfgSpec.TrailingSpace` | jni/adhoc-edify/install.c:514-517 | white space after a line changes nothing |
| `CfgSpec.LineDropped` | jni/adhoc-edify/install.c:492-493 | comments, blank lines and lines of other keys can be added anywhere |
| `CfgSpec.MalformedIs` | jni/adhoc-edify/install.c:492-500 | a lookup aborts exactly when a line that is not blank, not a comment and has no '=' comes before any line with the key |
| `CfgSpec.BrokenIs` | jni/adhoc-edify/install.c:492-500 | a line is malformed exactly when it has no '=' and its first character that is not white space is not # |
| `CfgSpec.AssignsIs` | jni/adhoc-edify/install.c:502-517 | a line has a value for a key exactly when it is the key, '=' and the value with white space around them, cut at the first '=' |
| `CfgSpec.ValueIs` | jni/adhoc-edify/install.c:487-524 | a value is returned exactly when the first line with the key has it, or it is empty and no line has the key |
| `CfgSpec.RoundTrip` | jni/adhoc-edify/install.c:435-439 | a file written with any white space, comments and blank lines gives the first value of each key back |
| `CfgParser.WrittenAndRead` | jni/adhoc-edify/install.c:487-524 | the same through the reader itself |
| `BitPack.Unpack` | jni/codec2/fdmdv_interleave.c:110-119 | the bits of the bytes, most significant first |
| `BitPack.BitOrder` | jni/codec2/fdmdv_interleave.c:110-119 | bit 0 of a byte is its most significant |
| `BitPack.Pack` | jni/codec2/fdmdv_interleave.c:126-136 | bytes with exactly the given bits |
| `BitPack.BitsDetermine` | jni/codec2/fdmdv_interleave.c:108-137 | bytes with the same bits are the same, so that packing undoes unpacking |
| `Interleaver.LoadTable` | jni/codec2/fdmdv_interleave.c:83-103 | for every file the table as it stands, or with "de" the last place of each value; which files write outside the array, are too big or do not fill bytes |
| `Interleaver.LoadedWithin` | jni/codec2/fdmdv_interleave.c:83-103 | whatever the stack held, all entries are usable exactly when the file is within range, or with "de" a permutation |
| `Interleaver.FilledInverse` | jni/codec2/fdmdv_interleave.c:86-88 | a permutation fills the inverse table completely |
| `Interleaver.ShuffleBlock` | jni/codec2/fdmdv_interleave.c:108-137 | output bit i is input bit table[i] |
| `Interleaver.Tool` | jni/codec2/fdmdv_interleave.c:83-145 | for every file and input which outcome: refused, endless, undefined, or all whole blocks shuffled in order |
| `Interleaver.BothWays` | jni/codec2/fdmdv_interleave.c:83-145 | a run and then a run the other way round, in either order, give every whole block of any input back |
| `Interleaver.StreamRoundTrip` | jni/codec2/fdmdv_interleave.c:105-145 | shuffling any stream by a table and by its inverse gives its whole blocks back |
| `Interleaver.InverseBack` | jni/codec2/fdmdv_interleave.c:86-88 | the inverse of the inverse table is the table, so that the order does not matter |
| `Interleaver.LosslessIs` | jni/codec2/fdmdv_interleave.c:123-124 | a table loses no information exactly when its entries are distinct |
| `Dqpsk.BitsToSymbols` | jni/codec2/fdmdv.c:332-373 | each symbol is the previous one times the phase step of its two bits; the pilot bit is turned over |
| `Dqpsk.StepIs` | jni/codec2/fdmdv.c:340-360 | the steps are no turn, a quarter forward, a half and a quarter back, by the mapping |
| `Dqpsk.SymbolsToBits` | jni/codec2/fdmdv.c:997-1066 | two bits from the sector the phase difference lies in, whatever the amplitudes, and the pilot's bit from its half plane |
| `Dqpsk.PairsReceived` | jni/codec2/fdmdv.c:1014-1045 | all pairs of bits are received as sent, under either mapping, exactly when the carrier turns by less than 45 degrees |
| `Dqpsk.PilotReceived` | jni/codec2/fdmdv.c:1049-1058 | both values of the pilot's bit are received exactly when it turns by less than a right angle |
| `ModemSync.Sync.FreqState` | jni/codec2/fdmdv.c:1198-1259 | a mark exactly after the bits 010101, and one step of the state machine |
| `ModemSync.MarksApart` | jni/codec2/fdmdv.c:1204-1213 | marks closer than six frames are an even number of frames apart, whatever the bits |
| `ModemSync.MarksAlternate` | jni/codec2/fdmdv.c:1204-1213 | alternating pilot bits give marks on second halves only |
| `ModemSync.HardToEnterAndLeave` | jni/codec2/fdmdv.c:1215-1249 | sync becomes good only after 26 unique words in a row and is lost only after 51 misses in a row |
| `ModemSync.SureToEnterAndLeave` | jni/codec2/fdmdv.c:1215-1249 | and then surely, from any state a run can reach |
| `Reassembly.Demod.Frame` | jni/codec2/fdmdv_demod.c:181-208 | one modem frame is kept as a first half or completes a codec frame |
| `Reassembly.AfterMark` | jni/codec2/fdmdv_demod.c:181-208 | for every initial flag, after the first mark every second modem frame and no other completes a codec frame of the last two |
| `Reassembly.AtFirstMark` | jni/codec2/fdmdv_demod.c:181-208 | what the first mark itself completes, by the initial flag and the parity |
| `ModemLink.Modulate` | jni/codec2/fdmdv_mod.c:105-127 | the two halves of a codec frame |
| `ModemLink.FrameArrives` | jni/codec2/fdmdv.c:1014-1058 | over steady carriers a frame and its pilot bit arrive as sent |
| `ModemLink.Delivered` | jni/codec2/fdmdv_demod.c:181-208 | end to end, every codec frame from the fifth on comes out as sent and once |
| `FieldPack.GrayInverse` | jni/codec2/pack.c:98-104 | Gray code is undone exactly for values of at most sixteen bits |
| `FieldPack.GrayNext` | jni/codec2/pack.c:53-56 | values that follow each other have codes that differ in one bit |
| `FieldPack.Pack` | jni/codec2/pack.c:47-72 | the bits of the Gray code are or-ed in at the cursor, across bytes, and no other bit changes |
| `FieldPack.Unpack` | jni/codec2/pack.c:77-105 | the field at the cursor, back from Gray code |
| `FieldPack.PackUnpack` | jni/codec2/pack.c:47-105 | unpacking gives back what was packed into clear bits |
| `Codec2Frames.FrameFilled` | jni/codec2/codec2.c:180-195 | in every mode the encoder's fields fill the frame exactly |
| `Codec2Frames.LayoutsAgree` | jni/codec2/codec2.c:322-1248 | in every mode the decoder reads the encoder's fields in the same places and leaves only spare bits |
| `Codec2Frames.HeadPlaces` | jni/codec2/codec2.c:322-1248 | width and first bit of every voicing, pitch and energy field in every mode |
| `Codec2Frames.TailPlaces` | jni/codec2/codec2.c:322-1248 | width and first bit of every LSP field and of the spare bits |
| `Codec2Frames.Encode` | jni/codec2/codec2.c:304-340 | clears and packs all fields of a mode |
| `Codec2Frames.Decode` | jni/codec2/codec2.c:378-390 | reads the fields of a mode one after the other |
| `Codec2Frames.FrameRoundTrip` | jni/codec2/codec2.c:322-1248 | in every mode every field is decoded to the value encoded under the same name |
| `Codec2Frames.SpareBitPlace` | jni/codec2/codec2.c:1444-1461 | the documented place of the third voicing bit is right in modes 1300 and 1400, wrong in 1600, where bit 15 holds the fourth, and absent in the others |
| `Codec2Frames.RebuildSpareBit` | jni/codec2/codec2.c:1468-1514 | bit 2 in 1300 becomes 1 exactly when bit 1 or bit 3 is set, and 0 otherwise; bit 10 from 1 and 11 in 1400, bit 15 from 1 and 16 in 1600; other modes are refused and leave the bits alone |
| `Codec2Frames.SpareBit` | jni/codec2/codec2.c:1468-1514 | the third voicing bit becomes the or of its neighbours in 1300 and 1400, and in 1600 exactly when neither bit 14 nor bit 15 would change |
| `Codec2Frames.SpareBitLost` | jni/codec2/codec2.c:1501-1510 | a frame for which mode 1600 goes wrong |
| `FixedPoint.SroundNearest` | jni/codec2/_kiss_fft_guts.h:65-65 | rounding is within half a unit |
| `FixedPoint.SroundFits` | jni/codec2/_kiss_fft_guts.h:65-65 | a value fits after rounding exactly when it lies within SAMP_MAX units and half a unit |
| `FixedPoint.CMulInRange` | jni/codec2/_kiss_fft_guts.h:64-71 | for moduli up to SAMP_MAX and one more both parts stay in range and within half a unit of the exact product, for any number of fraction bits |
| `FixedPoint.CMulFits` | jni/codec2/_kiss_fft_guts.h:69-71 | each part of a product fits exactly when its sum of products does so |
| `FixedPoint.CMulOverflow` | jni/codec2/_kiss_fft_guts.h:69-71 | parts in range alone are not enough |
| `FixedPoint.IntermediateFits` | jni/codec2/_kiss_fft_guts.h:45-71 | the sums of products fit 32 and 64 bits for all parts in range |
| `FixedPoint.DivScalarBound` | jni/codec2/_kiss_fft_guts.h:73-78 | a divided sample is at most the quotient of SAMP_MAX |
| `FixedPoint.DivScalarIs` | jni/codec2/_kiss_fft_guts.h:73-78 | k times a divided sample is within three halves of k of the sample |
| `FixedPoint.Headroom` | jni/codec2/_kiss_fft_guts.h:73-117 | up to k samples divided by k can be added and subtracted in any order and grouping without overflow anywhere |
| `FixedPoint.Accuracy` | jni/codec2/_kiss_fft_guts.h:73-117 | and the result is the exact sum divided by k, off by at most one and a half for every sample |
| `FixedPoint.NoHeadroom` | jni/codec2/_kiss_fft_guts.h:73-117 | one sample more than the divisor can overflow, also on the way to a result in range |
| `ChannelErrors.Inject` | jni/codec2/c2dec.c:143-156 | exactly the drawn positions are turned over, and their number is the Hamming distance, unless one is outside the bytes |
| `ChannelErrors.PositionsInside` | jni/codec2/c2dec.c:107-145 | positions up to nend_bit stay inside the bytes of a frame exactly when nend_bit is below nbit or the last byte is not full |
| `ChannelErrors.OneTooFar` | jni/codec2/c2dec.c:136-150 | in a mode of 64 bits position 64 is outside and position 63 inside |
| `ChannelErrors.Simulator.Uniform` | jni/codec2/c2dec.c:143-156 | over any run the errors counted are the sum of the Hamming distances, and every position is counted once |
| `ChannelErrors.Simulator.TwoState` | jni/codec2/c2dec.c:158-194 | clear frames are not altered; the machine's state is that of the closed form |
| `ChannelErrors.BurstPattern` | jni/codec2/c2dec.c:158-194 | the whole run in closed form: a cycle of t frames of which the first c are clear |
| `ChannelErrors.CycleIs` | jni/codec2/c2dec.c:158-194 | c and t as quotients of the burst times and the frame time |
| `ChannelErrors.BurstBounds` | jni/codec2/c2dec.c:158-194 | bursts last at most length/dt + 1 frames and the timer never exceeds period + 2 dt |
| `SpeechBuffers.Analysis.Shift` | jni/codec2/codec2.c:1358-1361 | the window is the last 320 samples of 320 ones and all speech so far, sample by sample |
| `SpeechBuffers.EarProtection` | jni/codec2/codec2.c:1401-1426 | one gain for the frame and no sample above 30000 |
| `SpeechBuffers.GainIs` | jni/codec2/codec2.c:1413-1423 | the gain is between 0 and 1 and takes a peak above the set point as far below it |
| `SpeechBuffers.Synthesised` | jni/codec2/codec2.c:1323-1332 | every output is the limited sample without its fraction, or -32767 when the lower clip acts; all output lies between -32767 and 30000, so that the upper clip never acts |
| `SpeechBuffers.LowerClip` | jni/codec2/codec2.c:1323-1332 | exactly when the lower clip acts |
| `SpeechBuffers.ClippedFrame` | jni/codec2/codec2.c:1326-1327 | a frame on which it does |

## Left out

- The level of a frame without harmonics, for which the source divides by zero: it is arbitrary.
- Floating-point rounding: amplitudes, metrics and transforms are over the reals.
- Twiddle tables: taken as exact powers of a root of unity with the imaginary unit at a quarter turn, which the cosines and sines of kiss_fft_alloc stand for.
- Output over the input of the FFT: the input is read as it was at the call, which the source arranges with a buffer of its own.
- Fixed-point FFT as a whole: only the arithmetic is modelled; a rotated sample can exceed the range of its parts between two butterflies.
- Negative counts in the FIFO, which copy nothing.
- Memory order between the two threads of the FIFO: each step of a thread is atomic and seen by the other at once.
- ModemLink.Delivered: does not model the filters, timing recovery and frequency correction of the modem between its symbol streams, because the channel acts on symbols.
- The signal-to-noise statistics and the fine frequency estimate of the modem.
- What smooth_amp reads beyond its table of edges for a frequency above 4 kHz: the model stops there with an outcome of its own.
- The other experiments of ampexp.c (prediction, noise, training, sample smoothing) and its statistics vq_var and snr.
- Analysis, LPC, LSP, NLP, phase and postfilter routines of the codec, and the data of its codebooks; the layouts use their sizes only.
- File, argument and process handling in every main program, the JNI glue, and the rest of the ad-hoc networking helper.
- Characters beyond ASCII in the configuration reader: white space is that of the C locale.
- Simulation tools c2sim.c and c2demo.c, dump.c and the test bit generators, which repeat loops modelled here.

# EF2SDK: a verified model of its runtime core

EF2SDK is a freestanding runtime for a console with two processors. This project models the parts of it that are
algorithms rather than hardware access, in Dafny, and proves what they promise:

- **Heap** (`Machine`, `ByteMemory`, `HeapBlocks`, `HeapImage`, `HeapContents`, `Heap`, `HeapRuns`,
  `HeapCalls`, `HeapBorrow`).
  The first-fit allocator is a class over one byte array: its headers are little-endian words in that array, and every
  method reads and writes them there. A ghost list of blocks says what the bytes mean. The theorems about whole runs
  are about that list; `HeapCalls` performs any sequence of calls on the object and ties it to them.
- **Sample-rate converter** (`Resampler`, `ResamplerStream`, `ResamplerRange`, `ResamplerCalls`). The bit-serial
  divider, the converter object with its Q32 phase, and the theory of streams: any way of cutting a source into calls
  gives a prefix of the output of one call. `ResamplerRange` says at which rates no stream wraps the phase or an index.
- **Audio service** (`AudioRing`, `AudioService`, `AudioSteps`, `AudioDelivery`, `AudioCalls`, `AudioBlocks`,
  `AudioPlayback`, `AudioRace`). `AudioService` is the
  model of the concurrency: the RPC thread, the play thread and the DMA interrupt as atomic steps, in any order.
  `AudioRing` is the sequential code of one critical section on real arrays, and `AudioSteps` proves that a critical
  section run without interruption does to the queue what the atomic steps do. `AudioDelivery` follows the accepted
  frames to the blocks that are filled, `AudioCalls` says what each request has done at its return, `AudioBlocks` which
  runs play whole blocks only, `AudioPlayback` what is heard while the play thread keeps up, and `AudioRace` what can go
  wrong without priorities.
- **Formatter and stream output** (`Numerals`, `FormatText`, `Format`, `FormatLaws`, `FormatDirectives`, `Stdio`). `Render` says what text a
  format and its arguments mean; the digit loops, the bounded formatter and the measure-allocate-format-write path of
  stream output are proved against it. `FormatDirectives` says what each directive prints, in a reader's terms.
- **Transports** (`Crc7`, `DebugLog`, `StorageTransfer`). The command CRC as polynomial division, the log ring as the
  last bytes of everything written, and file transfers chunked twice.
- **Video memory and uploads** (`VramLayout`, `GifStream`, `Video`). The framebuffer layout, the texture allocator, and
  the packet stream of an upload, read back by a decoder.

`dafny verify dfyconfig.toml` checks everything. Integers are unbounded in Dafny, so every wrap-around, truncation and
saturation of the C code that can happen is written out.

## Findings

Where the code does not have the property its other parts suggest, the exact condition is proved instead.

- `ef2_realloc` rounds its size without the guard that `ef2_malloc` has (`src/ee/runtime/heap.c:309`, `:203`). A size
  above 0xFFFFFFF0 rounds to 0, and the call "succeeds" by cutting the block down to no payload. `HeapRuns.ReallocRoom`
  proves that a successful call gives the room asked for if and only if the size is at most 0xFFFFFFF0,
  `HeapRuns.OversizedRealloc` what happens otherwise, and `HeapRuns.StepRoomy` exactly which calls leave a block without
  payload.
- The shrinking path of `ef2_realloc` does not merge the tail it splits off (`src/ee/runtime/heap.c:312-315`). When the
  successor is free, two free neighbours remain, and freeing other blocks never joins them. `HeapRuns.StepCoalesced`
  proves that this is the only way to get free neighbours, and `HeapRuns.FreeAllExactly` that freeing everything restores
  the fresh heap if and only if the run has left none. `HeapRuns.ShrinkFragments` gives three calls after which an empty
  heap is in two pieces; `HeapRuns.ReuseJoins` shows that allocating one of them and freeing it joins them again.
- `audio_start` clears the playback buffer byte by byte under no lock (`src/iop/audio/src/main.c:290`, `:44-51`). If the
  play thread is on its way when that begins, the clear can wipe part of a block it fills, and a torn block is played:
  `AudioRace.PrioritiesNeeded` constructs the run. What excludes it is that the play thread has the higher priority (38
  against 40, `src/iop/audio/src/main.c:211`, `:553`); `AudioBlocks.PrioritiesPlayWholeBlocks` proves that this suffices,
  and `AudioBlocks.PlaysWholeBlocks` that it is enough for every start to find the play thread asleep.
- The converter's index test adds 1 to a 32-bit index (`src/ee/audio/audio.c:182`), and its phase is 64 bits wide
  (`:206`). `Resampler.LoopExactly` proves that the loop does what it should exactly when neither wraps where it stops.
  At an input rate of 2^32 - 1 and an output rate of 1 it does not: `Resampler.WrapReadsThrough` gives a call on two
  frames that reads past them. `ResamplerRange.RatesExactly` proves that with calls on at most n frames every call of
  every stream is in range if and only if the output rate is at least 2 or the input rate at most 2^32 - n; with one
  channel memory limits n to 2^31.

## Model

| member | source | states |
|---|---|---|
| `ByteMemory.Memory.LoadWord` | src/ee/runtime/heap.c:11-20 | a header field read from memory is the little-endian value of its four bytes |
| `Heap.Heap.Init` | src/ee/runtime/heap.c:150-188 | the region is aligned inward and becomes one free block, or -1 without memory, -2 when no block fits; on an error nothing changes |
| `Heap.Heap.CheckedMultiply` | src/ee/runtime/heap.c:44-80 | shift-and-add multiplication succeeds exactly when the mathematical product is below 2^32, and is then exact |
| `Heap.Heap.SplitBlock` | src/ee/runtime/heap.c:98-127 | the links and sizes in memory encode the list with the block split, or the same list when the rest is too small; no live payload byte changes |
| `Heap.Heap.MergeWithNext` | src/ee/runtime/heap.c:129-148 | the links in memory encode the list with the block and its free successor joined; no live payload byte changes |
| `Heap.Heap.Malloc` | src/ee/runtime/heap.c:195-224 | the list becomes that of a first-fit allocation, or stays when nothing fits; the byte headers encode it again, the counter is the number of live blocks, and every live payload keeps its bytes |
| `Heap.Heap.Free` | src/ee/runtime/heap.c:226-255 | a live pointer's block is freed and joined with both free neighbours; null, misaligned and already free pointers change nothing; all other live payloads keep their bytes |
| `Heap.Heap.Calloc` | src/ee/runtime/heap.c:257-280 | allocates the exact product and every byte of it is zero; fails without effect on overflow; all other live payloads keep their bytes |
| `Heap.Heap.Realloc` | src/ee/runtime/heap.c:282-342 | all three paths: the first min(old size, new size) bytes arrive at the result, every other live payload keeps its bytes, and a failure leaves the block itself untouched too |
| `Heap.Heap.UsableSize` | src/ee/runtime/heap.c:344-357 | the payload size of a live block, 0 for any other known pointer |
| `Heap.Heap.GetStats` | src/ee/runtime/heap.c:359-387 | the free bytes, the largest free block and the number of live blocks are those of the list; free bytes, live bytes and headers add up to the total |
| `HeapRuns.RunTiles` | src/ee/runtime/heap.c:98-342 | after any run of malloc, free, calloc and realloc the blocks tile the region, each starting where the one before ends, with sizes that are multiples of 16 |
| `HeapRuns.RunSafe` | src/ee/runtime/heap.c:98-342 | after any run all payloads are 16-byte aligned, inside the region and pairwise disjoint, and payloads and headers add up to the region |
| `HeapRuns.MallocComplete` | src/ee/runtime/heap.c:195-224 | malloc succeeds if and only if 0 < size <= 0xFFFFFFF0 and the rounded size is at most the largest free block; a failure leaves the list |
| `HeapRuns.MallocLowest` | src/ee/runtime/heap.c:211-221 | the block returned is the lowest-addressed one that was free and large enough |
| `HeapRuns.CallocComplete` | src/ee/runtime/heap.c:257-280 | calloc succeeds if and only if the mathematical product is positive, at most 0xFFFFFFF0, and rounded up at most the largest free block; a failure leaves the list |
| `HeapRuns.ReallocRoom` | src/ee/runtime/heap.c:282-342 | a successful realloc of a live pointer returns a live pointer, which has the room asked for if and only if the size is at most 0xFFFFFFF0, and never 32 bytes more than the rounded size |
| `HeapRuns.MallocTight` | src/ee/runtime/heap.c:195-224 | a new block has the rounded size and less than 32 bytes more |
| `HeapRuns.ReallocExactly` | src/ee/runtime/heap.c:304-342 | a realloc of a live pointer succeeds if and only if the rounded size fits the block, or the block with a free successor, or the largest free block; it keeps its address if and only if one of the first two holds; a failure leaves the list |
| `HeapRuns.ReallocEdges` | src/ee/runtime/heap.c:284-307 | a realloc of null allocates, one to size 0 ends the pointer's life and returns null, one of a pointer that is not live does nothing |
| `HeapRuns.FreeEndsOne` | src/ee/runtime/heap.c:226-255 | a free ends the life of its pointer, and leaves every other pointer live or not as it was, with its size |
| `HeapRuns.OversizedRealloc` | src/ee/runtime/heap.c:309-315 | a realloc above 0xFFFFFFF0 returns the same pointer with its block split at size 0 |
| `HeapRuns.StepRoomy` | src/ee/runtime/heap.c:98-342 | from a list whose blocks all have 16 payload bytes, a call keeps that if and only if it is not an oversized realloc of a live block of at least 32 bytes |
| `HeapRuns.RunRoomy` | src/ee/runtime/heap.c:98-342 | in every run without such a call each block keeps at least 16 payload bytes |
| `HeapRuns.StepCoalesced` | src/ee/runtime/heap.c:129-342 | from a list without free neighbours, a call leaves free neighbours if and only if it is a realloc that splits a live block before a free one |
| `HeapRuns.FreeAllRestores` | src/ee/runtime/heap.c:226-255 | after any run without such a call, freeing every live pointer, in any order, restores the single free block of the fresh heap |
| `HeapRuns.FreesRestoreExactly` | src/ee/runtime/heap.c:226-255 | from any tiled list, freeing every live pointer, in any order, leaves one free block if and only if there were no free neighbours to begin with |
| `HeapRuns.FreeAllExactly` | src/ee/runtime/heap.c:98-342 | after any run from a fresh heap, freeing every live pointer restores it if and only if the run has left no free neighbours |
| `HeapRuns.ReuseJoins` | src/ee/runtime/heap.c:226-255 | two free neighbours are joined when the lower one is allocated and freed again |
| `HeapRuns.ShrinkFragments` | src/ee/runtime/heap.c:312-315 | the side condition is needed: malloc, shrink and free leave a heap without live blocks in two pieces |
| `HeapCalls.Perform` | src/ee/runtime/heap.c:195-342 | one call on the heap object: its block list takes that step, every byte of every live block it does not name is as it was, and a realloc brings the first min(old size, new size) bytes to its result |
| `HeapCalls.PerformAll` | src/ee/runtime/heap.c:195-342 | any sequence of calls on the heap object takes its block list through that run, and a live block that none of them names is still there with every byte as it was |
| `HeapCalls.UseAndFree` | src/ee/runtime/heap.c:195-342 | a new heap object, any calls, and then every live pointer freed: its list is the one it began with if and only if the calls left no free neighbours |
| `HeapBorrow.BorrowRestores` | src/ee/runtime/heap.c:195-255 | without free neighbours, a malloc followed by the free of its pointer restores the list exactly |
| `HeapBorrow.BorrowUntouched` | src/ee/runtime/heap.c:195-255 | allocating, storing into the new block only, and freeing it leaves all live blocks and their bytes as they were |
| `Resampler.DivU64U32` | src/ee/audio/audio.c:5-31 | long division gives the floor of the quotient for every 64-bit dividend and nonzero 32-bit divisor, and 0 for divisor 0 |
| `Resampler.Converter.Init` | src/ee/audio/audio.c:72-112 | -2 and -3 for a bad rate or channel count, without effect; otherwise the step is the floor of input * 2^32 / output, never 0, so that -5 cannot be returned |
| `Resampler.Converter.Process` | src/ee/audio/audio.c:121-229 | how many frames are produced and consumed and which phase is carried; each output frame is the interpolation at its position, placed between its two source samples as the mode says; nothing else is stored; equal rates copy; a call that cannot produce changes nothing; asked only that the call does not wrap |
| `Resampler.SamplePlaced` | src/ee/audio/audio.c:188-201 | nearest mode takes the nearer neighbour, the right one on a tie; linear mode is exact on 65536ths, rounded down, and less than 1 above and less than 2 below the line at the full fraction |
| `Resampler.FrameIsPlaced` | src/ee/audio/audio.c:177-207 | so is every stored output sample against the two source samples around its position, channel by channel, with the sample indices written out |
| `Resampler.SampleBetween` | src/ee/audio/audio.c:177-207 | every output sample lies between its two source neighbours, so the conversion to 16 bits loses nothing |
| `Resampler.CountMeans` | src/ee/audio/audio.c:177-207 | the outputs of a call are exactly the positions both of whose neighbours the call sees, up to its capacity |
| `Resampler.ConsumedMost` | src/ee/audio/audio.c:209-225 | the frames given back are the most whole frames that the position has passed, less the one kept; position and carried phase differ by them |
| `Resampler.CarriedPhase` | src/ee/audio/audio.c:206-228 | the phase a call carries over stays below one frame, or below one step when steps are longer than that |
| `Resampler.LoopExactly` | src/ee/audio/audio.c:177-207 | the output loop in 32- and 64-bit arithmetic makes as many outputs as there are covered positions, up to the capacity, and stops at the right phase, if and only if that phase is below 2^64 and its index plus 1, if tested, below 2^32 |
| `Resampler.WrapReadsThrough` | src/ee/audio/audio.c:178-184 | at input rate 2^32 - 1 and output rate 1 the second test of a call on two frames wraps, and the loop makes an output without source frames |
| `Resampler.RatesInRange` | src/ee/audio/audio.c:206 | a call from any carried phase on at most n frames is in range when the output rate is at least 2 or the input rate at most 2^32 - n |
| `ResamplerRange.RatesExactly` | src/ee/audio/audio.c:171-228 | with calls on at most n frames, every call of every stream is in range if and only if the output rate is at least 2 or the input rate is at most 2^32 - n |
| `ResamplerStream.BoundedDrift` | src/ee/audio/audio.c:98-109 | after k outputs the position lags k * input / output by at least 0 and less than k / 2^32 frame |
| `ResamplerStream.Source.ChunkIndependence` | src/ee/audio/audio.c:171-228 | for every sequence of calls, each restarting at the first frame not given back, the concatenated output is a prefix of the output of one call on the whole source |
| `ResamplerStream.Source.RunFrameAt` | src/ee/audio/audio.c:171-228 | output frame k of any such run is the interpolation at absolute position k * step, and that position is inside the source |
| `ResamplerStream.Source.WindowFrame` | src/ee/audio/audio.c:177-207 | interpolating inside the part a call sees is interpolating in the whole source, that many frames further on |
| `ResamplerStream.RunComplete` | src/ee/audio/audio.c:171-228 | a run whose last call saw the rest of the source and did not fill its room made as many frames as one call would have |
| `ResamplerStream.Source.InterpolationOrder` | src/ee/audio/audio.c:177-207 | in a channel that never decreases (increases), interpolated samples never decrease (increase) with the position |
| `ResamplerStream.Source.RunKeepsOrder` | src/ee/audio/audio.c:171-228 | and so the whole output of any run has that order, across all chunk boundaries |
| `ResamplerCalls.OneCall` | src/ee/audio/audio.c:121-229 | a call of the converter object on the source's next frames makes exactly the progress and the frames of the stream theorems |
| `ResamplerCalls.ConvertAll` | src/ee/audio/audio.c:171-228 | a sequence of such calls, however the source is cut, returns a prefix of what one call with enough room makes of the whole source |
| `ResamplerCalls.ConvertAtRates` | src/ee/audio/audio.c:72-229 | the same from initialisation, for every source in memory and all rates but an output rate of 1 with an input rate above 2^32 less the source's length |
| `AudioRing.Queue.SubmitPass` | src/iop/audio/src/main.c:238-277 | one critical section of submit puts as many frames as fit below the limit behind the queue, in order, or counts an overrun when none fit |
| `AudioRing.Queue.FillRenderBlock` | src/iop/audio/src/main.c:85-130 | the render block is the first min(queued, 512) frames padded with silence, all silence while paused; exactly those frames leave the queue; a short block counts an underrun; a submitter is woken if any left |
| `AudioRing.Queue.CopyRenderToSpu` | src/iop/audio/src/main.c:132-146 | the block at the given place becomes the four-part layout of the render block and the rest of the buffer is unchanged |
| `AudioRing.Queue.SetLatencyMs` | src/iop/audio/src/main.c:378-400 | accepts 1 to 1000 ms, sets the limit of that latency, and wakes a waiting submitter |
| `AudioRing.Queue.Flush` | src/iop/audio/src/main.c:354-366 | empties the queue and wakes a waiting submitter |
| `AudioRing.SubmitRenderCopy` | src/iop/audio/src/main.c:85-146 | submit, render and copy on the arrays: frame i of the samples given, first left and second right, stands in the render arrays at i and in its part of the SPU2 block, with zeros behind the last |
| `AudioRing.EncodeAt` | src/iop/audio/src/main.c:132-146 | the four parts are left, right, left and right of frames 0 to 255 and 256 to 511 |
| `AudioRing.LimitForShape` | src/iop/audio/src/main.c:385-396 | the limit is whole blocks between one block and the ring, covers the latency as far as the ring does, exceeds it by less than a block, and grows with it |
| `AudioRing.DecodeEncode` | src/iop/audio/src/main.c:132-146 | the four-part layout loses nothing: what is played from an encoded block is the rendered frames |
| `AudioSteps.SubmitPassIsSteps` | src/iop/audio/src/main.c:238-277 | the sequential critical section of submit and the RPC thread's atomic steps leave the same queue, counters, semaphore and place in the samples |
| `AudioSteps.FillRenderBlockIsSteps` | src/iop/audio/src/main.c:85-130 | the sequential render and the play thread's atomic steps leave the same queue, counters, semaphore and render block |
| `AudioService.StepKeeps` | src/iop/audio/src/main.c:75-366 | every enabled step of either thread, the interrupt and the client keeps the invariant: mutual exclusion, ring contents, accounting, wake-up, and the DMA side |
| `AudioService.RingIsFifo` | src/iop/audio/src/main.c:224-278 | in every interleaving, whenever the mutex is free, the ring window is exactly the frames submitted and not yet rendered since the last flush, and accepted = rendered + queued |
| `AudioCalls.CallTakesEffect` | src/iop/audio/src/main.c:224-400 | in every interleaving, from a request to its return: a submit has put exactly its frames, in order, behind those accepted before; a flush has left nothing queued or accepted and signalled; a latency is the limit and signalled; start, stop, pause and resume have taken effect, a stop with nothing in flight; a request not taken up changes nothing |
| `AudioCalls.FlushForgets` | src/iop/audio/src/main.c:354-366 | after the return of a flush, the chunks taken and then the queue are exactly the frames accepted since: nothing from before it is heard |
| `AudioCalls.WaitsAreSignalled` | src/iop/audio/src/main.c:148-252 | in every interleaving a submitter has passed no more waits than there were signals of room, and the play thread no more than there were completions |
| `AudioService.RenderIsPrefix` | src/iop/audio/src/main.c:85-130 | in every interleaving each rendered block is a prefix of the queue followed by silence, and exactly that prefix leaves it |
| `AudioService.NoLostWakeUp` | src/iop/audio/src/main.c:241-252 | in every interleaving a submitter that waits although there is room has its semaphore set, or the play thread still owes the signal |
| `AudioService.NoCollision` | src/iop/audio/src/spu2_direct.c:188-217 | in every interleaving the block in flight is the active one, is never the one being filled, and no step changes a sample of it |
| `AudioDelivery.FillsAreTakes` | src/iop/audio/src/main.c:85-171 | in every interleaving the blocks filled are the chunks that left the queue, each padded with silence, in order, none lost or repeated, with at most the last one still on its way |
| `AudioDelivery.TakesAreAccepted` | src/iop/audio/src/main.c:85-278 | in every interleaving the chunks taken since the last flush, one after the other, and then the queue are exactly the frames accepted since then |
| `AudioService.StuckExactly` | src/iop/audio/src/main.c:224-278 | no step is possible if and only if a submitter and the play thread both wait unsignalled and nothing is in flight; then the queue is full and the stream stopped |
| `AudioBlocks.PlaysWholeBlocks` | src/iop/audio/src/main.c:148-171 | in every interleaving whose starts find the play thread asleep, the block in flight decodes to silence or to one of the blocks filled in the run |
| `AudioBlocks.PrioritiesPlayWholeBlocks` | src/iop/audio/src/main.c:211 | the same in every run in which the RPC thread runs only while the play thread waits, as the priorities demand |
| `AudioPlayback.PlaysInOrder` | src/iop/audio/src/spu2_direct.c:188-217 | in every interleaving in which starts and completions find the play thread asleep, the blocks played since the launch are silence twice and then every block filled since, once and in order, up to the last one |
| `AudioPlayback.LogFills` | src/iop/audio/src/main.c:148-171 | and those are the last of the blocks filled in the run |
| `AudioRace.TornBlock` | src/iop/audio/src/main.c:280-308 | from any state in which a start finds the play thread about to render a frame, some interleaving plays that frame with one of its samples wiped |
| `AudioRace.PrioritiesNeeded` | src/iop/audio/src/main.c:280-308 | for every frame with two nonzero samples there is a run from initialisation that plays it torn; its starts do not all find the play thread asleep |
| `Numerals.DigitsReadBack` | src/ee/runtime/libc_format.c:42-121 | the numeral of a number is minimal and reads back as the number |
| `Numerals.DigitsUnique` | src/ee/runtime/libc_format.c:42-121 | nothing else does: a minimal numeral is the numeral of its value |
| `Numerals.DecimalDigits` | src/ee/runtime/libc_format.c:92-120 | the subtraction loop over powers of ten writes the decimal numeral, for every 64-bit value |
| `Numerals.HexDigits` | src/ee/runtime/libc_format.c:75-90 | the nibble loop writes the hexadecimal numeral, for every 64-bit value and either case |
| `Numerals.TextReadsBack` | src/ee/runtime/libc_format.c:42-121 | the digit text of a number, in either case, reads back as the number |
| `Format.FormatOutput.Putc` | src/ee/runtime/libc_format.c:18-29 | the text grows by the character and is stored as far as the buffer reaches, and nothing else is stored |
| `Format.FormatOutput.PutUnsigned` | src/ee/runtime/libc_format.c:123-159 | the text grows by the unsigned field: prefix, padding and digits |
| `Format.FormatOutput.PutSigned` | src/ee/runtime/libc_format.c:189-218 | the text grows by the signed field, the most negative value included |
| `Format.FormatOutput.PutString` | src/ee/runtime/libc_format.c:220-239 | the text grows by the string, padded on the left |
| `Format.ReadDirective` | src/ee/runtime/libc_format.c:275-312 | the parsing loop reads the directive that the grammar of formats has at that place |
| `Format.Vsnprintf` | src/ee/runtime/libc_format.c:241-407 | returns the length of the rendered text, saturated, whatever the size; stores exactly its first min(length, size - 1) bytes and one NUL, and changes nothing else |
| `FormatDirectives.DirectedParses` | src/ee/runtime/libc_format.c:256-312 | a percent sign, the flag, digits, a length modifier and a specifier are one directive with that flag, width, modifier and specifier |
| `FormatDirectives.WidthExactly` | src/ee/runtime/libc_format.c:284-293 | the width is the number written there if and only if that is below 1000000 |
| `FormatDirectives.SignedDirective` | src/ee/runtime/libc_format.c:330-340 | `%d` and `%i`, with any flag, width and modifier, print a minus sign for negative arguments and the minimal decimal numeral of the magnitude, in a field of that width |
| `FormatDirectives.UnsignedDirective` | src/ee/runtime/libc_format.c:341-369 | `%u` prints the minimal decimal numeral, `%x` and `%X` the minimal hexadecimal one with letters of that case only |
| `FormatDirectives.PointerDirective` | src/ee/runtime/libc_format.c:370-382 | `%p` prints "0x" and the minimal hexadecimal numeral of the address |
| `FormatDirectives.CharDirective` | src/ee/runtime/libc_format.c:315-322 | `%c` prints the byte behind spaces |
| `FormatDirectives.StringDirective` | src/ee/runtime/libc_format.c:323-329 | `%s` prints the string, or "(null)", behind spaces |
| `FormatDirectives.UnknownDirective` | src/ee/runtime/libc_format.c:384-388 | any other specifier is printed behind its percent sign and takes no argument |
| `FormatDirectives.LiteralRenders` | src/ee/runtime/libc_format.c:256-272 | other bytes print themselves, two percent signs print one, and so does a percent sign at the end |
| `FormatLaws.DeliveredMeans` | src/ee/runtime/libc_format.c:18-29 | a buffer of n bytes receives the first min(length, n - 1) bytes of the text and one NUL, and nothing around them changes |
| `FormatLaws.SignedFieldReadsBack` | src/ee/runtime/libc_format.c:189-218 | a signed field of any width and padding reads back as its argument |
| `FormatLaws.UnsignedFieldReadsBack` | src/ee/runtime/libc_format.c:123-159 | an unsigned field of any base, width, padding and case reads back as its argument |
| `FormatLaws.FieldWidth` | src/ee/runtime/libc_format.c:123-159 | a field is as wide as asked, or as its contents need |
| `FormatLaws.MeasuredFits` | src/ee/runtime/libc_format.c:18-29 | a buffer one byte larger than the measured length receives the whole text and its NUL |
| `FormatLaws.RenderAppend` | src/ee/runtime/libc_format.c:256-396 | a complete format followed by another one prints the two texts one after the other |
| `Stdio.WriteAll` | src/ee/runtime/libc_stdio.c:48-80 | all bytes are delivered in order over short writes and counted, or -1 after a prefix; never -1 when the callback accepts something each time |
| `Stdio.Vfprintf` | src/ee/runtime/libc_stdio.c:82-145 | delivers the rendered text and returns its length, or -1 after a prefix of it; the live heap blocks and their bytes are as before, and so is the whole list when it had no free neighbours; never -1 when the callback accepts and memory suffices |
| `Stdio.PrintInBlock` | src/ee/runtime/libc_stdio.c:114-143 | formatting into the heap buffer, writing it out and freeing it changes no other live payload |
| `Stdio.Puts` | src/ee/runtime/libc_stdio.c:191-219 | the text and a newline are delivered and counted, or -1 after a prefix of them |
| `Stdio.PrintToLog` | src/ee/runtime/debug_log.c:69-81 | a print to the log, read back: the log grows by exactly the rendered text, and the recent log ends in it |
| `DebugLog.Log.RingWrite` | src/ee/runtime/debug_log.c:16-35 | the ring answers for the log with the data appended, across any number of wraps |
| `DebugLog.Log.WriteRaw` | src/ee/runtime/debug_log.c:37-67 | the log grows by the data whatever the serial port answers; a failing port is switched off and counted once |
| `DebugLog.Log.Reset` | src/ee/runtime/debug_log.c:83-95 | the log is empty, the ring is zero, and the serial port is off |
| `DebugLog.Log.Init` | src/ee/runtime/debug_log.c:97-124 | the log is empty and the serial port on if it could be set up, else one failure is counted |
| `DebugLog.Log.CopyRecent` | src/ee/runtime/debug_log.c:184-224 | yields exactly the last min(written, 8192, capacity - 1) bytes of the log and one NUL, and leaves the rest of the destination |
| `DebugLog.RecentMeans` | src/ee/runtime/debug_log.c:184-224 | what is read is the end of the log: all of it, or 8192 bytes, or one less than the capacity, whichever is least |
| `DebugLog.RecentOnly` | src/ee/runtime/debug_log.c:184-224 | what a reader gets depends only on the recent output, not on anything older |
| `Crc7.Compute` | src/iop/storage/src/storage_backends.c:446-452 | the bit loops compute the register of the message's bits |
| `Crc7.CrcDivides` | src/iop/storage/src/storage_backends.c:446-452 | a message followed by its CRC is a multiple of x^7 + x^3 + 1 |
| `Crc7.CrcUnique` | src/iop/storage/src/storage_backends.c:446-452 | and no other seven bits make it one |
| `Crc7.CrcLinear` | src/iop/storage/src/storage_backends.c:446-452 | the CRC of the sum of two messages of equal length is the sum of their CRCs |
| `Crc7.SingleError` | src/iop/storage/src/storage_backends.c:446-452 | messages of any length that differ in one bit have different CRCs |
| `Crc7.DoubleError` | src/iop/storage/src/storage_backends.c:446-452 | messages of any length that differ in two bits have the same CRC if and only if the bits are a multiple of 127 apart |
| `Crc7.BuildFrame` | src/iop/storage/src/storage_backends.c:482-490 | the six bytes are the command, the argument highest byte first, and the CRC with the end bit |
| `Crc7.HeadMeans` | src/iop/storage/src/storage_backends.c:482-490 | the first byte is the command, and the next four, highest first, are the argument |
| `Crc7.FramesDiffer` | src/iop/storage/src/storage_backends.c:482-490 | two commands that differ in one or two of their forty bits differ in the CRC byte |
| `Crc7.FrameDivides` | src/iop/storage/src/storage_backends.c:482-490 | the first 47 bits of a frame on the wire are a multiple of the generator, and the last is the end bit |
| `StorageTransfer.BackendRead` | src/iop/storage/src/storage_backends.c:363-385 | the 256-byte exchanges fill the reply with the card's bytes in order; the count is clamped to the size; one error code for each way to fail |
| `StorageTransfer.BackendWrite` | src/iop/storage/src/storage_backends.c:387-409 | exactly the request's bytes go over the wire in order, once the card is ready; the count is clamped to the size; one error code for each way to fail |
| `StorageTransfer.Storage.Read` | src/ee/storage/storage.c:316-342 | the buffer receives exactly what the card sent, in order, and nothing behind it changes; the result is the length, or the error of a first request that failed |
| `StorageTransfer.Storage.Write` | src/ee/storage/storage.c:344-372 | the card has acknowledged exactly the prefix of the source that the result counts, or the result is the error of a first request that failed |
| `StorageTransfer.StopsAtShortChunk` | src/ee/storage/storage.c:316-372 | a transfer that moves less than asked moved whole chunks up to the first request that failed or moved less than its chunk, and that is where it stopped |
| `StorageTransfer.ReadReplyMeans` | src/iop/storage/src/storage_backends.c:363-385 | a read's reply is the footer's count, no more than asked for, or the code of the first thing that failed: arguments, header, either data exchange, footer, count |
| `StorageTransfer.WriteReplyMeans` | src/iop/storage/src/storage_backends.c:387-409 | the same for a write, with the poll that fails first among 128, or 128 that find the card busy |
| `StorageTransfer.ToldMeans` | src/ee/storage/storage.c:316-372 | the caller is told how much was moved, or the first request's error if that failed |
| `StorageTransfer.ServedRead` | src/ee/storage/storage.c:316-342 | from a card whose own answers serve a file, a read brings exactly the piece asked for, up to the end of the file, and its length |
| `StorageTransfer.ReadIsContiguous` | src/ee/storage/storage.c:316-342 | from a card that serves a file, a read is one contiguous piece of it, however the chunks fell |
| `StorageTransfer.ReadIsComplete` | src/ee/storage/storage.c:316-342 | and from one that sends all it has, the whole piece asked for, up to the end of the file |
| `GifStream.TagFields` | include/ef2/gif.h:22-36 | the count, the format and the register count of a tag read back from its 64 bits, up to the width of each field |
| `GifStream.DestinationFields` | include/ef2/gs.h:225-233 | the destination, the width and the format read back from the transfer register |
| `GifStream.ImageDecodes` | src/ee/gs/video.c:213-228 | the tag of an image chunk announces exactly the chunk: its length is never truncated |
| `GifStream.ReadAppend` | src/ee/gs/video.c:280-296 | packet streams compose: what is sent first is done first |
| `GifStream.UploadReads` | src/ee/gs/video.c:158-244 | the packets of an upload of any length decode to the four register writes and then every source qword in order |
| `VramLayout.StorageHolds` | src/ee/gs/video.c:683-694 | for every accepted size and format the whole pages set aside hold the image and fit video memory |
| `VramLayout.StorageExactly` | src/ee/gs/video.c:683-694 | the bytes set aside are the least rectangle of whole pages that holds the image, for the page size of each format; the data are its bits, rounded up to bytes |
| `VramLayout.RegionsExactly` | src/ee/gs/video.c:781-801 | the image goes to the next page, a palette of 1024 or 256 bytes to the next 256-byte block behind it, and the cursor behind that |
| `VramLayout.InitMeans` | src/ee/gs/video.c:1367-1430 | each error code of initialisation for its reason, the standard in effect, and the default sizes |
| `VramLayout.StackGrows` | src/ee/gs/video.c:659-1001 | an upload's regions lie behind all earlier ones and before the new cursor |
| `VramLayout.WidthChecks` | src/ee/gs/video.c:1410-1430 | the code's checks accept exactly the widths 256, 320, 512 and 640 |
| `VramLayout.HeightChecks` | src/ee/gs/video.c:1410-1430 | the code's checks accept exactly the full, the half and the quarter height of the standard |
| `Video.LogCeil` | src/ee/gs/video.c:132-144 | the least exponent whose power of two is not below the value, and 15 for values above 2^15 |
| `Video.Csm1Inverse` | src/ee/gs/video.c:264-278 | the palette rearrangement is its own inverse |
| `Video.EntryPlace` | src/ee/gs/video.c:264-278 | palette entry i of an 8-bit texture is sent as the 32-bit word whose number has bits 3 and 4 of i exchanged |
| `Video.PlainEntryPlace` | src/ee/gs/video.c:983-992 | palette entry i of a 4-bit texture is sent as word i |
| `Video.Gs.PrepareClut` | src/ee/gs/video.c:264-278 | the staging buffer holds every entry at its rearranged place |
| `Video.Gs.UploadImage` | src/ee/gs/video.c:158-244 | -1 for missing, empty or unaligned data, with nothing sent; otherwise exactly the upload's packets are sent |
| `Video.StatusMeans` | src/ee/gs/video.c:672-698 | each error code of an upload for its reason: something missing or out of range, unaligned, not a multiple of 16 bytes, or behind the end of video memory |
| `Video.Gs.UploadRgba32` | src/ee/gs/video.c:659-745 | each error code for its reason, with cursor, regions, stream and the texture record unchanged; on success the record, the new region, the cursor and everything sent |
| `Video.Gs.UploadIndexed8` | src/ee/gs/video.c:747-857 | the same, with a rearranged palette of 256 entries in a region of its own |
| `Video.Gs.UploadIndexed4` | src/ee/gs/video.c:894-1001 | the same, with a palette of 16 entries in a region of its own |
| `Video.Gs.RegionsApart` | src/ee/gs/video.c:659-1001 | no texture or palette region overlaps either framebuffer or another region, and all lie below 4 MiB |
| `Video.Gs.Init` | src/ee/gs/video.c:1350-1503 | each error code for its reason, the first check that fails; for an acceptable request two framebuffers, each the least rectangle of whole pages that holds the image and at most 1310720 bytes, lie at 0 and behind it, and textures begin right behind both; an error leaves the layout and the allocator |
| `Video.Texture.RecordsPlace` | src/ee/gs/video.c:710-726 | the recorded texture and palette addresses and the buffer width, in their units, are the true ones |
| `Video.SentReads` | src/ee/gs/video.c:659-1001 | all that a successful upload sends decodes to the image transfer, the palette transfer if there is one, and one cache flush |
| `Video.SetupReads` | src/ee/gs/video.c:178-208 | the four register writes of a transfer: place, offset 0, size and direction; and the cache flush |
| `Video.TargetsAreTrue` | src/ee/gs/video.c:184-202 | the registers name the true place: the decoded address, buffer width, format, width and height are those allocated and given |
| `Video.ClutShape` | src/ee/gs/video.c:840-857 | a palette goes up as a 32-bit image of 16 by 16 or 8 by 2 pixels |
| `Video.ClutTargetIsTrue` | src/ee/gs/video.c:840-857 | and for a palette the decoded rectangle holds exactly the entries sent, at the allocated place and within the room set aside |

## Left out

- Hardware access: register programming, cache maintenance, interrupt wiring, volume, and the display and drawing side
  of the video code. `Video.Gs.Init` ends with the layout; the registers programmed after it, and the error -7 of a
  failing first clear, are not part of this model.
- The SIF transport between the processors: a completed RPC is a function call, and a failing one is a parameter of
  `StorageTransfer.Link`. Timeouts and late replies are not part of this model.
- The SIO2 exchanges below `BackendRead` and `BackendWrite`: the card is a function that answers each exchange.
- `AudioService`: priorities are not part of the steps; `AudioBlocks.Scheduled` adds them. Real time is not modelled, so
  nothing is claimed about when a waiting submit goes on: on a full, paused or stopped queue it may wait for ever.
- `AudioService`: `audio_start` failing (`src/iop/audio/src/main.c:298-302`) needs a bad buffer, which the fixed buffer
  excludes; the requests that find the service uninitialised and the error branches of semaphore calls are left out.
- `Heap.Heap.Init`: memory ends at 0xFFFFFFF0 or below, so that the error -3 for an address that wraps cannot occur.
- `Heap.Heap.Free`: pointers that are neither null, misaligned nor the payload of a listed block are excluded, as are
  clients that write outside their blocks.
- `Heap.Heap.UsableSize`: a misaligned pointer, for which the code reads whatever lies 16 bytes before it.
- `Heap.Heap.GetStats`: a null argument.
- `Resampler.Converter.Init`: the null converter (-1) and the mode that is neither of the two (-4), which the types
  exclude; `Resampler.Converter.Process`: the null converter, and the null pointer for the consumed count.
- `Resampler.Converter.Process`: calls that wrap, which read outside their input; `Resampler.LoopExactly` and
  `ResamplerRange.RatesExactly` say which they are.
- `Resampler`: mixing, saturation and the stream configuration check.
- `Format.Vsnprintf`: arguments come as typed values; a mismatch between format and arguments is excluded, as is a
  stored text of 2^32 bytes or more. The pointer argument is 32 bits wide.
- `Stdio`: `set_stream` and the two fixed streams; a stream is an object with a callback that is either the debug log or
  arbitrary. The prefixing wrapper of the debug print is left out.
- `DebugLog.Log.WriteRaw`: the serial port is the result it returns; the hardware behind it is left out.
- `Video.Gs`: a packet arrives once, by DMA or through the FIFO. Submission never fails in the code, so the error codes
  for a failed submission are modelled but cannot be returned.
- Profiling, memory functions, runtime start-up, pads, memory-card pages and SD sectors: single-branch facts, finite
  tables, or protocols whose meaning is in hardware.

# Verification of libavtransport's arithmetic, hashing and packet state machines

This project models the parts of libavtransport whose correctness is not visible from reading one function: the
timestamp arithmetic, the streaming hashes, cutting a packet into segments and putting it back together, and four
smaller stateful components. Every claim is a Dafny contract or lemma; `dafny verify dfyconfig.toml` checks them all.

Code that changes state in place is modelled as classes whose methods are proved against functions of the state, and the
promises of the source are proved about those functions. Code that computes a value is modelled as functions and lemmas.

| file | models |
|---|---|
| `FixedWidth.dfy`, `Bits.dfy`, `Products.dfy`, `Chunks.dfy` | C integer widths; the bitwise OR; small facts about products and quotients; inputs in pieces |
| `Rounding.dfy`, `TimestampOrder.dfy` | rescaling in five rounding modes; comparing timestamps across timebases |
| `BinaryGcd.dfy`, `BestRational.dfy` | `gcd_ab`; continued-fraction reduction and its optimality |
| `StableAdd.dfy` | `avt_add_stable`: no drift from zero or anywhere else, step sizes, steps back |
| `Xxh3Stream.dfy`, `Xxh3Form.dfy` | XXH3 streaming state against the one-shot loop; the hash written out |
| `XxhLanes.dfy`, `Xxh32.dfy`, `Xxh64.dfy`, `XxhForm.dfy` | XXH32 and XXH64 streaming against one-shot; the hashes written out |
| `WideMultiply.dfy` | the portable 64x64 to 128 bit multiplication |
| `Packets.dfy`, `Segmenter.dfy` | packets; the resumable segmenter and its two callers |
| `Merging.dfy`, `Verdicts.dfy`, `PhantomHeader.dfy` | the merger; which packet gets which answer; header recovery |
| `Reassembly.dfy`, `AnyOrder.dfy` | arrivals that stay one interval; arrivals in any order |
| `Completion.dfy`, `Gaps.dfy` | every piece once, in any order; what gaps do |
| `RoundTrip.dfy` | what the segmenter puts out, the merger puts back together |
| `SlidingWindow.dfy` | the bandwidth window and the bandwidth left |
| `FileCursors.dfy` | one file position as two cursors |
| `BufferRefs.dfy` | reference counts under interleaved atomic steps |
| `IndexRing.dfy` | the ring of stream index entries |

## What is assumed

- Memory allocation and I/O succeed; error returns of the logic itself (EAGAIN, EBUSY, EINVAL, EOF) are modelled.
- The mixing steps of the hashes (`XXH3_accumulate_512`, `XXH3_scrambleAcc`, the rounds, the avalanches, the short-input
  functions) are arbitrary functions, so the streaming theorems hold for whatever they compute.
- The generated header encoders are an arbitrary function of the packet with a size per packet type, between 28 bytes
  (seven pieces of four bytes) and the 384 bytes of `AVT_MAX_HEADER_LEN`.
- Memory that was never written is a value of its own (`Unset`), so "no uninitialised byte gets out" is a statement of
  the model. An access outside a buffer is the verdict `Undefined`, and so are the failed assertion of
  libavtransport/merger.c:421, which pieces of one packet never reach, and, for a timestamp, signed arithmetic that leaves
  `int64_t`.
- The move of libavtransport/merger.c:124 is modelled byte by byte, for a little-endian host. That of line 116 moves more
  than a thousand bytes for each range; whether this stays in the allocation, and what the memory holds behind the list of
  ranges, are parameters (`Slack`), and the theorems hold for whatever they are unless they say so.
- A payload that is complete by count but has no header is the verdict `Headless`. Builds with assertions stop there
  (libavtransport/merger.c:461). At assertion level 0, which release builds have (meson.build:166-173), the test is compiled
  out (libavtransport/attributes.h) and the payload goes out. The theorems say which of `Merged` and `Headless` it is.
- Payloads have at most UINT32_MAX bytes: libavtransport/scheduler.c:84 keeps the length in a `uint32_t`, and would cut
  off the rest of a longer one. That is part of `PacketContext.Fresh`. Above INT_MAX bytes the results narrow to `int`, and
  the model does that too: `Segmenter.Scheduler.Drain` may end early, because direct_push reads the number of bytes written
  as an `int` (libavtransport/scheduler.c:281), and a payload that the merger puts out comes with a negative return value
  (libavtransport/merger.c:465, `Merging.LengthIsReturned`), which its caller takes for an error.
- Every packet that the merger receives has a buffer of its own, held once and with the default free callback. The slices
  that the scheduler queues are references into one buffer; handed straight to the merger, without going over a wire,
  they would fail the assertion of libavtransport/buffer.c:69 when it grows the buffer.
- Hash packets do not reach the merger. It would take one for a packet that needs nothing else and forget the packet it
  was at, header included; `Reassembly.ResetLosesHeader` proves that the segments after it, coming as one interval, are
  then held and asked for, and never put out.

## Where the code does not do what it says

The model follows the code. Where the code and its documentation or evident intent part, these members say how:

- `avt_add_stable` is documented as reversible (libavtransport/include/avtransport/rational.h:68), and is not. On a step
  back by a whole number of units, line 216 of rational.c computes INT64_MAX - m/d for a negative m/d, which overflows
  `int64_t`; any other step back is dropped (`StableAdd.StepBack`). `StableAdd.UndoneIffLost` proves that a step back
  restores the timestamp if and only if the step was shorter than one unit, so that the step forward had done nothing
  either. `StableAdd.OneUnitBack` is the smallest instance: both timebases 1/1, one unit forward and back.
- A step shorter than one unit is dropped each time, so that a run of such steps never leaves its start;
  `StableAdd.DriftsIffShort` proves that this is the only way to drift. From other timestamps than 0 a run leaves the
  timestamps that are ideal for its start, because the steps are counted anew each time, but not by more than three units
  in any number of calls (`StableAdd.StaysClose`).
- The header packet is refused after a segment whose sequence number has the same residue modulo 7, because the merger
  compares its union with the piece the segment brought. `Reassembly.Reassembles` is therefore an equivalence: its
  condition `Welcome` is what makes that comparison succeed, and `Reassembly.HeaderCanBeRefused` an instance where it fails.
- `fill_ranges` stores nothing when it inserts a range, takes the wrong size when it consolidates two, and then moves as
  many bytes as it should move ranges. So bytes can be taken twice and the count of the merger, which is all it goes by,
  be complete too early. `AnyOrder.RightIffApart` gives the exact condition, for pieces in any order, with any gaps and
  repeats, with pieces of other packets in between, and whatever the memory behind the list holds, as long as line 116 has
  not moved anything out of the allocation: the first payload put out is the one sent if and only if no byte was taken
  twice. A receiver that passes on every byte once can therefore rely on it (`AnyOrder.OnceIsRight`).
  With room for the move of line 116 everything is defined (`AnyOrder.RoomIsEnough`).
- Whether such a receiver gets its payload is another question, since a wrong record may refuse pieces that never came.
  With zeroes behind the list, `Completion.ComesOut` proves that it does for every order in which the header packet is
  the first of the pieces or the last, with any gaps and with pieces of other packets in between: each piece is taken, and
  the one that completes the payload brings it out, if and only if the first piece lets the header packet in. With the
  header packet in between this may fail: `Completion.HeaderBetween` is a family of such arrivals in which a piece that
  never came is refused.
- `Gaps.GapThenReplay` is a family of arrivals in which bytes are taken twice: two pieces with a gap between them and the
  second one again, where their sizes add up to the payload's, put out a payload with bytes that were never written, and if
  the first one is a segment without the header. What lies behind the list may be any range below the repeated piece,
  such as the zeroes of fresh memory. Without the repeat the same gap does no harm (`Gaps.GapThenMiddle`) unless what lies
  there happens to clash with the missing piece.
- The removal loop of the sliding window skips an entry after each removal. `SlidingWindow.PruneLeavesEverySecond` says
  what stays behind, and `SlidingWindow.PruneKeepsLive` that the bandwidth is never under-reported all the same.
- `avt_packet_change_size` receives the packet by value at libavtransport/scheduler.c:122, so the queued header keeps the
  sizes its caller gave it. `RoundTrip.QueueComesThrough` proves when the queue as it is makes the merger put out the
  payload: if and only if the caller had marked the header as segmented and had given it the length of the first slice.
  The caller can work this length out beforehand, from the size limit, the first budget and the size of a header
  (`RoundTrip.SendQueue`, `RoundTrip.DrainQueue`). Otherwise the header packet is refused, or passes through with the first
  slice alone if it is not marked as segmented, and the rest is held (`RoundTrip.QueueIsStuck`). With the sizes
  announced, as the tests of the merger do, it always comes through (`RoundTrip.RoundTrip`, `RoundTrip.SendAndMerge`).
- `XXH3_128bits_digest` tells by the seed whether there is one, and not by the flag as the 64-bit digest does
  (libavtransport/extern/xxhash.h:6929). After a reset with a secret and the seed 0, a short input is therefore hashed
  with the secret, while the one-shot function takes the default one. `Xxh3Stream.StreamedMatchesOneShot128` proves that
  this is the only case in which streaming and one-shot differ.
- `write_pkt`, `write_vec` and `read_input` return the position before the operation, although
  libavtransport/io_common.h:87 says the one after; `FileCursors.Apply` returns what the code returns.
- `scheduler_push_internal` may return EAGAIN after it has put out the header packet, which may carry the whole payload,
  or a hash packet, or both, and then does not report their bytes (libavtransport/scheduler.c:144-181).
  `Segmenter.Scheduler.Push` says exactly when it refuses and exactly when that goes unreported (`Refuses`, `Unreported`).
- `#if 0` at libavtransport/merger.c:255 is never closed; unsegmented packets are read as "reset and pass through".
- The duration in `update_sw` is the number of bits times the bandwidth over 10^9, and not over the bandwidth.

## Model

| member | source | states |
|---|---|---|
| Rounding.RescaleIsExact | libavtransport/rational.c:41-63 | in each of the five modes the result is a*b/c rounded as the mode is named, and nothing else is |
| Rounding.RescaleMonotone | libavtransport/rational.c:41-63 | a larger timestamp never rescales to a smaller one |
| Rounding.RescaleNegated | libavtransport/rational.c:54-55 | negating the argument swaps DOWN and UP and fixes the other three modes |
| Rounding.RescaleClampsMinimum | libavtransport/rational.c:55 | INT64_MIN is treated as -INT64_MAX |
| Rounding.IntermediateFits | libavtransport/rational.c:57-62 | the 128-bit intermediate never overflows |
| Rounding.RescaleScales | libavtransport/rational.c:78-84 | rescaling depends on the ratio of the two timebases only |
| Rounding.RescaleRefuses | libavtransport/rational.c:51-52 | without a positive divisor, a factor that is not negative and an existing mode the answer is INT64_MIN |
| TimestampOrder.CompareIsExact | libavtransport/rational.c:91-106 | fast and slow path both return the sign of the exact difference |
| TimestampOrder.CompareAntisymmetric | libavtransport/rational.c:91-106 | swapping the arguments negates the result |
| TimestampOrder.CompareTransitive | libavtransport/rational.c:91-106 | the order is transitive across three different timebases |
| TimestampOrder.FastPathFits | libavtransport/rational.c:97-99 | one comparison of the OR of four magnitudes is four comparisons, so the fast path is taken exactly when its products fit |
| BinaryGcd.GcdAB | libavtransport/rational.c:108-140 | terminates with the greatest common divisor of any two 64-bit values, and 0 for 0, 0 |
| BinaryGcd.SubtractAndShift | libavtransport/rational.c:126-138 | one round of the loop keeps the greatest common divisor and oddness |
| BinaryGcd.GcdTimesPow2 | libavtransport/rational.c:117-139 | the common power of two taken out at first is put back at the end |
| BinaryGcd.GcdUnique | libavtransport/rational.c:108-140 | there is only one greatest common divisor |
| BestRational.ReduceRational | libavtransport/rational.c:142-190 | a fraction in lowest terms with both parts within max, equal to the input when that fits, and otherwise no fraction within max is strictly closer |
| BestRational.Approximate | libavtransport/rational.c:163-182 | the loop computes the shortened continued fraction expansion |
| BestRational.ExpansionIsBest | libavtransport/rational.c:163-182 | that expansion is in lowest terms, within max, and the best approximation |
| BestRational.BestAtBreak | libavtransport/rational.c:169-176 | the test of line 173 picks the nearer of the last convergent and the shortened one, and neither is beaten |
| BestRational.NextConvergents | libavtransport/rational.c:178-181 | each round keeps the determinant of the convergents at 1 or -1 and the input as their combination |
| BestRational.ProductsFit | libavtransport/rational.c:164-181 | no product in the loop exceeds twice the input, so none overflows 64 bits |
| BestRational.MakeRational | libavtransport/rational.c:192-195 | the same for a fraction made from two ints |
| BestRational.MulRational | libavtransport/rational.c:197-203 | the same for the product of two fractions, each part of it narrowed to int first |
| StableAdd.NoDrift | libavtransport/rational.c:205-236 | after n steps from 0 the timestamp is n*q rounded to nearest, for every n, and converts back to n |
| StableAdd.RunIsIdeal | libavtransport/rational.c:205-236 | n calls give exactly what one rescaling of n gives |
| StableAdd.StepIsFloorOrCeiling | libavtransport/rational.c:205-236 | from any timestamp, unless an intermediate overflows int64, one step advances by floor(q) or ceil(q) |
| StableAdd.TwoStepsAreRoom | libavtransport/rational.c:221-229 | nothing overflows two steps away from the ends of int64 |
| StableAdd.StaysInRange | libavtransport/rational.c:227-233 | whatever the step, the sum is brought back into int64 |
| StableAdd.WhenUndefined | libavtransport/rational.c:216-228 | the exact condition for undefined arithmetic: a whole step back, or an offset beyond int64 |
| StableAdd.EndStays | libavtransport/rational.c:224-225 | the last timestamp is not stepped over |
| StableAdd.StepBack | libavtransport/rational.c:216-219 | a step back overflows exactly when q is whole, and is dropped otherwise |
| StableAdd.UndoneIffLost | libavtransport/include/avtransport/rational.h:68 | a step back restores the timestamp if and only if q is below one, where the step forward did nothing |
| StableAdd.OneUnitBack | libavtransport/rational.c:216 | both timebases 1/1: one unit forward is 1, and one unit back from there is undefined |
| StableAdd.StepAndBack | libavtransport/rational.c:205-236 | calls with inc = 1 and inc = -1 for all timebases: the way back is undefined or leads nowhere |
| StableAdd.DriftsIffShort | libavtransport/rational.c:205-236 | every run from 0 is the ideal one if and only if q is at least one; below one it stays at 0 |
| StableAdd.StaysClose | libavtransport/rational.c:205-236 | from any timestamp with room, with q at least one, n calls lead to within three units of n*q further on, for every n; exactly there if q is whole |
| StableAdd.AddStable | libavtransport/rational.c:205-236 | the whole function for every increment, negative ones and narrowed ones included; what counts is the ratio of the step to the unit |
| StableAdd.OnlyRatioMatters | libavtransport/rational.c:205-236 | timebases written differently give the same timestamp |
| StableAdd.SameTimebaseIsExact | libavtransport/rational.c:205-217 | within one timebase inc ticks are added exactly |
| Xxh3Stream.ConsumeStripes | libavtransport/extern/xxhash.h:6242-6276 | absorbs the stripes in order across block boundaries, scrambling at each, wherever in a block it starts |
| Xxh3Stream.HashLongLoop | libavtransport/extern/xxhash.h:5824-5855 | the one-shot loop computes the accumulators of the whole input |
| Xxh3Stream.State.Update | libavtransport/extern/xxhash.h:6287-6363 | the state tracks the concatenation of everything given to it, however it was cut |
| Xxh3Stream.State.DigestLong | libavtransport/extern/xxhash.h:6374-6409 | leftover stripes and the last stripe, rebuilt from the buffer's end if need be, give the one-shot accumulators |
| Xxh3Stream.State.Digest64 | libavtransport/extern/xxhash.h:6412-6427 | the 64-bit digest is the one-shot hash of the stream |
| Xxh3Stream.State.Digest128 | libavtransport/extern/xxhash.h:6910-6933 | the 128-bit digest is the one-shot hash of the stream, for a short one after a reset with secret and seed 0 that of the secret alone |
| Xxh3Stream.State.Reset | libavtransport/extern/xxhash.h:6183-6189 | an empty stream under the default secret |
| Xxh3Stream.State.ResetWithSecret | libavtransport/extern/xxhash.h:6192-6200 | an empty stream under a secret of at least 136 bytes |
| Xxh3Stream.State.ResetWithSeed | libavtransport/extern/xxhash.h:6203-6212 | an empty stream under a seed, with a derived secret that belongs to it even when it is kept from before |
| Xxh3Stream.State.ResetWithSecretAndSeed | libavtransport/extern/xxhash.h:6215-6223 | an empty stream under both |
| Xxh3Stream.OneShot64 | libavtransport/extern/xxhash.h:5989-6009 | the one-shot 64-bit hash, short and long inputs |
| Xxh3Stream.OneShot128 | libavtransport/extern/xxhash.h:6800-6819 | the one-shot 128-bit hash, short and long inputs |
| Xxh3Stream.StreamedMatchesOneShot | libavtransport/extern/xxhash.h:6227-6427 | for every secret, seed, input and cutting, streaming gives the one-shot 64-bit hash |
| Xxh3Stream.StreamedMatchesOneShot128 | libavtransport/extern/xxhash.h:6876-6933 | and the one-shot 128-bit hash, except for a short input with a secret and the seed 0, where both hashes are given |
| Xxh3Form.LongHash | libavtransport/extern/xxhash.h:5824-5855 | over 240 bytes both hashes, written out with the pieces of the secret and the multipliers: the low half of the 128 bits is the 64-bit hash, the high half is merged from 75 bytes before the end of the secret |
| Xxh3Form.MixedIsAccumulators | libavtransport/extern/xxhash.h:5824-5855 | the reference is the loop over blocks: 64 bytes of input and 8 of secret further for each stripe, a scramble after each block, and last the 64 bytes at the end with the secret from 71 bytes before its end |
| Xxh3Form.ShortHash | libavtransport/extern/xxhash.h:5989-6048 | up to 240 bytes: which secret and which seed each variant uses |
| Xxh3Form.LastPieceIsItsOwn | libavtransport/extern/xxhash.h:5850-5854 | no stripe and no scramble shares the piece of the secret for the last 64 bytes |
| XxhLanes.FoldResumes | libavtransport/extern/xxhash.h:3145-3178 | folding a prefix, and then its unconsumed tail with the rest, is folding the whole |
| XxhLanes.TailLength | libavtransport/extern/xxhash.h:3172-3177 | what stays buffered is the length modulo the block |
| XxhLanes.LaneState.Absorb | libavtransport/extern/xxhash.h:3131-3182 | the lanes and the buffer are those of the concatenated stream |
| XxhLanes.FoldAll | libavtransport/extern/xxhash.h:3055-3063 | the one-shot loop over whole blocks |
| Xxh32.State.Update | libavtransport/extern/xxhash.h:3131-3182 | also past 2^32 bytes, where the length wraps and the flag stays set |
| Xxh32.State.FlagIsExact | libavtransport/extern/xxhash.h:3142-3143 | the flag says whether 16 bytes were ever reached, in spite of the wrap |
| Xxh32.State.Digest | libavtransport/extern/xxhash.h:3185-3202 | the digest is the one-shot hash of the stream |
| Xxh32.OneShot | libavtransport/extern/xxhash.h:3043-3074 | the one-shot hash |
| Xxh32.StreamedMatchesOneShot | libavtransport/extern/xxhash.h:3131-3202 | for every seed, input and cutting, streaming gives the one-shot hash |
| Xxh64.State.Update | libavtransport/extern/xxhash.h:3576-3624 | the state tracks the concatenated stream |
| Xxh64.State.Digest | libavtransport/extern/xxhash.h:3627-3645 | the digest is the one-shot hash of the stream |
| Xxh64.OneShot | libavtransport/extern/xxhash.h:3486-3520 | the one-shot hash |
| Xxh64.StreamedMatchesOneShot | libavtransport/extern/xxhash.h:3576-3645 | for every seed, input and cutting, streaming gives the one-shot hash |
| XxhForm.Hash32 | libavtransport/extern/xxhash.h:3043-3074 | XXH32 written out: the start of each lane, its 4 bytes of every 16, the short input, and what the finalizer gets |
| XxhForm.Hash64 | libavtransport/extern/xxhash.h:3486-3520 | XXH64 written out in the same way |
| XxhForm.FoldIsLanes | libavtransport/extern/xxhash.h:3055-3063 | folding block by block is taking every lane for itself |
| WideMultiply.MultiplyIsExact | libavtransport/extern/xxhash.h:4440-4454 | high*2^64 + low is lhs*rhs for all 64-bit inputs |
| WideMultiply.SumsNeverOverflow | libavtransport/extern/xxhash.h:4440-4454 | no intermediate sum wraps |
| WideMultiply.HalvesJoin | libavtransport/extern/xxhash.h:4449 | the OR that joins the halves adds them |
| Segmenter.Scheduler.Push | libavtransport/scheduler.c:75-216 | one call: what it puts out, every packet with its own header encoded, the caller's stream id and the next sequence number, the caller's fields in the header packet, segments as long as the limit allows and after the hash, a packet without payload as it was given; that it stays resumable; the size and budget bounds; exactly when it refuses and when it has then put out something unreported; and that every packet takes from the work left |
| Segmenter.WhenRefused | libavtransport/scheduler.c:94-181 | the refusals in terms of header sizes, one byte of payload, and the budget |
| Segmenter.Scheduler.Begin | libavtransport/scheduler.c:89-145 | starting a packet: exactly when it is refused, goes out as it is, or puts out its first slice and goes on |
| Segmenter.Scheduler.Resume | libavtransport/scheduler.c:148-215 | continuing one: the pending hash, then segments; exactly when it gets stuck |
| Segmenter.Scheduler.PushHeader | libavtransport/scheduler.c:115-141 | the first slice in the header packet, which keeps the caller's fields and gets a new sequence number |
| Segmenter.Scheduler.PushHash | libavtransport/scheduler.c:151-175 | the hash packet that names the header packet, given an encoder that has a case for hash packets |
| Segmenter.Scheduler.PushPendingHash | libavtransport/scheduler.c:151-175 | the hash goes out once, unless the budget cannot take it |
| Segmenter.Scheduler.PushSegment | libavtransport/scheduler.c:184-202 | the next slice, as long as the limit allows, with its offset, length, target and header piece, under its own encoded header |
| Segmenter.Scheduler.PushSegments | libavtransport/scheduler.c:183-207 | slices until the payload or the budget runs out, at most one packet over it |
| Segmenter.Scheduler.FinishOrPush | libavtransport/scheduler.c:183-215 | the packet is finished exactly when a call had nothing to put out |
| Segmenter.Scheduler.FinishContext | libavtransport/scheduler.c:209-213 | by then the packets put out carry all of the payload, with its hash, and the context is reset |
| Segmenter.Scheduler.PushPlain | libavtransport/scheduler.c:100-113 | a packet without payload goes out in one piece, with the fields and the number it was given |
| Segmenter.PacketContext.Load | libavtransport/scheduler.c:247-259 | the reset context takes the next packet |
| Segmenter.CarriedIsPrefix | libavtransport/scheduler.c:183-207 | the slices put out are a prefix of the payload, with nothing lost or repeated |
| Segmenter.SlicesAreContiguous | libavtransport/scheduler.c:183-207 | each slice starts where the bytes before it end, and says so |
| Segmenter.Conserved | libavtransport/scheduler.c:75-216 | between any two calls: what is out and what is left make up the payload, in increasing order of sequence number |
| Segmenter.FirstSlice | libavtransport/scheduler.c:115-136 | the header packet carries the start of the payload |
| Segmenter.NextSlice | libavtransport/utils_packet.h:35-57 | a created segment carries the slice it names and the piece of the header its sequence number selects |
| Segmenter.Scheduler.Drain | libavtransport/scheduler.c:279-295 | the loop ends, in no more calls than there is work: finished, refused, or after a call that wrote more than INT_MAX bytes and looks otherwise |
| Segmenter.NarrowedKeeps | libavtransport/scheduler.c:281-289 | up to INT_MAX bytes the loop sees what was written, and a refusal in any case |
| Segmenter.Scheduler.Bypass | libavtransport/scheduler.c:446-452 | without a bandwidth limit one call puts out the whole packet, with a first slice of a length known beforehand |
| Merging.Merger.MergeSeg | libavtransport/merger.c:245-469 | the in-place state machine is the step function, verdict and state, and returns the number that goes with the verdict; -EBUSY exactly for a packet of another group |
| Merging.LengthIsReturned | libavtransport/merger.c:465 | the number returned with a payload, with a header or without, is its length up to INT_MAX, and negative above |
| Merging.BusyMeans | libavtransport/merger.c:291-302 | EBUSY is for a packet that carries what it says and belongs to another target, and for no other, and changes nothing |
| Verdicts.BusyIffForeign | libavtransport/merger.h:66-71 | the same in terms of the packet's fields |
| Verdicts.OthersAreBusy | libavtransport/merger.c:291-302 | so a merger that holds bytes of a packet answers EBUSY to whole packets of other groups, EINVAL to broken ones, and EBUSY to none of its own |
| Verdicts.WrongSizeIsInvalid | libavtransport/merger.c:284-290 | a packet that does not carry what it says is invalid, always |
| Verdicts.ContradictionIsInvalid | libavtransport/merger.c:190-224 | and so is a segment with another total length or another piece of the header |
| Verdicts.HeaderKnowsAll | libavtransport/merger.c:316-320 | with the header packet first every segment is compared with its header |
| Verdicts.AsNew | libavtransport/merger.c:462-464 | after a packet has gone out the next one starts as in a new merger |
| Verdicts.HeadlessHasPieces | libavtransport/merger.c:456-464 | what goes out without a header has the header pieces that were known |
| Verdicts.LastIsNewest | libavtransport/merger.c:449-451 | the newest sequence number taken is remembered |
| Verdicts.ErrorsAreTold | libavtransport/merger.c:245-303 | the numbers of the answers |
| Verdicts.WrappedRefuses | libavtransport/merger.c:232-235 | a range whose end has wrapped around refuses what starts before its start |
| Verdicts.BetweenTwoRanges | libavtransport/merger.c:66-127 | a piece between two ranges grows the one it touches, and joins both if it fills the gap |
| Verdicts.InsertedAt | libavtransport/merger.c:97-121 | what the list is after an insertion, entry by entry |
| Verdicts.UnknownIsForgotten | libavtransport/merger.c:175-184 | a recovered header of a type that cannot be segmented costs its first piece |
| Merging.Merger.ValidatePacket | libavtransport/merger.c:190-243 | the checks on length, header piece and overlap |
| Merging.Merger.WorkInRange | libavtransport/merger.c:39-130 | the range list, with its insertion and consolidation as written: it fails only where line 116 leaves the allocation |
| Merging.MovedUpIsMove | libavtransport/merger.c:124-125 | the list after a consolidation is, byte for byte, what a memmove of as many bytes as there are ranges left makes of it |
| Merging.Merger.FillPhantomHeader | libavtransport/merger.c:132-188 | one piece and its bit, and the header once all are there |
| Merging.OverlapMeans | libavtransport/merger.c:226-240 | a piece passes exactly when it clashes with no range, and is a repeat exactly when the first range it clashes with is its own |
| Merging.WithPieceAt | libavtransport/merger.c:135-139 | writing one header piece leaves the others alone |
| Merging.BitsAreDistinct | libavtransport/merger.c:141 | each piece has a mask bit of its own |
| Reassembly.Reassembles | libavtransport/merger.c:245-469 | for every cut and every arrival as one growing interval with replays and foreign packets in between, the last byte puts out the payload and header as sent, if and only if the first piece lets the header in |
| Reassembly.FeedInterval | libavtransport/merger.c:245-469 | the same for the merger in place: fed packet by packet it holds exactly what has come, until it puts out the payload |
| Reassembly.Feed | libavtransport/merger.c:245-469 | the merger in place, fed any packets, does what the step function does packet by packet |
| Reassembly.HoldsWhatArrived | libavtransport/merger.c:400-468 | until then every new piece asks for more, every other one is refused without a trace, and the merger holds exactly the bytes received |
| Reassembly.ReplayIsRefused | libavtransport/merger.c:226-240 | bytes that are there already are turned away with nothing changed |
| Reassembly.PieceIsTaken | libavtransport/merger.c:400-468 | a piece next to what is there extends it, and the last one completes it |
| Reassembly.FirstIsTaken | libavtransport/merger.c:304-398 | header or segment first, either way it asks for more |
| Reassembly.GrowsAtEitherEnd | libavtransport/merger.c:66-89 | the growth cases of fill_ranges do what they say |
| Reassembly.PieceIsValid | libavtransport/merger.c:190-243 | the header check passes every piece of the packet |
| Reassembly.OneRangeOverlap | libavtransport/merger.c:226-240 | against one range, exactly the pieces that end inside it are refused |
| Reassembly.NeverMerges | libavtransport/merger.c:206-213 | a first segment that does not let the header in means no output ever, with or without a header: the segments are held and asked for |
| Reassembly.StaysBlocked | libavtransport/merger.c:206-213 | no piece changes that: whatever goes out, goes out without a header |
| Reassembly.HeaderIsRefused | libavtransport/merger.c:206-213 | the header packet is refused as invalid each time, without a trace |
| Reassembly.HeaderCanBeRefused | libavtransport/merger.c:206-213 | a header and a first segment for which this happens |
| AnyOrder.RightIffApart | libavtransport/merger.c:245-469 | for pieces in any order, with gaps, repeats and foreign packets, and nothing undefined before, the first payload put out is the one sent if and only if no byte was taken twice, and it is put out exactly when the bytes taken are as many as it has |
| AnyOrder.OnceIsRight | libavtransport/tests/merger.c:157-196 | so pieces that are sent once, in any order, are never put out as anything but what was sent |
| AnyOrder.NextIsAccounted | libavtransport/merger.c:400-468 | any piece, taken or not: the bytes taken are in place and no others, the count is that of the pieces taken, and the header is there with the first byte; only an insertion without room is undefined |
| AnyOrder.RoomIsEnough | libavtransport/merger.c:97-121 | with room for the move of line 116 the record is always defined |
| Completion.ComesOut | libavtransport/merger.c:245-469 | pieces sent once, in any order with the header packet first or last, with zeroes behind the list: the last of them brings the payload out if and only if the first lets the header packet in, and is refused otherwise |
| Completion.FeedOnce | libavtransport/tests/merger.c:157-196 | the same for the merger in place, which returns the length |
| Completion.EveryPieceIsTaken | libavtransport/merger.c:226-240 | until then every piece is taken, in the order they come, and nothing is put out |
| Completion.TidyStays | libavtransport/merger.c:64-130 | a new segment is always taken up into the record, which never names a byte that has not come |
| Completion.HeaderBetween | libavtransport/merger.c:123-127 | with the header packet in between, a piece that never came may be refused |
| AnyOrder.CountsBytes | libavtransport/merger.c:441-456 | the bytes are as many as the count says exactly when none was taken twice |
| Gaps.BeyondIsForgotten | libavtransport/merger.c:97-121 | a range inserted behind any others is not stored, so that its replay is taken again |
| Gaps.BeyondIsTaken | libavtransport/merger.c:226-240 | a segment beyond all ranges on record is taken, as often as it comes |
| Gaps.GapThenReplay | libavtransport/merger.c:97-121 | a gap and a replay put out bytes that were never written, with the header or without |
| Gaps.GapThenMiddle | libavtransport/merger.c:64-130 | header, last segment and then the rest put out what was sent, unless what lies behind the list clashes with the rest |
| Reassembly.HeadlessNeverMerges | libavtransport/merger.c:411-416 | without a segmented header packet of the size it announces no payload ever goes out with a header, whatever comes and in whatever order |
| Reassembly.SegmentsAreHeld | libavtransport/merger.c:456-468 | segments alone, as one interval, are held and never put out, not even without a header |
| Reassembly.ResetLosesHeader | libavtransport/merger.c:278-282 | a packet that needs nothing else makes the merger lose the header it had, and the segments after it, as one interval, are held and never put out |
| PhantomHeader.HeaderIsRecovered | libavtransport/merger.c:132-188 | the header is available exactly when every residue modulo 7 has come, in any order and with repeats, and is then the sender's |
| PhantomHeader.PiecesAreCollected | libavtransport/merger.c:135-145 | the mask says which pieces are there, and they are the sender's |
| PhantomHeader.SevenInARow | libavtransport/utils_packet.h:43-52 | any seven consecutive segments are enough |
| PhantomHeader.FullMask | libavtransport/merger.c:144 | 0x7F means all seven |
| RoundTrip.RoundTrip | libavtransport/utils_packet_template.h:155-164 | the segmenter's packets without hash packets, in order and with the sizes announced, make the merger put out the same payload and header |
| RoundTrip.QueueComesThrough | libavtransport/scheduler.c:115-207 | as they are queued they do so if and only if the caller marked the header as segmented and gave it the length of the first slice |
| RoundTrip.QueueIsStuck | libavtransport/scheduler.c:121-136 | otherwise the header packet is refused or, not marked, passes through with the first slice alone, and everything after it is only asked for more |
| RoundTrip.SendQueue | libavtransport/scheduler.c:446-452 | one push without a bandwidth limit and its queue fed to a merger, in place: the payload comes out, with the caller's fields, if and only if the caller's header was marked as segmented with the size limit less one header as its length |
| RoundTrip.SameFields | libavtransport/scheduler.c:121-126 | numbering and encoding the header changes nothing but its sequence number |
| RoundTrip.DrainQueue | libavtransport/scheduler.c:279-289 | the same for direct_push, with the length that the first budget leaves |
| RoundTrip.WholeInOne | libavtransport/scheduler.c:115-145 | a payload that fits the header packet passes through if and only if the header is not marked as segmented |
| RoundTrip.DrainedComesThrough | libavtransport/scheduler.c:286-289 | both for a packet that any sequence of budgets has finished |
| RoundTrip.SendAndMerge | libavtransport/scheduler.c:446-452 | one push and a merger, in place, end to end, with the sizes announced: the payload comes out whole, with the stream id and the fields of the caller's packet, the scheduler's sequence number and the sizes announced |
| RoundTrip.InOrder | libavtransport/scheduler.c:183-207 | they arrive as one growing interval |
| SlidingWindow.Window.Slide | libavtransport/utils.c:284-320 | the sum is never less than what was added inside the period, over any run |
| SlidingWindow.Window.RemoveStale | libavtransport/utils.c:293-304 | the removal loop as it is, with the entry it skips |
| SlidingWindow.Window.IsStale | libavtransport/utils.c:294-300 | the stable addition and the comparison amount to ts + period < now |
| SlidingWindow.Window.Remove | libavtransport/utils.c:301-302 | the memmove takes out one entry |
| SlidingWindow.Window.Total | libavtransport/utils.c:313-314 | the sum of the entries |
| SlidingWindow.Window.Append | libavtransport/utils.c:307-310 | the new entry at the end |
| SlidingWindow.PruneKeepsLive | libavtransport/utils.c:293-304 | pruning changes nothing that counts now or later |
| SlidingWindow.PruneLeavesEverySecond | libavtransport/utils.c:293-304 | of the entries older than the period every second one stays behind, and no younger one is touched |
| SlidingWindow.Bandwidth.Update | libavtransport/scheduler.c:57-73 | the time moves on by the rescaled size, the bandwidth available is what the window leaves, and is never overstated |
| FileCursors.Io.Seek | libavtransport/io_template.c:39-48 | moves the reading position only |
| FileCursors.Io.ReadInput | libavtransport/io_template.c:50-77 | reads at the reading position, whatever was done before |
| FileCursors.Io.WritePacket | libavtransport/io_template.c:79-113 | writes at the writing position, whatever was done before |
| FileCursors.Io.WriteVector | libavtransport/io_template.c:115-158 | the same for several packets |
| FileCursors.Io.RewritePacket | libavtransport/io_template.c:160-211 | rewrites in place, or refuses, and moves neither position |
| FileCursors.WrittenBytesStay | libavtransport/io_template.c:39-211 | written bytes stay through any operations that do not rewrite them |
| FileCursors.ReadBack | libavtransport/io_template.c:79-113 | reading at the offset a write returned gives the packet |
| FileCursors.RewriteBack | libavtransport/io_template.c:160-211 | after a rewrite it gives the new one, and all else is as before |
| FileCursors.VectorIsPackets | libavtransport/io_template.c:115-158 | a vector is its packets one after the other |
| FileCursors.ReadsJoin | libavtransport/io_template.c:50-77 | two reads in a row give the bytes of one read of both lengths, and leave the file where that does |
| FileCursors.ReadIsFull | libavtransport/io_template.c:60-77 | a read gives all that was asked for, or all that there is |
| FileCursors.ReadingGoesOn | libavtransport/io_template.c:39-77 | the reply of a read is where the last seek or read ended, whatever was written in between |
| FileCursors.WritingGoesOn | libavtransport/io_template.c:79-158 | a write starts where the last one ended, whatever was read or rewritten in between |
| FileCursors.HeaderThenPayload | libavtransport/io_template.c:91-108 | of a written packet the header is read first and then the payload |
| FileCursors.SeekGoesThere | libavtransport/io_template.c:39-48 | a seek returns where it went |
| FileCursors.VectorReadBack | libavtransport/io_template.c:115-158 | reading at the offset a vector write returned gives all of its packets |
| FileCursors.RewriteGoesOn | libavtransport/io_template.c:160-211 | a rewrite is refused exactly beyond the writing position, returns where it ended, and moves neither position |
| BufferRefs.StepKeepsFine | libavtransport/buffer.h:57-126 | every atomic step of any thread keeps the invariant |
| BufferRefs.CounterIsExact | libavtransport/buffer.h:57-126 | in every interleaving the counter is the number of handles, and the callback runs at most once and never under a handle |
| BufferRefs.LastDropFrees | libavtransport/buffer.h:97-109 | it is the step that drops the last handle that must free |
| BufferRefs.NothingLeaks | libavtransport/buffer.h:97-109 | with all handles released each buffer was freed exactly once |
| BufferRefs.FreedStaysFreed | libavtransport/buffer.h:97-126 | a buffer without handles never gets one again |
| BufferRefs.OneMeansExclusive | libavtransport/buffer.c:68-69 | a counter of one means no one else holds the buffer |
| BufferRefs.HandlesSayAll | libavtransport/buffer.h:57-126 | between calls the handles determine every counter and which buffers are gone |
| BufferRefs.Buffers.QuickCreate | libavtransport/buffer.h:57-79 | one handle, counted once |
| BufferRefs.Buffers.QuickUnref | libavtransport/buffer.h:97-109 | the handle is empty, and the buffer gone if it was the last |
| BufferRefs.Buffers.QuickRef | libavtransport/buffer.h:111-126 | the destination shares the source's buffer and lets go of its own; on one and the same handle it only lets go |
| IndexRing.IndexContext.Parse | libavtransport/protocol_common.c:71-95 | the list is the ring of everything parsed so far, with min(T, max) entries |
| IndexRing.LatestAreKept | libavtransport/protocol_common.c:71-95 | each of the last min(T, max) entries is at its number modulo max |
| IndexRing.EverySlotIsLatest | libavtransport/protocol_common.c:71-95 | and every slot holds one of them |

## Left out

- The interleaver (`scheduler_process`, `remove_stream`, and the rest of `direct_push`): stream indices go stale after removals and payloads are released on EAGAIN, so nothing is conserved across streams as written.
- `avt_pkt_fifo_copy`, `avt_pkt_fifo_move`, `avt_pkt_fifo_drop`: the queue below the segmenter is used through push only, and modelled as a sequence.
- Parity packets and their ranges, `avt_pkt_merge_force`, read-only input buffers, and segmented packet types other than stream data: `avt_packet_create_segment` supports no other type, and the parity action is not written yet.
- The guard `srs < -1` at libavtransport/merger.c:407 is never true, so header recovery is stated about `fill_phantom_header` itself; the decoders behind it are one arbitrary function of the first 28 header bytes.
- Segmenter.Scheduler.Push: payloads of 2^32 bytes and more, of which libavtransport/scheduler.c:84 keeps the length modulo 2^32, so that the rest is never sent.
- Segmenter.Scheduler.PushHash: `avt_packet_encode_header` has no case for hash packets and reaches `unreachable()` (libavtransport/utils_packet.h:94-96). Results about packets with a hash assume an encoder that has one.
- Reassembly.Reassembles: packets are taken as they are in memory. The generated encoders send sequence numbers modulo 2^32 (libavtransport/tools/spec2c.py:662-663), so that sender and receiver agree on `seq % 7`, and on which packet is meant, only below 2^32; past that, header pieces are not what the receiver takes them for.
- Merging.Merger.WorkInRange: the size of the allocation and the memory behind the list are not tracked from packet to packet; they are parameters. On a big-endian host the one range that line 124 cuts in two would differ.
- TimestampOrder.CompareIsExact: leaves out timestamps of INT64_MIN, which the code clamps or for which `llabs` overflows.
- StableAdd.StepIsFloorOrCeiling: when an intermediate does overflow, what the code makes of it is in the model, but no step size is claimed.
- SlidingWindow.Window.Slide: one timebase and one period, values that are not negative, a sum within 64 bits, and less than half of the entries in use, because the memmove reads that far; with other values the sum is no lower bound.
- Sequence numbers, offsets into files and the XXH64 and XXH3 lengths in `Packets`, `Segmenter` and `FileCursors` are unbounded; the merger's 32-bit wrap-arounds and the hashes' length counters are modelled.
- XXH3 vector variants, short inputs and secret derivation, which are parameters.
- Switching a stdio stream from reading to writing without a positioning call, as `rewrite` does when it starts at the read position, is taken to work.
- BufferRefs.Buffers.QuickRef: slices, offsets and the pointer handed to the free callback are not modelled, only the handles; memory orders are taken to make each step atomic.
- `bytestream.h`, sockets, QUIC, mmap, URL parsing, compression, logging, clocks and the command-line tools.

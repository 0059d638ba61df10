# MeshCore: the signature arithmetic and the mesh engine

This project models two cores of the MeshCore library and proves what they are for.

* **Signatures.** The identity layer signs and verifies with Ed25519 through the bundled Monocypher. The
  model keeps the word-level algorithms (32-bit limb products, Barrett reduction, sliding windows, the
  signed comb, 25.5-bit field limbs, the SHA-512 input buffer) and proves each equal to its one-line
  mathematical meaning, up to "whatever is signed is accepted". Curve points are elements of an arbitrary
  abelian group in which the base point has order dividing L.
* **The mesh engine.** The packet pool and its queues, the dispatcher, the wire format, flood, direct and
  trace routing, loop detection, the duplicate filter, expected acknowledgements, the airtime budget and
  the wake-up time. Code that updates arrays and fields in place is a class or a method on arrays, proved
  against a function of the old state; the results about every run are lemmas about those functions.

Machine words are subset types of `int` (`u8`, `u32`, `u64`, `i32`, `i64`), so every assignment carries a
proof that the C variable does not overflow; wrap-around that the code relies on is written out as `%`.
`unsigned long` is 32 bits wide, `float` is `real`, and a `uint32_t` millisecond clock wraps.

| file | content |
|---|---|
| `Words`, `Bits`, `Bitwise`, `Groups` | machine words and digit strings, bits of numbers, bitwise operators as arithmetic, abelian groups and multiples |
| `ScalarL` | arithmetic modulo the group order L |
| `Slide`, `Comb` | the two scalar multiplications |
| `Field`, `FieldBytes` | arithmetic modulo 2^255-19 on ten limbs, and its byte form |
| `Sha512` | section 6.4 of FIPS 180-4 as a specification, and the streaming code |
| `Sha512Laws` | what the logical functions compute bit by bit, where the constants come from, how rounds, padding and output behave |
| `EdDSA` | signing and checking, sections 5.1.6 and 5.1.7 of RFC 8032 |
| `Clock32` | the wrapping clock, and what a wake-up time should be |
| `PacketQueue`, `Ownership`, `MeshLayer`, `PacketPool` | one queue; who owns each packet; packet creation, sending and their callers as ownership steps; the dispatcher's steps and every run |
| `PacketFate` | where each operation leaves its packet: queue entry, priority and time in numbers; a flood through a node |
| `Dispatcher`, `Mesh`, `Engine` | the dispatcher, the creation and sending functions and the entry points, in place |
| `WireCodec`, `Routing`, `LoopDetect`, `Trace`, `MeshReceive` | wire format, paths, forwarding policy, path tracing, the routing decisions on a received packet |
| `Tables` | the duplicate filter |
| `PendingAcks`, `Cipher`, `MessageAcks` | the ring of expected acknowledgements, padded encryption, a message and its acknowledgement end to end |
| `Airtime`, `Wakeup` | the transmit budget; the deadline folds |

Five promises turned out to have exceptions, and the model keeps the code and states them exactly:

* The 6-bit hop count wraps on the 64th one-byte hop of a flood (`FloodPathIsRoute`, `RecordedExactly`,
  `SixtyFourthHop`).
* An all-zero packet hash is always "seen" by a filter with an empty cell (`CorrectIffNonzero`).
* An expected acknowledgement can be published late: exactly when its age past the timeout, modulo 2^32,
  lies in the upper half of the clock, and then only if no timer event ran within half a clock (2^31 ms)
  after its expiry (`AckPublishesIff`, `NeverAfterExpiry`, `ExpiryExact`, `LatePublication`).
* The documented precondition |t0| < 2^63 of the field carry is too wide: over the documented range no
  operation of its twelve lines overflows exactly when the first addition does not (`CarryFitsIff`). No caller
  gets there: the sums of fe_mul and fe_sq stay below 2^62, fe_frombytes loads 32 bits, and fe_mul_small
  multiplies limbs by small constants.
* A retransmission keeps the delay it asks for exactly when that is below 2^24 ms; the action word has no room
  for more (`DelayKeptIff`).

One read leaves its array: a received trace with four-byte hashes and 43 collected SNRs, or eight-byte hashes
and 21, whose listed hash ends with the payload buffer, compares one byte behind `payload`, where
`struct meshcore_packet` keeps the SNR. The model reads that byte there; `HopBehindPayload` states exactly when,
and `BehindPayloadReached` gives a frame the dispatcher accepts.

## Model

| member | source | states |
|---|---|---|
| `ScalarL.AddRow` | src/support/crypto/monocypher.c:1573-1584 | one inner multiplication row adds exactly x*b to the limbs it covers, returns the carry, touches nothing else, and never overflows 64 bits |
| `ScalarL.Multiply` | src/support/crypto/monocypher.c:1573-1584 | the limb loops add the full product a*b to the low limbs the caller preset |
| `ScalarL.IsAboveL` | src/support/crypto/monocypher.c:1586-1596 | the borrow chain answers true exactly when the 256-bit number is at least L |
| `ScalarL.RemoveL` | src/support/crypto/monocypher.c:1602-1611 | subtracts L once exactly when the number is at least L, in place |
| `ScalarL.TimesLLow` | src/support/crypto/monocypher.c:1631-1643 | the truncated product is q*L modulo 2^256 |
| `ScalarL.BarrettQuotient` | src/support/crypto/monocypher.c:1614-1656 | for every 512-bit x the estimated quotient is the true one or one less |
| `ScalarL.BarrettRemainder` | src/support/crypto/monocypher.c:1614-1656 | the remainder survives truncation to 256 bits and is below 2L |
| `ScalarL.ModL` | src/support/crypto/monocypher.c:1614-1656 | the result is x mod L for every 512-bit x |
| `ScalarL.Load32IsOr` | src/support/crypto/monocypher.c:1658-1664 | loading a little-endian word with shifts and ors is the number its bytes spell |
| `ScalarL.Reduce` | src/support/crypto/monocypher.c:1658-1664 | 64 little-endian bytes are reduced modulo L |
| `ScalarL.MulAddL` | src/support/crypto/monocypher.c:1667-1678 | (a*b+c) mod L for all 256-bit a, b, c |
| `Slide.AndNeg` | src/support/crypto/monocypher.c:1938-1962 | v & -v in two's complement isolates the lowest set bit |
| `Slide.OddPart` | src/support/crypto/monocypher.c:1938-1962 | the computed shift divides a window value into an odd digit |
| `Slide.PlaceDigit` | src/support/crypto/monocypher.c:1938-1962 | a window's digit is odd, fits the table, and at its index stands for exactly the bits of the window |
| `Slide.SlideCtx.constructor` | src/support/crypto/monocypher.c:1917-1936 | for every scalar below 2^253, all positions above the first check contribute nothing |
| `Slide.SlideCtx.NewWindow` | src/support/crypto/monocypher.c:1938-1962 | opening a window schedules a digit that accounts for all bits down to the next check |
| `Slide.SlideCtx.Step` | src/support/crypto/monocypher.c:1938-1962 | each digit is zero or odd and inside the table, and the digits so far, doubled at every step, match the bits so far |
| `Slide.SlideCtx.Done` | src/support/crypto/monocypher.c:1917-1962 | after position 0 the accumulated digits are the scalar |
| `Slide.WindowValue` | src/support/crypto/monocypher.c:1938-1962 | the bit loop computes the signed value of the window |
| `Slide.BuildTable` | src/support/crypto/monocypher.c:1988-1998 | the point's table holds its odd multiples |
| `Slide.AddDigit` | src/support/crypto/monocypher.c:2007-2018 | adding or subtracting the table entry adds the digit's multiple |
| `Slide.DoubleScalarMul` | src/support/crypto/monocypher.c:2000-2018 | in any abelian group the fused loop yields [s]B + [h]Q for all s, h below 2^253 |
| `Comb.SelectMask` | src/support/crypto/monocypher.c:2146-2147 | the sign of (j ^ index) - 1 selects exactly the wanted entry |
| `Comb.TableIndex` | src/support/crypto/monocypher.c:2141-2145 | the exclusive or keeps or complements the low three teeth |
| `Comb.Select` | src/support/crypto/monocypher.c:2138-2157 | the masked scan over the table picks the indexed entry |
| `Comb.LookupAdd` | src/support/crypto/monocypher.c:2138-2157 | one lookup adds the four signed teeth of its column, scaled by the comb |
| `Comb.LadderColumns` | src/support/crypto/monocypher.c:2187-2197 | doubling and adding visits the columns of all rounds with their weights |
| `Comb.TotalEnd` | src/support/crypto/monocypher.c:2160-2206 | every one of 256 bit positions counts once as plus or minus 2^k: the sum is 2s-(2^256-1) |
| `Comb.Recoded` | src/support/crypto/monocypher.c:2160-2177 | the recoded s satisfies 2s-(2^256-1) = scalar modulo L |
| `Comb.LadderScalar` | src/support/crypto/monocypher.c:2160-2206 | the integer the two-comb loop evaluates is the scalar modulo L |
| `Comb.CombLoop` | src/support/crypto/monocypher.c:2187-2197 | the loop evaluates the ladder integer in the group |
| `Comb.ScalarMultBase` | src/support/crypto/monocypher.c:2160-2206 | [scalar]B for every 256-bit scalar, given the tables' documented meaning |
| `Field.Carry26` | src/support/crypto/monocypher.c:1105-1112 | an even limb's carry keeps the weighted sum and centres the limb |
| `Field.Carry25` | src/support/crypto/monocypher.c:1105-1112 | an odd limb's carry keeps the weighted sum and centres the limb |
| `Field.CarryUp` | src/support/crypto/monocypher.c:1054-1080 | the first eight carries keep the value and reach the documented intermediate bounds |
| `Field.CarryTop` | src/support/crypto/monocypher.c:1081-1104 | the last carries wrap 2^255 to 19 and reach the final bounds |
| `Field.Carry` | src/support/crypto/monocypher.c:1045-1120 | the value modulo 2^255-19 is kept and limbs end below 1.1*2^25 and 1.1*2^24 |
| `Field.Sum10` | src/support/crypto/monocypher.c:1241-1260 | ten products summed from the left, every product and partial sum in 64 bits |
| `Field.Products` | src/support/crypto/monocypher.c:1225-1260 | the ten column sums of fe_mul are the columns of f*g, below 2^62 |
| `Field.ColumnsValue` | src/support/crypto/monocypher.c:1225-1273 | the ten columns with their factors 2, 19 and 38 represent the product modulo 2^255-19 |
| `Field.FeMul` | src/support/crypto/monocypher.c:1225-1273 | the product modulo 2^255-19, carried, with no 32- or 64-bit overflow |
| `Field.CarryFitsIff` | src/support/crypto/monocypher.c:1045-1120 | over the documented range no sum, product, difference or carry of the twelve lines leaves 64 bits exactly when t0 + 2^25 does not, and 2^63 - 1 is a documented t0 for which it does |
| `Field.Sum5` | src/support/crypto/monocypher.c:1297-1316 | five products summed from the left, every product and partial sum in 64 bits |
| `Field.Sum6` | src/support/crypto/monocypher.c:1297-1316 | six products summed from the left, every product and partial sum in 64 bits |
| `Field.Squares` | src/support/crypto/monocypher.c:1281-1316 | the ten column sums of fe_sq are the columns of the product f*f, below 2^62 |
| `Field.FeSq` | src/support/crypto/monocypher.c:1281-1325 | the square modulo 2^255-19, carried; no multiple, product, partial sum or carry overflows |
| `FieldBytes.FromBytes` | src/support/crypto/monocypher.c:1128-1147 | the limbs represent the low 255 bits modulo 2^255-19, within the carry bounds |
| `FieldBytes.SignPass` | src/support/crypto/monocypher.c:1161-1178 | the rounding pass finds whether the value is negative |
| `FieldBytes.RippleLimb` | src/support/crypto/monocypher.c:1179-1183 | one ripple step makes the limb non-negative and reduced and moves the rest up |
| `FieldBytes.Representative` | src/support/crypto/monocypher.c:1161-1184 | after the ripple the limbs are the representative in [0, 2^255-19) |
| `FieldBytes.PackWords` | src/support/crypto/monocypher.c:1186-1196 | the shifted and merged words spell the same number |
| `FieldBytes.ToBytes` | src/support/crypto/monocypher.c:1161-1196 | emits the unique representative below 2^255-19 |
| `FieldBytes.Canonical` | src/support/crypto/monocypher.c:1128-1196 | decoding then encoding yields the canonical form of any 32 bytes |
| `Sha512.RotIsShifts` | src/support/crypto/monocypher-ed25519.c:113-113 | (x >> c) or-ed with (x << (64-c)) is rotation by c places |
| `Sha512Laws.ChBit` | src/support/crypto/monocypher-ed25519.c:114-114 | each bit of ch is y's where x's is one and z's where it is zero |
| `Sha512Laws.MajBit` | src/support/crypto/monocypher-ed25519.c:115-115 | each bit of maj is the majority of the three |
| `Sha512Laws.BigSigma0Bit` | src/support/crypto/monocypher-ed25519.c:116-116 | bit i is the parity of bits i+28, i+34 and i+39, cyclically |
| `Sha512Laws.BigSigma1Bit` | src/support/crypto/monocypher-ed25519.c:117-117 | bit i is the parity of bits i+14, i+18 and i+41, cyclically |
| `Sha512Laws.LitSigma0Bit` | src/support/crypto/monocypher-ed25519.c:118-118 | bit i is the parity of bits i+1 and i+8, cyclically, and bit i+7 if there is one |
| `Sha512Laws.LitSigma1Bit` | src/support/crypto/monocypher-ed25519.c:119-119 | bit i is the parity of bits i+19 and i+61, cyclically, and bit i+6 if there is one |
| `Sha512Laws.RoundConstants` | src/support/crypto/monocypher-ed25519.c:121-142 | word t is the first 64 bits of the fractional part of the cube root of the t-th listed prime |
| `Sha512Laws.FirstPrimes` | src/support/crypto/monocypher-ed25519.c:121-142 | those are the first eighty primes: each is the next prime behind the one before |
| `Sha512Laws.InitialValues` | src/support/crypto/monocypher-ed25519.c:196-210 | the initial words are the first 64 bits of the fractional parts of the square roots of 2 to 19 |
| `Sha512Laws.RoundInverts` | src/support/crypto/monocypher-ed25519.c:151-157 | a round is a permutation of the states: the registers before it are recovered from those behind it |
| `Sha512Laws.RoundsInjective` | src/support/crypto/monocypher-ed25519.c:151-171 | no two states are brought together by the rounds of a block |
| `Sha512Laws.ScheduleInverts` | src/support/crypto/monocypher-ed25519.c:162-164 | sixteen consecutive schedule words determine the one before them |
| `Sha512Laws.FeedForward` | src/support/crypto/monocypher-ed25519.c:173-176 | the state before the block is added to the rounds' result, word by word |
| `Sha512Laws.PadShape` | src/support/crypto/monocypher-ed25519.c:275-296 | the padded message is the message, a one bit, fewer than 128 zero bytes and the bit length, in whole blocks |
| `Sha512Laws.OutputSpells` | src/support/crypto/monocypher-ed25519.c:298-301 | the digest spells the eight words, most significant byte first |
| `Sha512.Schedule` | src/support/crypto/monocypher-ed25519.c:144-177 | overwriting one of the sixteen words in place yields the next schedule word of FIPS 180-4 |
| `Sha512.Pass` | src/support/crypto/monocypher-ed25519.c:144-177 | sixteen rounds over the rolling buffer are sixteen rounds of the specification |
| `Sha512.CompressInPlace` | src/support/crypto/monocypher-ed25519.c:144-177 | the sixteen-word rolling schedule computes the 80-round compression function |
| `Sha512.Ctx.constructor` | src/support/crypto/monocypher-ed25519.c:196-210 | a fresh context stands for the empty message |
| `Sha512.Ctx.SetInput` | src/support/crypto/monocypher-ed25519.c:180-185 | a byte is or-ed into a zeroed place, big-endian |
| `Sha512.Ctx.Incr` | src/support/crypto/monocypher-ed25519.c:188-194 | the two-word counter counts modulo 2^128 |
| `Sha512.Ctx.AlignWord` | src/support/crypto/monocypher-ed25519.c:220-229 | byte-wise feeding reaches a word boundary or the end, losing nothing |
| `Sha512.Ctx.WholeBlocks` | src/support/crypto/monocypher-ed25519.c:248-257 | whole blocks are compressed straight from the message, losing nothing |
| `Sha512.Ctx.Remainder` | src/support/crypto/monocypher-ed25519.c:259-273 | the rest is buffered and fewer than 128 bytes remain |
| `Sha512.Ctx.Update` | src/support/crypto/monocypher-ed25519.c:212-273 | a context that stands for m stands for m followed by the new bytes, for any split |
| `Sha512.LastBlock` | src/support/crypto/monocypher-ed25519.c:275-302 | up to 111 buffered bytes: the padding of section 5.1.2 of FIPS 180-4 is one block |
| `Sha512.LastTwoBlocks` | src/support/crypto/monocypher-ed25519.c:275-302 | 112 or more buffered bytes: the padding spills into a second block |
| `Sha512.Ctx.Final` | src/support/crypto/monocypher-ed25519.c:275-302 | the digest is the one-shot hash of the padded message |
| `EdDSA.ScalarBase` | src/support/crypto/monocypher.c:2208-2214 | the encoded point [scalar]B |
| `EdDSA.HashReduce4` | src/core/meshcore_identity.c:25-50 | the hash of the concatenated parts, modulo L |
| `EdDSA.Sign` | src/core/meshcore_identity.c:52-75 | R = [r]B and S = (h*a+r) mod L with the nonce and challenge of section 5.1.6 of RFC 8032 |
| `EdDSA.CheckEquation` | src/support/crypto/monocypher.c:1968-2033 | for every reduced challenge h, accepts exactly when S < L and [8](SB - hA - R) = 0 |
| `EdDSA.Check` | src/support/crypto/monocypher-ed25519.c:472-478 | accepts exactly when the cofactored equation of section 5.1.7 of RFC 8032 holds for the hashed challenge |
| `EdDSA.SignatureAccepted` | src/core/meshcore_identity.c:52-75 | any signature of that form satisfies the equation when the public key is [a]B |
| `EdDSA.SignThenCheck` | src/core/meshcore_identity.c:174-184 | for every key and message, the identity layer accepts its own signature |
| `EdDSA.OrderOfBase` | src/support/crypto/monocypher.c:1567-1570 | L is 2^252 + 27742317777372353535851937790883648493, as section 5.1 of RFC 8032 has it |
| `EdDSA.VerificationEquation` | src/support/crypto/monocypher.c:1968-2033 | for the encodings of points A and R a challenge h is met exactly by S below L with [8][S]B = [8](R + [h]A) |
| `EdDSA.LargerScalarRefused` | src/support/crypto/monocypher.c:1975-1985 | adding a multiple of L to S makes any signature refused |
| `Deadline.Accumulate` | src/runtime/meshcore.c:128-148 | one fold step: stops at a due candidate, otherwise keeps the least forward offset, for a candidate standing for a whole group |
| `Deadline.FirstDueMoment` | src/runtime/meshcore.c:128-168 | the deadline is the first moment, counting forward across the wrap, at which anything pending is due, and it is unique |
| `PacketQueue.PickIsLeast` | src/support/meshcore_packet_manager.c:53-82 | the scan picks the due entry of least priority value, earliest among equals, and misses only priority 255 |
| `PacketQueue.Queue.CompactFrom` | src/support/meshcore_packet_manager.c:10-20 | removes one entry from the three parallel arrays and keeps the order of the rest |
| `PacketQueue.Queue.Get` | src/support/meshcore_packet_manager.c:53-82 | returns and removes the picked packet, or leaves the queue alone |
| `PacketQueue.Queue.Add` | src/support/meshcore_packet_manager.c:84-97 | appends unless full |
| `PacketQueue.Queue.RemoveByIdx` | src/support/meshcore_packet_manager.c:173-185 | removes the indexed entry when the index is in range |
| `PacketQueue.Queue.CountBefore` | src/support/meshcore_packet_manager.c:108-128 | the number of due entries, or of all entries at the largest time value |
| `PacketQueue.Queue.NextScheduledGet` | src/support/meshcore_packet_manager.c:130-161 | the deadline of the queued packets |
| `PacketQueue.LevelPick` | src/support/meshcore_packet_manager.c:53-82 | a pick takes the front of its own priority level and leaves the other levels alone |
| `PacketQueue.DrainStable` | src/support/meshcore_packet_manager.c:53-82 | repeated gets return every due packet, each priority in queue order |
| `PacketQueue.DrainSorted` | src/support/meshcore_packet_manager.c:53-82 | repeated gets return due packets in non-decreasing priority |
| `Ownership.Room` | src/support/meshcore_packet_manager.c:249-272 | while a packet is in hand no queue is full: the queue-full fallbacks are unreachable |
| `MeshLayer.CreatedFits` | src/core/meshcore_mesh.c:650-1065 | the size checks suffice: every created packet fits the payload buffer |
| `MeshLayer.CreateKeeps` | src/core/meshcore_mesh.c:650-1065 | each creation leaves the packet in the caller's hand, or holds nothing: the failing paths release |
| `MeshLayer.SendKeeps` | src/core/meshcore_mesh.c:1067-1205 | each sending consumes the packet, on every refusal as well |
| `MeshLayer.AckCodeKeeps` | src/core/meshcore_mesh.c:113-152 | the loop that re-creates acknowledgements disposes of every packet it makes |
| `MeshLayer.ReplyKeeps` | src/runtime/meshcore_runtime_receive.c:72-139 | so do the replies to a text message |
| `MeshLayer.ScriptKeeps` | src/runtime/meshcore_runtime_request.c:260-918 | every caller that obtains packets ends with nothing in hand and the pool conserved, whatever else is in hand |
| `MeshLayer.ForgettingLeaks` | src/core/meshcore_mesh.c:1025-1042 | creating without sending does lose a packet: conservation is earned by the callers |
| `PacketPool.ActionDecodes` | src/core/meshcore_dispatcher.h:33-37 | an action is never manual-hold and decodes to a priority of at most 254, whatever the delay; a delay below 2^24 decodes exactly |
| `PacketPool.ProcessKeeps` | src/core/meshcore_dispatcher.c:253-272 | handling a received packet returns it to exactly one owner |
| `PacketPool.LoopKeeps` | src/core/meshcore_dispatcher.c:523-582 | one pass of the loop conserves the pool |
| `PacketPool.StepKeeps` | src/runtime/meshcore.c:425-480 | every entry point keeps free list, queues and the frame in flight a permutation of the pool, and queued priorities at most 254 |
| `PacketPool.RunConserves` | src/support/meshcore_packet_manager.c:187-362 | from the prepared pool, in every run, no packet leaks or is owned twice |
| `PacketPool.OneFrameOnAir` | src/core/meshcore_dispatcher.c:394-474 | a frame in flight is replaced by nothing until it is done or expires |
| `PacketPool.PickFindsDue` | src/support/meshcore_packet_manager.c:53-82 | in every reachable state a get finds nothing exactly when nothing is due |
| `PacketFate.ForwardedIsQueued` | src/core/meshcore_dispatcher.c:253-272 | a packet to be retransmitted becomes the last send entry, with priority 5 for a trace, 0 for a direct packet and the hop count for a flood, due after its delay; nothing else changes |
| `PacketFate.RefusedIsReleased` | src/core/meshcore_dispatcher.c:253-272 | any other received packet goes to the end of the free list |
| `PacketFate.DelayKeptIff` | src/core/meshcore_dispatcher.h:33-37 | the entry is due after the delay asked for exactly when that is below 2^24 ms |
| `PacketFate.ScriptsOnlyAppend` | src/core/meshcore_dispatcher.c:253-272 | while the handler runs nothing leaves the send queue, and the receive queue and the radio stand still |
| `PacketFate.AcceptedFrame` | src/core/meshcore_dispatcher.c:274-331 | a received frame is refused, released, held back for 50 ms to 32 s, or handled at once, each exactly when the code says |
| `PacketFate.FirstIsTransmitted` | src/core/meshcore_dispatcher.c:394-474 | with nothing in flight and the radio willing, the due packet of least priority value, earliest among equals, leaves the queue for the air, or is released if it cannot be encoded or started |
| `PacketFate.SomeGoesFirst` | src/support/meshcore_packet_manager.c:53-82 | there is such a packet exactly when one is due |
| `PacketFate.NothingTransmitted` | src/core/meshcore_dispatcher.c:405-421 | with nothing due, or the radio not willing, nothing changes |
| `PacketFate.FinishedIsReleased` | src/core/meshcore_dispatcher.c:333-392 | the frame in flight goes to the end of the free list |
| `PacketFate.DrainedToAir` | src/core/meshcore_dispatcher.c:394-474 | repeated passes put exactly the due packets on the air, by priority and in queue order within one |
| `PacketFate.LoopInFlight` | src/core/meshcore_dispatcher.c:557-565 | a frame in flight stops the loop until it expires, and then it is released first |
| `PacketFate.LoopHandlesFirst` | src/core/meshcore_dispatcher.c:574-581 | the first due packet held back is handled, and then the send queue is served |
| `PacketFate.FloodRelayed` | src/core/meshcore_dispatcher.c:253-474 | a flood through an idle node: held back, queued by its hops, on the air at its time, and its packet free again |
| `PacketFate.FloodIsQueued` | src/core/meshcore_mesh.c:1067-1098 | which floods are queued, with priority 2 for PATH, 3 for adverts and 1 for the rest, and that all others are released |
| `PacketFate.FloodByCodesIsQueued` | src/core/meshcore_mesh.c:1100-1137 | the same with transport codes |
| `PacketFate.DirectIsQueued` | src/core/meshcore_mesh.c:1139-1172 | which direct packets are queued, with priority 5 for traces, 1 for PATH and 0 for the rest |
| `PacketFate.ZeroHopIsQueued` | src/core/meshcore_mesh.c:1174-1205 | zero-hop packets are queued with priority 0 |
| `PacketFate.CreatedIff` | src/core/meshcore_mesh.c:650-1065 | which creations succeed: the limits in bytes |
| `PacketFate.CreatedLength` | src/core/meshcore_mesh.c:650-1065 | type and length of what is created; sealed payloads are whole blocks |
| `PacketFate.AcksQueued` | src/core/meshcore_mesh.c:113-152 | with enough free packets every acknowledgement is queued, in free-list order |
| `PacketFate.AckTimes` | src/core/meshcore_mesh.c:113-152 | each multi-acknowledgement 300 ms and a host-chosen delay after the one before, the plain one with the last |
| `PacketFate.ReplyFlooded` | src/runtime/meshcore_runtime_receive.c:72-139 | a flooded text is answered by a PATH reply of priority 2, a direct one without a route by a flooded acknowledgement of priority 1, after 200 ms |
| `PacketFate.ReplyDirect` | src/runtime/meshcore_runtime_receive.c:72-139 | along a route the acknowledgement follows after 200 ms, and a doubled one again 300 ms later |
| `Dispatcher.Dispatcher.constructor` | src/support/meshcore_packet_manager.c:187-224 | the prepared pool has every packet on the free list |
| `Dispatcher.Dispatcher.AllocNew` | src/support/meshcore_packet_manager.c:239-247 | takes the oldest free packet, in place |
| `Dispatcher.Dispatcher.FreePacket` | src/support/meshcore_packet_manager.c:249-258 | returns a packet to the free list |
| `Dispatcher.Dispatcher.QueueOutbound` | src/support/meshcore_packet_manager.c:260-272 | queues for sending or falls back to freeing |
| `Dispatcher.Dispatcher.QueueInbound` | src/support/meshcore_packet_manager.c:350-362 | queues for later processing or falls back to freeing |
| `Dispatcher.Dispatcher.SendPacket` | src/core/meshcore_dispatcher.c:615-635 | an invalid path length or payload length releases the packet, anything else queues it |
| `Dispatcher.Dispatcher.TxDone` | src/core/meshcore_dispatcher.c:333-392 | the frame in flight is released once |
| `Dispatcher.Dispatcher.CheckSendQueue` | src/core/meshcore_dispatcher.c:394-474 | at most one due packet goes on the air; on failure it is freed |
| `Mesh.CreateAdvert` | src/core/meshcore_mesh.c:650-699 | the ownership step of creating an advert |
| `Mesh.CreateDatagram` | src/core/meshcore_mesh.c:701-745 | the ownership step of creating a datagram, encryption failure included |
| `Mesh.CreateAnonDatagram` | src/core/meshcore_mesh.c:747-795 | the ownership step of creating an anonymous datagram |
| `Mesh.CreateGroupDatagram` | src/core/meshcore_mesh.c:797-841 | the ownership step of creating a group datagram |
| `Mesh.CreateAckData` | src/core/meshcore_mesh.c:869-888 | the ownership step of creating an acknowledgement, obtained before its length is checked |
| `Mesh.CreateMultiAckData` | src/core/meshcore_mesh.c:897-918 | the same for a multi-acknowledgement |
| `Mesh.CreatePathReturn` | src/core/meshcore_mesh.c:920-984 | the ownership step of creating a PATH reply |
| `Mesh.CreateRawData` | src/core/meshcore_mesh.c:1002-1023 | the ownership step of creating a raw packet |
| `Mesh.CreateTrace` | src/core/meshcore_mesh.c:1025-1042 | the ownership step of creating a trace |
| `Mesh.CreateControlData` | src/core/meshcore_mesh.c:1044-1065 | the ownership step of creating control data |
| `Mesh.ObtainPeerAdvert` | src/runtime/meshcore_runtime_request.c:312-334 | a stored advert that does not parse, or is none, is released again |
| `Mesh.SendFlood` | src/core/meshcore_mesh.c:1067-1098 | the ownership step of flooding, refusals included |
| `Mesh.SendFloodByTransportCodes` | src/core/meshcore_mesh.c:1100-1137 | the same with transport codes and the widened hash |
| `Mesh.SendDirect` | src/core/meshcore_mesh.c:1139-1172 | the ownership step of sending along a path, a trace's path going into its payload |
| `Mesh.SendZeroHop` | src/core/meshcore_mesh.c:1174-1187 | the ownership step of sending without a path |
| `Mesh.SendZeroHopByTransportCodes` | src/core/meshcore_mesh.c:1189-1205 | the same with transport codes |
| `Mesh.RouteDirectRecvAcks` | src/core/meshcore_mesh.c:113-152 | the loop in place is the script whose conservation is proved |
| `Mesh.SendAckReply` | src/runtime/meshcore_runtime_receive.c:72-139 | the reply to a text in place is the script, with the second delay depending on the first creation |
| `Mesh.MessageSendToNode` | src/runtime/meshcore_runtime_request.c:339-408 | one creation and one sending, and a registration exactly when there was a packet |
| `Engine.ProcessRecvPacket` | src/core/meshcore_dispatcher.c:253-272 | the in-place code performs the ownership step |
| `Engine.ReceiveRaw` | src/core/meshcore_dispatcher.c:274-331 | allocation, parse failure, delayed and immediate processing as ownership steps |
| `Engine.RunLoop` | src/core/meshcore_dispatcher.c:523-582 | expiry, one received packet and one send as one ownership step |
| `Engine.HandleEvent` | src/runtime/meshcore.c:425-480 | each entry point is the step the run lemmas speak about |
| `WireSpec.ReadIff` | src/core/meshcore_packet.c:244-326 | read_from accepts exactly the encodings of well-formed frames with a payload, and returns that frame |
| `WireSpec.ParseIff` | src/core/meshcore_dispatcher.c:197-251 | the dispatcher's parser accepts exactly the encodings of well-formed version-1 frames |
| `WireSpec.ParsersAgree` | src/core/meshcore_dispatcher.c:197-251 | the two parsers differ exactly on empty payloads and later versions, never in content |
| `WireSpec.MarkerNeverReceived` | src/core/meshcore_packet.c:172-185 | the 0xFF marker never comes from the dispatcher's parser, though read_from would decode it |
| `WireSpec.HeaderFields` | src/core/meshcore_packet.h:26-35 | version, type and route type of a header byte; routes 0 and 3 carry transport codes, 0 and 1 are floods |
| `WireSpec.PathLengths` | src/core/meshcore_packet.c:135-146 | the valid path length fields are 0 to 63, 64 to 96 and 128 to 149, and the bytes each stands for |
| `WireSpec.PlainLayout` | src/core/meshcore_packet.c:56-62 | for route types 1 and 2 a frame is header, path length, path, payload, written and read |
| `WireSpec.CodedLayout` | src/core/meshcore_packet.c:56-62 | for route types 0 and 3 four code bytes stand between header and path length |
| `WireSpec.AcceptedIff` | src/core/meshcore_dispatcher.c:197-251 | which buffers each parser accepts, byte by byte |
| `WireCodec.Packet.WriteTo` | src/core/meshcore_packet.c:244-274 | writes the encoding, nothing behind it, and 0 exactly for unwritable packets |
| `WireCodec.Packet.ReadFrom` | src/core/meshcore_packet.c:276-326 | fills the packet's buffers with the frame read_from is specified to return |
| `WireCodec.Packet.TryParse` | src/core/meshcore_dispatcher.c:197-251 | fills the packet's buffers with the frame the parser is specified to return |
| `RoutingSpec.RecordedExactly` | src/core/meshcore_mesh.c:620-648 | a forwarded flood records exactly its forwarders, unless 64 or more one-byte hops |
| `RoutingSpec.SixtyFourthHop` | src/core/meshcore_packet.c:113-122 | the 64th one-byte hop is admitted and empties the recorded path |
| `RoutingSpec.FollowedSuffix` | src/core/meshcore_mesh.c:298-327 | every intermediate direct path is a suffix, and a packet is forwarded at most its hop count times |
| `RoutingSpec.FollowedIff` | src/core/meshcore_mesh.c:298-327 | a route is followed by exactly the nodes whose keys start with its hops, in order |
| `RoutingSpec.FloodPathIsRoute` | src/core/meshcore_mesh.c:298-327 | the forwarders of a flood, in order, accept and strip its recorded path and it arrives empty, exactly when the count did not wrap |
| `Routing.IsHashMatch` | src/core/meshcore_identity.c:143-151 | compares the buffer with the key's first bytes |
| `Routing.CopyHash` | src/core/meshcore_identity.c:125-134 | writes the key's first bytes and nothing else |
| `Routing.RouteRecvPacket` | src/core/meshcore_mesh.c:620-648 | in place: when a flood is forwarded, its path gains this hop, wrap included, and the priority is the new count |
| `Routing.RemoveSelf` | src/core/meshcore_mesh.c:89-111 | the in-place moves drop exactly the first hop |
| `Routing.EncodeDecode` | src/runtime/meshcore.c:180-303 | encoding a decoded path length gives the field back, for every valid field |
| `Routing.CopyPath` | src/core/meshcore_packet.c:147-170 | copies exactly the path's bytes, or nothing if they exceed the buffer, and returns the field |
| `Routing.LearnedRoute` | src/runtime/meshcore.c:331-353 | a path published to the host, fetched again and copied is the same route, offered exactly when it has hops or the peer is a neighbour |
| `Routing.LearnedRouteFollowed` | src/core/meshcore_mesh.c:1139-1172 | the bytes a flood arrived with, sent back out as a direct path, are followed by the flood's forwarders, exactly when the count did not wrap |
| `MeshReceive.OnDirectTransit` | src/core/meshcore_mesh.c:298-327 | in place: exactly when this node is next, may forward and has not seen the packet, it is forwarded without this hop, or, if it is an acknowledgement, re-created along the rest of the path with its length and delays |
| `MeshReceive.ForwardMultipart` | src/core/meshcore_mesh.c:154-182 | an unseen nested acknowledgement of five bytes or more, and nothing else, goes on along the rest of the path, delayed by what remains |
| `MeshReceive.OnRecvPacket` | src/core/meshcore_mesh.c:239-648 | exactly when a flood, a direct packet and a trace are forwarded and an acknowledgement re-created, and the packet that results; a flood's priority is its new hop count |
| `MeshReceive.AcksForIff` | src/core/meshcore_mesh.c:154-182 | exactly which packets are re-created as acknowledgements, with a path length field one smaller, which length and which delay |
| `MeshReceive.KindsByNumber` | src/core/meshcore_mesh.c:346-618 | the payload types that are routed on, and those that stop where they are consumed |
| `LoopDetect.PacketIsLooped` | src/runtime/meshcore_runtime_policy.c:21-60 | the counting loop compares the number of own hops with the level's table entry |
| `LoopDetect.AllowPacketForward` | src/runtime/meshcore_runtime_policy.c:68-108 | the policy's decision for repeaters and repeating clients |
| `LoopDetect.VisitsBounded` | src/runtime/meshcore_runtime_policy.c:11-108 | in any network of repeaters with one level no hop hash of a recorded path occurs more often than 4/2/1 (minimal), 2/1/1 (moderate) or 1/1/1 (strict) times for one-, two- and three-byte hashes, whatever the flood limits |
| `LoopDetect.StrictHopsDistinct` | src/runtime/meshcore_runtime_policy.c:13-108 | in strict mode all recorded hops differ |
| `LoopDetect.HopsGrow` | src/core/meshcore_mesh.c:631-645 | a repeater's relay makes the path one hop longer, within its limit, exactly unless 63 one-byte hops are recorded; a limit of at most 63 excludes that |
| `LoopDetect.EveryRelayRecorded` | src/runtime/meshcore_runtime_policy.c:86-89 | then every relay is recorded, and their number is at most the last limit: a termination measure |
| `LoopDetect.ForwardsIff` | src/runtime/meshcore_runtime_policy.c:11-108 | a forwarding repeater passes a flood on exactly when there is room, its flood limit is not reached and its hash occurs less often than 4/2/1, 2/1/1 or 1/1/1 times, by level and hash size |
| `LoopDetect.VisitsIsCount` | src/runtime/meshcore_runtime_policy.c:21-60 | what is counted is the number of hops that start with the hash |
| `LoopDetect.PolicyGates` | src/runtime/meshcore_runtime_policy.c:68-108 | the gates in front of that: no policy, forwarding off, repeating clients, direct packets |
| `Trace.TracePath` | src/runtime/meshcore_runtime_request.c:521-559 | accepts exactly the valid requests, and three-byte hashes become their first two bytes, hop by hop |
| `Trace.ReceiveTrace` | src/core/meshcore_mesh.c:254-287 | in place: complete, dropped, or forwarded with one more SNR, the last exactly when the next listed hash in the payload buffer is this node's, forwarding is allowed and the packet is unseen; nothing else changes |
| `Trace.VerdictIff` | src/core/meshcore_mesh.c:254-287 | a trace goes on exactly when it has room and hashes left, the next listed hash is the node's byte for byte, forwarding is allowed and the packet unseen; it is complete exactly when every hash has an SNR |
| `Trace.WidthIsPower` | src/core/meshcore_mesh.c:263-275 | hashes are 1 << (flags & 3) bytes wide |
| `Trace.AcceptedIff` | src/runtime/meshcore_runtime_pending.c:312-363 | a trace is consistent exactly with one SNR for each of an odd number of hashes that are not four bytes wide |
| `Trace.HopBehindPayload` | src/core/meshcore_mesh.c:268-277 | exactly when a hop's hash ends one byte behind the payload buffer |
| `Trace.BehindPayloadReached` | src/core/meshcore_mesh.c:254-277 | a frame that the dispatcher's parser accepts and that reaches it |
| `Trace.PendingTrace.Register` | src/runtime/meshcore_runtime_pending.c:229-235 | a new trace replaces the pending one |
| `Trace.PendingTrace.Handle` | src/runtime/meshcore_runtime_pending.c:312-363 | only the pending tag is answered, once, with the SNRs split at the middle if the trace is consistent |
| `Trace.TraceEndToEnd` | src/core/meshcore_mesh.c:254-287 | over any accepted request each listed hop adds its SNR, the trace completes after n hops, and the published lists are the first (n+1)/2 SNRs and the rest with the response's |
| `Trace.NotCompleteBefore` | src/core/meshcore_mesh.c:254-287 | no node sees the trace complete before all n hops forwarded it |
| `Tables.Tables.HasSeen` | src/support/meshcore_tables.c:21-62 | answers, counts and stores in place as the sliding window does |
| `Tables.Tables.Forget` | src/support/meshcore_tables.c:64-85 | zeroing the first match removes the hash from the window |
| `Tables.ApplyGood` | src/support/meshcore_tables.c:21-85 | stored nonzero hashes stay pairwise distinct |
| `Tables.SeenIffRemembered` | src/support/meshcore_tables.c:21-85 | in every run a nonzero hash is seen exactly when it is among the last 160 stored and not cleared since |
| `Tables.CorrectIffNonzero` | src/support/meshcore_tables.c:21-43 | that answer is right on every run exactly for nonzero hashes |
| `Tables.CountersMatch` | src/support/meshcore_tables.c:10-19 | each duplicate counter is the number of "seen" answers of its routing, modulo 2^32 |
| `PendingAcks.AckRing.Expect` | src/runtime/meshcore_runtime_pending.c:148-185 | stores the registration in the first slot from `next` on that is not live |
| `PendingAcks.AckRing.Handle` | src/runtime/meshcore_runtime_pending.c:187-212 | the scan in place: empties expired slots up to the first live match and publishes it |
| `PendingAcks.AckRing.Cleanup` | src/runtime/meshcore_runtime_pending.c:41-55 | empties exactly the expired slots |
| `PendingAcks.EvictionMeansFull` | src/runtime/meshcore_runtime_pending.c:148-185 | a live entry is overwritten only when all eight are live |
| `PendingAcks.RegistersFirstFree` | src/runtime/meshcore_runtime_pending.c:148-185 | a registration takes the first slot from `next` on that is not live, or `next` with eight live ones, expires 10 s later and moves `next` behind it |
| `PendingAcks.MatchMeans` | src/runtime/meshcore_runtime_pending.c:187-212 | the lowest live match is published and emptied, every other live entry stays, and nothing is published only if nothing live matches |
| `PendingAcks.PublishedIsGenuine` | src/runtime/meshcore_runtime_pending.c:187-212 | in every run what is published was registered earlier under that CRC, is unexpired and leaves the ring |
| `PendingAcks.PublishedOnce` | src/runtime/meshcore_runtime_pending.c:148-212 | every registration is published at most once in any run |
| `PendingAcks.ExpiryExact` | src/runtime/meshcore.c:123-126 | exactly when the 32-bit expiry test agrees with time that does not wrap |
| `PendingAcks.NeverAfterExpiry` | src/runtime/meshcore_runtime_pending.c:187-212 | publication comes before expiry, or at an age in the upper half of the clock with no timer event within half a clock |
| `PendingAcks.AckPublishesIff` | src/runtime/meshcore_runtime_pending.c:187-212 | exactly when an acknowledgement publishes an undisturbed registration |
| `PendingAcks.LatePublication` | src/runtime/meshcore_runtime_pending.c:187-212 | that exception happens |
| `PendingAcks.AckPublishes` | src/runtime/meshcore_runtime_pending.c:148-212 | an acknowledgement in time publishes its undisturbed registration |
| `Cipher.Encrypt` | src/core/meshcore_utils.c:75-108 | the block loop writes the zero-padded ciphertext, or fails exactly when a block call does, and never touches what is in front |
| `Cipher.Decrypt` | src/core/meshcore_utils.c:53-73 | decrypts exactly non-empty whole blocks, unless a block call fails |
| `Cipher.EncryptThenMac` | src/core/meshcore_utils.c:110-137 | writes the MAC of the ciphertext, then the ciphertext; fails exactly when a block call or the HMAC call does |
| `Cipher.MacThenDecrypt` | src/core/meshcore_utils.c:139-165 | opens exactly authentic whole-block messages, unless a call fails |
| `Cipher.DecryptEncrypt` | src/core/meshcore_utils.c:53-108 | decryption undoes encryption up to zero padding |
| `Cipher.OpenSealed` | src/core/meshcore_utils.c:110-165 | any non-empty plaintext is recovered with fewer than 16 zeros behind it |
| `Cipher.OpenedIff` | src/core/meshcore_utils.c:139-165 | a tag and a text open exactly when the tag is the HMAC of the text and the text is whole blocks, not none |
| `Cipher.CiphertextBlocks` | src/core/meshcore_utils.c:75-108 | each block is the block cipher on the padded source's block at its place |
| `MessageAcks.SendText` | src/runtime/meshcore_runtime_request.c:360-394 | the sealed datagram and the CRC over timestamp, attempt bits, text and own key; nothing for an over-long later attempt or when sealing fails |
| `MessageAcks.TextAck` | src/runtime/meshcore_runtime_receive.c:141-171 | the acknowledgement of plain and signed texts, all six bytes of it, and none for the other cases |
| `MessageAcks.AttemptEchoed` | src/runtime/meshcore_runtime_receive.c:141-171 | the acknowledgement's fifth byte is the number of a later attempt, and zero for the first four |
| `MessageAcks.DatagramBytes` | src/runtime/meshcore_runtime_request.c:364-378 | the bytes of the datagram, place by place |
| `MessageAcks.CrcBytes` | src/runtime/meshcore_runtime_request.c:369-373 | the CRC's bytes, least significant first |
| `MessageAcks.ReplyBytes` | src/core/meshcore_mesh.c:897-955 | the bytes of multi-acknowledgements and PATH replies |
| `MessageAcks.SameBytesHashed` | src/runtime/meshcore_runtime_receive.c:316-343 | the receiver hashes what the sender hashed exactly when the text has no zero byte |
| `MessageAcks.PathReplyArrives` | src/core/meshcore_mesh.c:386-412 | a sealed PATH reply opens to the same path, type and extra, the extra followed only by zeros |
| `MessageAcks.ReplyBringsCrc` | src/runtime/meshcore_runtime_receive.c:412-439 | direct, multi- and in-path replies all bring the first four bytes of the acknowledgement, whatever path discovery is pending |
| `MessageAcks.AckCrcReturns` | src/runtime/meshcore_runtime_receive.c:141-171 | for every legal text without a zero byte the CRC that comes back is the one registered |
| `MessageAcks.MessageAcknowledged` | src/runtime/meshcore_runtime_pending.c:187-212 | such a message, acknowledged in time, is published |
| `Airtime.Bucket.constructor` | src/core/meshcore_dispatcher.c:493-521 | the budget opens at its cap |
| `Airtime.Bucket.UpdateTxBudget` | src/core/meshcore_dispatcher.c:165-195 | truncated refill, cap and update time, wrap included |
| `Airtime.Bucket.CheckSend` | src/core/meshcore_dispatcher.c:410-423 | a frame starts only with half an estimate in the bucket |
| `Airtime.Bucket.TxDone` | src/core/meshcore_dispatcher.c:346-357 | a successful send is charged, saturating at zero |
| `Airtime.ChargedWithinDuty` | src/core/meshcore_dispatcher.c:165-195 | in every run the budget is within its cap and the airtime charged within the opening budget plus the duty share of elapsed time |
| `Airtime.AirtimeWithinTwiceDuty` | src/core/meshcore_dispatcher.c:346-423 | if each successful send lasts at most the estimate, total airtime is at most twice that plus one millisecond per send, even when a refill wraps |
| `Airtime.RefillEarns` | src/core/meshcore_dispatcher.c:165-195 | a refill that does not wrap fills the bucket or adds the duty share of the elapsed time less at most a millisecond, and time not counted is kept |
| `Airtime.IdleIsFull` | src/core/meshcore_dispatcher.c:165-195 | a bucket left alone for a window is full exactly when the sum does not wrap |
| `Airtime.PollStartsIff` | src/core/meshcore_dispatcher.c:410-423 | a poll starts a frame exactly when the radio does and twice the budget reaches the estimate |
| `Airtime.FinishCosts` | src/core/meshcore_dispatcher.c:346-357 | a finished frame costs its airtime as far as the bucket goes, a failed one nothing |
| `Airtime.NotStarved` | src/core/meshcore_dispatcher.c:165-423 | after an idle window the next poll starts a frame, if the full bucket is enough for one |
| `Airtime.TransmitsIff` | src/core/meshcore_dispatcher.c:410-423 | some run transmits exactly when the full bucket is enough for one frame |
| `Airtime.LostOnlyAtCap` | src/core/meshcore_dispatcher.c:188-192 | budget is lost only to a full bucket or a wrapping sum |
| `Airtime.EarnsDuty` | src/core/meshcore_dispatcher.c:165-195 | in every run the budget charged, lost or left is at least the opening budget and the duty share of the time up to the last refill, within a millisecond per event |
| `Wakeup.DispatcherDeadline` | src/core/meshcore_dispatcher.c:637-721 | the exact minimum over in-flight expiry, both queues, next transmission, calibration, AGC and non-receive timeout |
| `Wakeup.CorrelationDeadline` | src/runtime/meshcore_runtime_pending.c:82-146 | the exact minimum over expected acknowledgements and the four pending requests |
| `Wakeup.RuntimeDeadline` | src/runtime/meshcore.c:482-514 | the armed deadline is the exact minimum over everything pending, or now if anything is due |
| `Wakeup.AlwaysArmed` | src/runtime/meshcore.c:150-168 | the timer is never cancelled while the dispatcher runs |
| `Wakeup.ExpiryVersusDeadline` | src/runtime/meshcore.c:123-148 | expiry test and deadline test differ only at exactly half the clock |
| `Wakeup.PassedVersusDeadline` | src/core/meshcore_dispatcher.c:784-789 | the dispatcher's own test is stricter: it differs at the moment itself and at half the clock |
| `Wakeup.QuietBeforeDeadline` | src/core/meshcore_dispatcher.c:637-721 | a pass of the loop at any moment before the deadline leaves every packet where it is |
| `Wakeup.NothingExpiresBefore` | src/runtime/meshcore_runtime_pending.c:82-146 | before the deadline no acknowledgement or pending request expires |
| `Wakeup.RadioQuietBefore` | src/core/meshcore_dispatcher.c:637-721 | nor is the calibration, gain reset, next transmission or non-receive time reached |

## Left out

- Platform hooks, radio, clock and random numbers: they are parameters or arbitrary answers in an event.
- Edwards and Montgomery formulas, point encoding, the X25519 ladder: points are an abstract abelian group with an abstract codec.
- Monocypher parts the library does not call (ChaCha20, Poly1305, BLAKE2b, Argon2, Elligator, Montgomery inverse).
- Constant-time behaviour and wiping of secrets: not functional behaviour.
- The platform's SHA-256 hook: a failing call is a hash of zeros, which `MessageAcks` allows, since the hash is arbitrary; the round trips of `Cipher` and `MessageAcks` are about calls that succeed.
- The packets' contents in `PacketPool`: a packet is an identity, and a packet in hand also has its type and payload length, which decide whether it can be sent. Calls with a NULL mesh, secret or data pointer are left out.
- MeshLayer.ScriptKeeps: the requests and single-packet replies are one shape, create and then send, with arbitrary arguments; which arguments each of them passes is left out, because the law holds for all.
- PacketPool.OneFrameOnAir: the radio hardware itself is not modelled, only the dispatcher's `outbound` field.
- Field.Carry: the source documents |t0| < 2^63; the precondition is t0 + 2^25 < 2^63, which the code needs, as `CarryFitsIff` states; multiplication and squaring meet it.
- Airtime: `float` rounding of the duty cycle is exact real arithmetic; the next-transmission time computed from it is left out, because the bounds do not depend on it.
- LoopDetect.VisitsBounded: floods without the SNR flag, as the forwarding code never writes the SNR byte of a flagged hop.
- MeshReceive.OnRecvPacket: the handlers' own work (decryption, adverts, channels) is an answer: seen, consumed, verified.
- Tables.Tables.HasSeen: the eight-byte hash is one value, computed by the caller.
- Adverts, group messages, telemetry, binary requests, control data, LPP and hex helpers, and most request validators: single-branch checks and field copies.
- Host architectures with a 64-bit `unsigned long`: clock comparisons are modelled at 32 bits.

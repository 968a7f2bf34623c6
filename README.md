# AuroraFlow ring collectives: a Dafny model

AuroraFlow connects FPGAs in a ring. Collective operations are carried over
that ring. A compute kernel issues a collective through the client library
(class `ARC`). The library writes a burst to the local `offload_in` channel:
one header word, then `count` payload words. A per-node router (`offload`)
polls its inbound channels. It relays each burst to the right outbound
channel: towards the east or west neighbour, to the local `offload_out`
channel, or to two of them at once.

This project models the following parts of that system:

- the wire format (`Wire`): the 512-bit word and the 16-field header;
  `create_header`, `get_width`, and packing and unpacking of the six element
  types.
- the channels (`Streams`): FIFO queues with blocking and non-blocking
  reads.
- the forwarding primitives (`Forwarding`): `stream_array`, `fork_array` and
  `fork_array_dest`. This module also defines what it means for a channel to
  be a sequence of whole bursts ("framed").
- `write_array` and `read_array` (`Packing`).
- class `ARC` with `p2p` and `bcast` (`Client`).
- class `Ring` (`RingTopology`): neighbours, distances, the shortest-direction
  choice and the broadcast split point.
- one pass of each polling loop:
  - the two-ring router `offload` (`Router`);
  - the older root-based single-ring router (`SingleRing`);
  - the `tx` relay (`Tx`).
- the `p2p_simplex` proof of concept (`Simplex`).

Each polling loop body is a method that changes streams, modelled as classes
holding a `seq` of words. Each such method is specified by pure functions
that say what every stream holds afterwards. The lemmas beside those
functions state the routing properties:

- every burst stays whole and unchanged;
- channels stay framed;
- a P2P burst takes the shorter way round;
- the arcs ending at the two dest values of a broadcast are disjoint and
  together hold every rank except the root (propagation along an arc is not
  modelled).

Conventions of the model:

- Words are 16 lanes of 32 bits.
- Element values are mathematical integers in the range of their C++ type.
- `float` and `double` values are carried as their bit patterns.
- A blocking read of an empty channel never returns. So the words a blocking
  read waits for appear as a precondition.

## Model

| member | source | states |
|---|---|---|
| Wire.HeaderOf | collectives/collectives.hpp:94-105 | the header view of a word is a well-formed 16-field header |
| Wire.ToWord | collectives/collectives.hpp:94-105 | writing a header into a word and reading the header view back gives the same header |
| Wire.WordHeaderWord | collectives/collectives.hpp:94-105 | reading a word's header view and writing it back gives the same word, so header and word are two views of one union |
| Wire.WithDest | collectives/offload/common.hpp:32-35 | assigning `header.dest` changes lane 5 only: every other lane and the burst length stay the same |
| Wire.DatatypeOf | collectives/collectives.hpp:67-90 | the datatype tag chosen for T decodes back to T, so the six tags are distinct |
| Wire.CreateHeader | collectives/collectives.hpp:57-92 | collective, count, root, dest, op and tag are stored as passed, with defaults dest = op = tag = 0; the datatype field names T |
| Wire.Width | collectives/collectives.hpp:107-118 | get_width is 8 or 16 |
| Wire.WidthFillsWord | collectives/collectives.hpp:107-118 | width times sizeof(T) fills exactly DATA_WIDTH bits, and so does a 16-field header |
| Wire.FromBits | collectives/collectives.hpp:94-105 | every 32- or 64-bit pattern is the representation of exactly one in-range element value |
| Wire.ToBits | collectives/collectives.hpp:94-105 | an element's representation fits its width and is two's complement for negative signed values |
| Wire.PackLayout | collectives/collectives.hpp:120-151 | pack_word puts a 32-bit element i in lane i, and a 64-bit element i as its low half in lane 2i and its high half in lane 2i + 1 |
| Wire.Unpack | collectives/collectives.hpp:153-184 | unpack_word yields get_width values, each in the element type's range |
| Wire.UnpackPack | collectives/collectives.hpp:120-184 | unpack_word after pack_word gives back the first get_width in-range input elements |
| Wire.PackUnpack | collectives/collectives.hpp:120-184 | pack_word after unpack_word gives back the word: no word is lost in the reinterpretation |
| Streams.Stream.Write | collectives/offload/common.hpp:4 | write appends one word at the back |
| Streams.Stream.Read | collectives/offload/common.hpp:8 | read removes and returns the front word |
| Streams.Stream.ReadNb | collectives/offload/offload.cpp:89 | read_nb returns the front word and removes it, or reports an empty channel and changes nothing |
| Forwarding.Burst | collectives/offload/common.hpp:2-11 | the front burst is the header and the count words after it; with the rest of the channel it makes up the whole channel |
| Forwarding.FlattenBursts | collectives/offload/common.hpp:2-11 | splitting a framed channel into its bursts loses and reorders nothing |
| Forwarding.SingleBurst | collectives/offload/common.hpp:2-11 | a header followed by exactly count words is one whole burst |
| Forwarding.FramedAppend | collectives/offload/common.hpp:2-11 | writing whole bursts after whole bursts keeps a channel framed, with the bursts in writing order and never interleaved |
| Forwarding.AfterBurstFramed | collectives/offload/common.hpp:2-11 | taking the front burst off a framed channel leaves it framed |
| Forwarding.StreamArray | collectives/offload/common.hpp:2-11 | out receives the header and then the first count words of in, in order; exactly count words leave in; collectives/offload.cpp:19-28 repeats this primitive word for word |
| Forwarding.ForkArray | collectives/offload/common.hpp:13-25 | both outputs receive the identical header plus the first count words of in; exactly count words leave in; collectives/offload.cpp:30-42 repeats this primitive word for word |
| Forwarding.ForkArrayDest | collectives/offload/common.hpp:27-45 | out_0 gets the header with dest := dest_0 and out_1 gets it with dest := dest_1, then both get the same count words of in; the caller's header ends with dest_1 |
| Forwarding.ForkDestHeaders | collectives/offload/common.hpp:27-37 | the two forked headers differ only in dest and announce the same burst length |
| Packing.PackAll | collectives/collectives.hpp:186-207 | packing n words gives exactly n words |
| Packing.UnpackAll | collectives/collectives.hpp:209-221 | unpacking n words gives n times get_width in-range values |
| Packing.UnpackAllChunk | collectives/collectives.hpp:209-221 | word i of a read fills exactly values[i*width .. (i+1)*width) |
| Packing.UnpackPackAll | collectives/collectives.hpp:186-221 | reading back n packed words gives the first n*width in-range values |
| Packing.PackUnpackAll | collectives/collectives.hpp:186-221 | packing the values read from n words gives the words back |
| Packing.PackAllTake | collectives/collectives.hpp:186-207 | the first m of n words written are the m words written for m |
| Packing.PackAllPrefix | collectives/collectives.hpp:186-207 | the words written depend only on the first n*width values |
| Packing.PackWord | collectives/collectives.hpp:120-151 | pack_word at values + offset packs the width elements starting there |
| Packing.UnpackWord | collectives/collectives.hpp:153-184 | unpack_word writes the word's values at the offset and leaves the rest of the array alone |
| Packing.RoundUp | collectives/collectives.hpp:195-206 | the as-written loop sends an even number of words, count or count + 1 |
| Packing.WriteArrayAsWritten | collectives/collectives.hpp:186-207 | write_array as written, given a buffer of count*width values, appends RoundUp(count) words and changes nothing already queued: the first count are packed from those values in order; for an odd count the extra word is packed from the next width values when the buffer holds them, and otherwise from memory past it |
| Packing.StrayWordInBounds | collectives/collectives.hpp:199-204 | for an odd count, when the buffer holds the width values after count*width, the extra word is packed from them |
| Packing.WriteArray | collectives/collectives.hpp:186-207 | write_array with the intended guard appends exactly count words, packed from the first count*width values in order |
| Packing.ReadArray | collectives/collectives.hpp:209-221 | read_array consumes exactly count words; word i fills values[i*width .. (i+1)*width); the rest of values is unchanged |
| Client.SentBurst | collectives/collectives.hpp:232-247 | with the corrected write_array, a sender puts count + 1 words on offload_in, and the first is the create_header word |
| Client.BurstRoundTrip | collectives/collectives.hpp:232-294 | with the corrected write_array, what a sender writes is one whole burst whose header names the element type, and whose payload unpacks to the sender's first count*width values |
| Client.AsWrittenStrayWord | collectives/collectives.hpp:199-204 | for an odd count, the as-written write_array after a header leaves exactly one word after the announced burst, where the next header belongs; when the buffer holds the width values past count*width, that word is packed from them |
| Client.WrittenBurstFramed | collectives/collectives.hpp:186-207 | the corrected write_array after a header is exactly one whole burst |
| Client.Arc.constructor | collectives/collectives.hpp:223-230 | an ARC holds its rank, size and the two offload channels |
| Client.Arc.P2P | collectives/collectives.hpp:232-247 | the root appends a P2P burst (count, root, dest) of its values to offload_in; otherwise dest reads one header and count words from offload_out into values; any other rank changes nothing; root wins if rank is both |
| Client.Arc.Bcast | collectives/collectives.hpp:279-294 | the root appends a Bcast burst (dest 0) to offload_in; every other rank reads one header and count words from offload_out, ignoring the received count |
| Client.Arc.OffloadWrite | collectives/collectives.hpp:236-239 | with the corrected write_array, the sending half appends the header and then write_array's words |
| Client.Arc.OffloadRead | collectives/collectives.hpp:241-245 | the receiving half drops one header and reads count words into values |
| RingTopology.Ring.RankWest | collectives/offload/offload.cpp:32-35 | rank_west of a rank is a rank |
| RingTopology.Ring.RankEast | collectives/offload/offload.cpp:42-45 | rank_east of a rank is a rank |
| RingTopology.Ring.DistanceWest | collectives/offload/offload.cpp:52-55 | for a rank dest of the ring, distance_west lies in 1..size, and is size (a full turn) exactly when dest is this rank |
| RingTopology.Ring.DistanceEast | collectives/offload/offload.cpp:57-60 | for a rank dest of the ring, distance_east lies in 1..size, and is size exactly when dest is this rank |
| RingTopology.Ring.GoWest | collectives/offload/offload.cpp:62-65 | a burst addressed to this rank itself is never sent west |
| RingTopology.Ring.FurthestRank | collectives/offload/offload.cpp:67-70 | furthest_rank of a rank is a rank |
| RingTopology.Ring.EastArc | collectives/offload/offload.cpp:67-70 | the east half of a broadcast passes size/2 ranks |
| RingTopology.Ring.WestArc | collectives/offload/offload.cpp:67-70 | the west half passes size - 1 - size/2 ranks |
| RingTopology.EastWestInverse | collectives/offload/offload.cpp:32-45 | rank_east and rank_west undo each other |
| RingTopology.WalkEastMod | collectives/offload/offload.cpp:42-45 | k steps of rank_east move k places forward modulo size |
| RingTopology.WalkWestMod | collectives/offload/offload.cpp:32-35 | k steps of rank_west move k places back modulo size |
| RingTopology.DistancesComplement | collectives/offload/offload.cpp:52-60 | for dest != rank, both distances lie in 1..size-1 and add up to size; for dest == rank both are size |
| RingTopology.EastDistanceOfHops | collectives/offload/offload.cpp:57-60 | the rank m hops east is at east distance m |
| RingTopology.WestDistanceOfHops | collectives/offload/offload.cpp:52-55 | the rank m hops west is at west distance m |
| RingTopology.EastDistanceIsHops | collectives/offload/offload.cpp:57-60 | distance_east is the number of rank_east hops to dest, and no shorter walk reaches it |
| RingTopology.WestDistanceIsHops | collectives/offload/offload.cpp:52-55 | distance_west is the number of rank_west hops to dest, and no shorter walk reaches it |
| RingTopology.GoWestShortest | collectives/offload/offload.cpp:52-65 | for another rank dest, the distance in the direction go_west picks is no more than either distance and at most size/2, and walking that many hops that way from rank reaches dest |
| RingTopology.FurthestIsHalfEast | collectives/offload/offload.cpp:67-70 | furthest_rank() is size/2 hops east of rank |
| RingTopology.TieIsFurthest | collectives/offload/offload.cpp:52-70 | the two distances tie exactly for the opposite rank of an even ring, and then go_west answers east |
| RingTopology.InEastArc | collectives/offload/offload.cpp:57-60 | a rank is in the east arc iff it is another rank at east distance at most size/2 |
| RingTopology.InWestArc | collectives/offload/offload.cpp:52-55 | a rank is in the west arc iff it is another rank at west distance at most size - 1 - size/2 |
| RingTopology.BcastEastTarget | collectives/offload/offload.cpp:128-130 | the east copy of a broadcast is addressed to the last rank of the east arc |
| RingTopology.RankEastOfFurthest | collectives/offload/offload.cpp:128-130 | rank_east(furthest_rank()) is size/2 + 1 hops east of rank |
| RingTopology.BcastWestTarget | collectives/offload/offload.cpp:128-130 | the west copy is addressed to the last rank of the west arc; for size 2, to the root itself |
| RingTopology.BcastTargets | collectives/offload/offload.cpp:128-130 | both copy addresses, as the two lemmas above |
| RingTopology.ArcsDistinct | collectives/offload/offload.cpp:67-70 | neither arc names a rank twice |
| RingTopology.ArcsPartition | collectives/offload/offload.cpp:67-70 | the arcs are disjoint and together hold every rank except the root |
| RingTopology.BcastSplit | collectives/offload/offload.cpp:128-130 | the arcs ending at the two dest values are disjoint and together hold every rank except the root, and the two copies are addressed to the arcs' ends; propagation along an arc is not modelled |
| Router.DeliverFramed | collectives/offload/offload.cpp:89-110 | a handled burst arriving from a neighbour goes whole to offload_out, and the receive channel stays framed |
| Router.DispatchConsumes | collectives/offload/offload.cpp:111-133 | one poll of offload_in (DispatchLocal) takes a non-empty prefix off a non-empty channel and leaves the rest in place; whatever it sends east or west is that prefix with at most the header word rewritten |
| Router.DispatchP2P | collectives/offload/offload.cpp:115-124 | a local P2P burst goes unchanged to exactly one neighbour, the one go_west picks, at most size/2 hops away |
| Router.DispatchBcast | collectives/offload/offload.cpp:125-130 | a local Bcast is forked into two whole bursts with identical payloads, differing from the original only in dest, which names the end of each arc |
| Router.DispatchBarrier | collectives/offload/offload.cpp:113-115 | a local Barrier header alone goes east; it is a whole burst when its count is 0 |
| Router.OffloadStep | collectives/offload/offload.cpp:80-135 | one loop pass: each receive channel delivers its handled front burst to offload_out, east first; offload_in is dispatched as DispatchLocal says |
| Router.Transmit | collectives/offload/offload.cpp:111-133 | the offload_in branch: the streams end as DispatchLocal says |
| Router.Receive | collectives/offload/offload.cpp:89-110 | a neighbour's Barrier, P2P or Bcast burst goes to offload_out; any other header is dropped alone; used for the east and then the west receive channel |
| SingleRing.RankBits | collectives/offload.cpp:60 | the signed rank compared with the unsigned root is the rank itself when non-negative |
| SingleRing.PollRing | collectives/offload.cpp:55-81 | one poll of ring_0_in takes a non-empty prefix off a non-empty channel and leaves the rest in place; what goes on round the ring and what is delivered locally are each either nothing or exactly that prefix |
| SingleRing.PollLocal | collectives/offload.cpp:82-94 | one poll of offload_in takes a non-empty prefix off a non-empty channel and leaves the rest; what goes onto the ring is nothing or exactly that prefix |
| SingleRing.RingBurstWhole | collectives/offload.cpp:64-79 | a P2P burst from the ring goes whole to offload_out at its root and on round the ring elsewhere; a Bcast at a non-root goes whole to both; ring_0_in stays framed |
| SingleRing.RingBarrier | collectives/offload.cpp:59-63 | a Barrier from the ring is passed on iff this rank is not its root |
| SingleRing.RootBcastLeavesPayload | collectives/offload.cpp:74-79 | at its root a returning Bcast loses only its header; its payload is what ring_0_in polls next |
| SingleRing.LocalFramed | collectives/offload.cpp:82-93 | local P2P or Bcast traffic goes whole onto the ring, and offload_in stays framed |
| SingleRing.SingleRingStep | collectives/offload.cpp:47-99 | one loop pass: ring_0_in is polled as PollRing says, then offload_in as PollLocal says; ring 1 moves one word iff rank > 999999 |
| SingleRing.FromRing | collectives/offload.cpp:55-81 | the ring_0_in branch: the streams end as PollRing says |
| SingleRing.FromLocal | collectives/offload.cpp:82-94 | the offload_in branch: the streams end as PollLocal says |
| Tx.Polled | collectives/offload/tx.cpp:34-41 | a poll of a non-empty channel takes exactly the front header's burst, 1 + count words, from its front |
| Tx.Remaining | collectives/offload/tx.cpp:34-41 | what a poll leaves is the channel's tail, strictly shorter when the channel was not empty |
| Tx.PollSplits | collectives/offload/tx.cpp:34-41 | a poll loses nothing: the burst taken plus what remains is the channel |
| Tx.TxStep | collectives/offload/tx.cpp:32-42 | ring_out receives ring_in's front burst and then offload_in's, unchanged, whatever the collective |
| Tx.Relay | collectives/offload/tx.cpp:34-37 | one polled channel's front burst goes to ring_out |
| Tx.TxKeepsFraming | collectives/offload/tx.cpp:32-42 | on framed channels every channel stays framed, and ring_out gains exactly the two front bursts, ring_in's first, never interleaved |
| Simplex.SimplexRoundTrip | collectives/poc/p2p_simplex.cpp:8-14 | for any count, rank 0's header and words hold the whole announced burst, whose payload unpacks to the input's first count*width values, followed by exactly count % 2 stray words; for an even count the channel is one whole burst |
| Simplex.SimplexRing | collectives/poc/p2p_simplex.cpp:4-19 | on a ring of one or more ranks, rank 0 sending, every other rank relaying once and rank 0 reading back leave rank 0's output holding its input's first count*width values, the rest of output unchanged, and every channel empty except count % 2 stray words on rank 1's ring_in |
| Simplex.P2PSimplex | collectives/poc/p2p_simplex.cpp:4-19 | rank 0 appends the P2P header (count, root 0, dest 0) and then what write_array as written sends to ring_out, then reads one header and count words into output; any other rank relays its ring_in's front burst to ring_out unchanged and leaves the rest on ring_in |
| Simplex.SendBurst | collectives/poc/p2p_simplex.cpp:9-11 | rank 0 sends the header, then write_array as written, needing only count*width input values |
| Simplex.ReceiveBurst | collectives/poc/p2p_simplex.cpp:13-14 | rank 0 drops one header and reads count words into output |
| Simplex.P2PSimplexU32 | collectives/poc/p2p_simplex.cpp:21-26 | the uint32_t instance: sixteen elements to a word |

## Left out

- Concurrency, and the infinite polling loops themselves. One pass of each loop is modelled. Liveness (every burst is eventually polled) is not stated.
- Blocking reads become preconditions. A read has its words already queued. This covers each burst `stream_array`/`fork_array` drains, the header and words `read_array` waits for, and the word ring 1 relays.
- Simplex.P2PSimplex: rank 0 reads its burst back only after the burst has gone round the ring. The model takes that burst as already queued on ring_in.
- Channel aliasing: all channels of one router or relay are distinct. Simplex.SimplexRing alone lets a one-rank ring use one channel as both ring_out and ring_in.
- Simplex.SimplexRing runs the ranks' steps in one order: rank 0 sends, ranks 1 to n - 1 relay in turn, rank 0 reads. Other interleavings of the concurrent kernels are not modelled.
- Wire.CreateHeader: the nine unused header fields are left uninitialised by the source. The model sets them to 0.
- Floating point: float and double elements are carried as bit patterns. No arithmetic is done on them.
- Packing.WriteArray, Packing.WriteArrayAsWritten and Packing.ReadArray use unbounded loop counters. In the source `i * width` wraps once count exceeds 2^32 / width, which needs a buffer of more than 2^32 elements. For count = 0xFFFFFFFF, write_array's `i += 2` wraps from 0xFFFFFFFE to 0, so its loop never ends; the model ends it.
- RingTopology.Ring.Valid bounds `size` below 2^29. The C `int` sums `center + size - 1` of rank_west and `center + size/2 + size` of furthest_rank then cannot overflow. Larger rings, where the source would overflow, are not modelled.
- Client.Arc.Bcast: the received header's count is ignored, as in the source. The model does not check it against the argument.
- Client.Arc.P2P, Client.Arc.Bcast, Client.Arc.OffloadWrite, Client.SentBurst and Client.BurstRoundTrip describe the sender with the corrected write_array (see Findings). For an odd count the source's sender puts one more word on offload_in, as Client.AsWrittenStrayWord states. Simplex.P2PSimplex keeps the as-written write_array.
- How a broadcast copy travels along its arc is not modelled. The router delivers a burst from a neighbour to offload_out only (Router.Receive); any re-sending happens outside the modelled core. RingTopology.BcastSplit states only which ranks the arcs hold.
- The ring-1 hint of the single-ring router moves one word only. The model does not frame it.
- Other collectives (Reduce, Scatter, Gather) have no router branch. Their headers are consumed alone, as modelled.
- collectives/poc/main.cpp passes count = 64 with 64-element buffers, but p2p_simplex takes count as a number of words of 16 elements. Simplex.P2PSimplex requires a buffer of count * 16 elements, as the kernel reads; the host program is not part of this model.
- collectives/offload/arc.cpp, the host programs, the test drivers and the benchmark harness are not part of this model.

## Findings

| source | as written | input that shows it | evidently intended | confidence | as-written member | corrected member |
|---|---|---|---|---|---|---|
| collectives/collectives.hpp:199-204 | the guard `i < count` that should skip the second word of the last iteration is always true inside the loop, so write_array sends count + 1 words for an odd count, the last packed from the width elements past values + count*width | count = 1: the header announces one word, two words are written, and the second is read from beyond the caller's buffer and left on the channel where the next header is expected | send the second word only if `i + 1 < count`, so exactly count words follow the header | not executed | Packing.WriteArrayAsWritten, Client.AsWrittenStrayWord | Packing.WriteArray, Client.WrittenBurstFramed |

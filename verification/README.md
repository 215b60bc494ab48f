# Verified models of vendored data structures, codecs and protocols

This Dafny project models the parts of the vendored SDL, libcurl and
discord-rpc sources that carry the most state, and proves what they promise.
`dafny verify dfyconfig.toml` checks all of it.

## What is modelled

`Results.dfy`, `Lists.dfy` and `Runs.dfy` hold what several of the models share:
result codes, lists that grow at their end, and runs of a machine.

**Hash table** (`RobinHood.dfy`, `HashTableSpec.dfy`, `HashTable.dfy`,
`Bits.dfy`). SDL's open-addressing table with displacement on insertion and
backward shift on deletion. The class keeps the real array of slots, the mask,
the longest probe and the live count; loops advance cyclic indices under the
mask. `RobinHood` is about slot arrays as sequences: a condition between each
slot and its predecessor, and what whole eviction chains and whole shifts do to
the bindings. `HashTableSpec` is the promise: a finite map up to key matching,
with a capacity that decides which insertions are refused. `Replay` shows that
any run of operations on the array is a run of that specification. The hash is
any function that agrees with key matching; keys and values are arbitrary;
whether memory can be had is an input.

The header (`SDL3-3.4.4/src/SDL_hashtable.h:249-256`) says that the estimate is
only a hint and that the table handles any amount of data. The code does not:
once the capacity has reached the limit of 2^26 every insertion is refused,
whatever the load. `InsertionGrantedIff` says exactly when an insertion is
granted, `FullSizeRefusesForever` that the refusal is for good, and
`LargeEstimateHoldsNothing` that a table created with an estimate over half the
limit never holds anything. An insertion with `replace` that is refused has
still deleted the old binding; the specification keeps that.

**Byte queue** (`ByteQueue.dfy`, `Fifo.dfy`, `Dialogue.dfy`, `SharedPool.dfy`). libcurl's
queue of linked chunks with spare chunks of its own or in a pool that several
queues share, with hard and soft limits. Chunks are heap objects, linked by
`next`, with their offsets; ghost lists say which chunks each list visits, and a
ghost mark on every chunk says which one list it is in, which is what keeps queues
that share a pool apart.
`View` is what a queue stands for: its unread bytes, how far its first chunk has
been read, and the bytes it still has room for; every operation is proved against
it. How many allocations succeed is an input of every operation that may allocate,
and `Capacity` is what the queue can take with them. `Fifo` is a plain
first-in-first-out sequence of bytes with limits and the same operations, those
that pass bytes on to a writer or gather them from a reader included. `Interleave`
proves that any number of queues on one pool, used in any order, are independent
sequences of that kind. Writers and readers are objects that may take or give any
prefix, or fail, at every call. They log what they were offered or asked for and how
they answered; `Dialogue` says which logs an operation may leave, so that a queue is
known to call its writer exactly as long as it has to, with the unread part of its first
chunk, and its reader for exactly the free end of its last chunk.

**Fractions** (`Fraction.dfy`). The search for a fraction with a denominator up
to 1000, over exact real numbers. The source names its origin as best rational
approximation; the answer is best on its own side of the number but not always
the nearest: `NotAlwaysBest` gives the input 0.0006. The exact condition is one on
the number and its two neighbours among the fractions allowed
(`NeighboursExist`, `NeighboursAreUnique`): `BestIffNotBetween` says that the
answer is the nearest exactly when the number does not lie strictly between the
mediant of the neighbours and their midpoint. At 0.0006 these are 1/1001 and
1/2000. Negative numbers are answered with 0/1, for which `NegativeIsBestIff` has
the condition.

**URI decoding** (`UriDecode.dfy`, `CStrings.dfy`). The percent decoder on byte
arrays, including the documented use with source and destination in one buffer
(`SDL3-3.4.4/src/SDL_utils_c.h:36-42`). The encoder that `DecodesWhatWasEncoded` inverts
has its digits written out and shares nothing with the decoder. Invalid escapes are copied
with the byte that made them invalid; an escape cut off by the end of the text is dropped.

**Base64** (`Base64.dfy`). The encoder with both alphabets and the decoder, on
arrays, with the tables of the source and its shifts and masks. Size 0 means a
zero-terminated input of any length. `LetterIs` writes the alphabets out,
`EncodingKeepsBits` says that the symbols hold the bits of the bytes, and
`DecodesWhatIsSpelled` which texts decode to which bytes. The inverse theorem is about
non-empty byte sequences, since the decoder refuses the empty text.

**Message ring** (`MsgQueue.dfy`). The lock-free ring of discord-rpc with every
atomic access as a step of the producer or the consumer, in every interleaving,
with 32-bit counters that wrap around. The protocol assumed is that each side
goes through its calls in order, that a slot that was reserved is committed, and
that the consumer asks for a message only after it has seen one pending. What was sent
is defined from the actions alone, the last message filled in before each commit, and
`ConsumerGetsWhatWasSent` says that this is what arrives.

**Resolver handshake** (`ResolverHandshake.dfy`). libcurl's resolver thread and
the parent that polls, waits or cancels, from a successful start on, with every
critical section and every release as one step. The list is released exactly
once except in one case: when the thread found addresses but its wake-up write
failed, the parent that collects the result passes the list to a callback that
takes it over only on success (`curl-8.5.0/lib/hostasyn.c:60-107`) and then
forgets it. `AllReleased` states the exact condition, `ListCanBeLost` gives a
run. `RunsEndAsAsked` tells from the actions of a complete run who got the list and who
freed the data.

**Subsystem counts** (`Subsystems.dfy`). SDL's reference counts with implied
subsystems, mutually recursive initialisation and quitting, and rollback when a
driver fails. The drivers that fail are an input, and `InitSubSystem` says exactly
when it succeeds. Counts match holds through any run in which every quit is fair to
the other clients, and `QuitAllRepresentsIff` says exactly which quits of which
flags are; `DishonestQuit` is a run with one that is not. `SDL_Quit`, which forces
every subsystem down, is included. The header
(`SDL3-3.4.4/include/SDL3/SDL_init.h:86` and `:209`) says that sensors imply
events. The code does not bring events up for sensors, and the model follows the
code: `EventsUpIff` says exactly when an initialisation leaves events up, and
`SensorsNeedNoEvents` is an input for which the header is wrong.

## Model

| member | source | states |
|---|---|---|
| RobinHood.RunBehind | SDL3-3.4.4/src/SDL_hashtable.c:158-216 | behind an item stored p slots from home lie p live slots, the d-th of them itself at least p - d from its home; the local order makes this global |
| RobinHood.EmptySlotBounds | SDL3-3.4.4/src/SDL_hashtable.c:158-216 | no item has been displaced past an empty slot |
| RobinHood.PlaceKeepsOrder | SDL3-3.4.4/src/SDL_hashtable.c:168-183 | storing the carried item in an empty slot it has arrived at keeps the order |
| RobinHood.SwapKeepsOrder | SDL3-3.4.4/src/SDL_hashtable.c:190-212 | exchanging the carried item with a richer one keeps the order, and the evicted item has arrived at the next slot |
| RobinHood.PassKeepsArrival | SDL3-3.4.4/src/SDL_hashtable.c:186-212 | passing an item that is not richer leaves the carried item arrived at the next slot |
| RobinHood.ShiftKeepsOrder | SDL3-3.4.4/src/SDL_hashtable.c:233-245 | moving the item behind a hole one slot back keeps the order |
| RobinHood.ClearKeepsOrder | SDL3-3.4.4/src/SDL_hashtable.c:233-239 | zeroing a hole whose successor is at home or empty keeps the order |
| RobinHood.MatchingItemIsAhead | SDL3-3.4.4/src/SDL_hashtable.c:117-149 | every slot from the home bucket to a matching item is live and holds an item at least as far from home as the probe has come |
| RobinHood.ProbeStep | SDL3-3.4.4/src/SDL_hashtable.c:117-149 | each of the three reasons to stop a probe (dead slot, richer item, longest probe passed) proves that no key matches; otherwise the search may go on |
| RobinHood.InsertFromCorrect | SDL3-3.4.4/src/SDL_hashtable.c:158-216 | a whole eviction chain adds exactly the new binding, keeps the order, counts one live slot more and bounds every probe by the new maximum |
| RobinHood.InsertTargetHoldsItem | SDL3-3.4.4/src/SDL_hashtable.c:158-216 | the slot an insertion reports holds the item it was given, wherever evicted items went |
| RobinHood.DeleteFromCorrect | SDL3-3.4.4/src/SDL_hashtable.c:218-246 | a whole backward shift removes exactly one binding, keeps the order and counts one live slot less |
| RobinHood.BindingsAreCounted | SDL3-3.4.4/src/SDL_hashtable.c:412-422 | there are as many bindings as live slots |
| RobinHood.EntriesListBindings | SDL3-3.4.4/src/SDL_hashtable.c:385-410 | the live slots list every binding exactly once |
| RobinHood.MigrationEnds | SDL3-3.4.4/src/SDL_hashtable.c:248-273 | what is collected from all old slots is the whole map |
| HashTableSpec.InsertionEffect | SDL3-3.4.4/src/SDL_hashtable.c:293-337 | for every key: a granted insertion binds exactly its key, a refused one changes nothing, except that with replace the old binding is gone |
| HashTableSpec.InsertionGrantedIff | SDL3-3.4.4/src/SDL_hashtable.c:275-337 | when an insertion is granted, both directions, in the constants of the source: capacity below 2^26, and replace for a bound key, or for a new one a load of at most 217/256 with it or memory; and that the capacity doubles exactly when a new key was added above that load |
| HashTableSpec.InsertionKeepsGood | SDL3-3.4.4/src/SDL_hashtable.c:275-337 | capacity stays a power of two within the limit, the load stays under the threshold and no two bound keys match |
| HashTableSpec.RunKeepsGood | SDL3-3.4.4/src/SDL_hashtable.c:275-451 | the same after any run of operations |
| HashTableSpec.LookupIsLastWrite | SDL3-3.4.4/src/SDL_hashtable.c:293-451 | after any run on an empty table, looking up any key gives what the operations and their replies say was written last |
| HashTableSpec.FullSizeRefusesForever | SDL3-3.4.4/src/SDL_hashtable.c:275-291 | a table whose capacity has reached the limit refuses every later insertion, however empty it becomes |
| HashTableSpec.BucketsReachEstimate | SDL3-3.4.4/src/SDL_hashtable.c:54-67 | the initial capacity is the least power of two that reaches the estimate, cut off at the limit |
| HashTableSpec.LargeEstimateHoldsNothing | SDL3-3.4.4/src/SDL_hashtable.c:54-67 | a table created with an estimate above half the limit stays empty through every run |
| HashTables.InsertItem | SDL3-3.4.4/src/SDL_hashtable.c:158-216 | the eviction loop over the array computes the whole-walk specification, writing carried items back into the source slot only |
| HashTables.ShiftBack | SDL3-3.4.4/src/SDL_hashtable.c:218-246 | the backward-shift loop computes the whole-shift specification |
| HashTables.InsertInto | SDL3-3.4.4/src/SDL_hashtable.c:158-216 | one insertion into an ordered array with an empty slot: exact new bindings, order, live count, probe bound and reported slot |
| HashTables.MigrateSlot | SDL3-3.4.4/src/SDL_hashtable.c:264-269 | migrating one old slot adds its binding to the new table although evicted items pass through that old slot |
| HashTables.Migrate | SDL3-3.4.4/src/SDL_hashtable.c:248-273 | after all old slots the new table holds all their bindings, in order, each once |
| HashTables.HashTable.constructor | SDL3-3.4.4/src/SDL_hashtable.c:69-99 | a new table is valid, empty and has the capacity its estimate gives |
| HashTables.CreateHashTable | SDL3-3.4.4/src/SDL_hashtable.c:69-99 | null if and only if memory for the table or its slots cannot be had; otherwise a valid empty table of the capacity its estimate gives |
| HashTables.HashTable.FindItem | SDL3-3.4.4/src/SDL_hashtable.c:117-156 | sound and complete: it reports a slot if and only if some bound key matches, and that slot matches |
| HashTables.HashTable.DeleteItem | SDL3-3.4.4/src/SDL_hashtable.c:218-246 | removes exactly the binding of the slot and hands exactly that pair to the destroy callback |
| HashTables.HashTable.Resize | SDL3-3.4.4/src/SDL_hashtable.c:248-273 | doubling keeps the map and re-establishes the whole invariant, or without memory leaves the table untouched |
| HashTables.HashTable.MaybeResize | SDL3-3.4.4/src/SDL_hashtable.c:275-291 | it grants the insertion if and only if the capacity is below 2^26 and the load with the new item is at most 217/256 or memory can be had; the table is doubled exactly when it grants it above that load |
| HashTables.HashTable.InsertIntoHashTable | SDL3-3.4.4/src/SDL_hashtable.c:293-337 | the new map and capacity are those of the map specification; the result and the doubling are also stated in the constants of the source; the replaced pair, and no other, is destroyed |
| HashTables.HashTable.AddItem | SDL3-3.4.4/src/SDL_hashtable.c:316-334 | the second half of an insertion, for a key that is not bound |
| HashTables.HashTable.FindInHashTable | SDL3-3.4.4/src/SDL_hashtable.c:339-363 | true if and only if some bound key matches, with the value bound to it |
| HashTables.HashTable.RemoveFromHashTable | SDL3-3.4.4/src/SDL_hashtable.c:365-383 | removes exactly the matching binding and tells whether there was one |
| HashTables.HashTable.IterateHashTable | SDL3-3.4.4/src/SDL_hashtable.c:385-410 | presents each binding exactly once unless the callback stops it, and then nothing after that entry |
| HashTables.HashTable.HashTableEmpty | SDL3-3.4.4/src/SDL_hashtable.c:412-422 | true if and only if nothing is bound |
| HashTables.HashTable.DestroyAll | SDL3-3.4.4/src/SDL_hashtable.c:425-438 | hands every live entry to the destroy callback, in slot order |
| HashTables.HashTable.ClearHashTable | SDL3-3.4.4/src/SDL_hashtable.c:440-451 | nothing stays bound and each pair is destroyed exactly once |
| HashTables.HashTable.Apply | SDL3-3.4.4/src/SDL_hashtable.c:293-451 | any one operation does and answers what the map specification does |
| HashTables.Replay | SDL3-3.4.4/src/SDL_hashtable.c:293-451 | any sequence of operations leaves the table, and answers, exactly as the map specification |
| Bits.MaskIsRemainder | SDL3-3.4.4/src/SDL_hashtable.c:107-115 | masking with a capacity less one is the remainder by the capacity |
| Bits.MaskedStep | SDL3-3.4.4/src/SDL_hashtable.c:212-212 | stepping an index under the mask wraps exactly at the end of the table |
| Bits.OneBitIsPow2 | SDL3-3.4.4/src/SDL_hashtable.c:54-67 | a number has exactly one bit set if and only if it equals the power of two of its highest bit |
| ByteQueue.Chunk.Append | curl-8.5.0/lib/bufq.c:59-71 | appends the prefix that fits behind the unread bytes |
| ByteQueue.Chunk.Read | curl-8.5.0/lib/bufq.c:73-92 | takes a prefix of the unread bytes; a chunk read empty is rewound to its start |
| ByteQueue.Chunk.Skip | curl-8.5.0/lib/bufq.c:134-145 | drops a prefix of the unread bytes; a chunk skipped empty is rewound |
| ByteQueue.Pool.Take | curl-8.5.0/lib/bufq.c:169-191 | hands out the first spare, blank, or a new chunk exactly when an allocation succeeds; the pool keeps its list, its count and its limit |
| ByteQueue.Pool.Put | curl-8.5.0/lib/bufq.c:193-205 | keeps the chunk unless there are spares enough; the count is the length of the list and within the limit |
| ByteQueue.BufQ.constructor | curl-8.5.0/lib/bufq.c:213-240 | a new queue is valid and empty, with the given options |
| ByteQueue.BufQ.Chains | curl-8.5.0/lib/bufq.c:308-385 | no chunk is in two lists: every chunk of the head, spare and pool lists is marked with the one list it is in |
| ByteQueue.BufQ.GetSpare | curl-8.5.0/lib/bufq.c:308-336 | a blank chunk if and only if there is a spare, or the limit allows one more and the pool or the memory has it; one less can be had afterwards; memory is asked only when neither spares nor the pool have one |
| ByteQueue.BufQ.LinkNext | curl-8.5.0/lib/bufq.c:373-383 | a blank chunk becomes the tail behind a full one without changing the queued bytes |
| ByteQueue.BufQ.GetNonFullTail | curl-8.5.0/lib/bufq.c:366-385 | a tail with room if and only if the tail, the spares, the pool and the memory can hold another byte within the limit; the bytes and what can be written stay the same |
| ByteQueue.BufQ.PruneOnce | curl-8.5.0/lib/bufq.c:342-363 | an empty head chunk leaves the head list: to the pool if there is one, to memory if the queue is over its limit or has spares, else to the spares; the bytes are unchanged |
| ByteQueue.BufQ.PruneHead | curl-8.5.0/lib/bufq.c:338-364 | afterwards the head is absent or has unread bytes, and the chunks that left went where each must; the bytes are unchanged |
| ByteQueue.BufQ.Write | curl-8.5.0/lib/bufq.c:387-418 | appends exactly as many bytes as the tail, the spares, the spares of the pool and the allocations that succeed can hold within the limit: with enough memory all under a soft limit and min(length, room) under a hard one, and without any what fits in chunks at hand; OUT_OF_MEMORY exactly when bytes are left over below the limit, also after a partial append; AGAIN exactly when nothing fits |
| ByteQueue.BufQ.CapacityIsRoom | curl-8.5.0/lib/bufq.c:308-336 | with memory for all that is to be written only the limit counts, and no memory makes a queue hold more than its hard limit |
| ByteQueue.BufQ.RoomIsTheRest | curl-8.5.0/lib/bufq.c:273-289 | under a hard limit the room is exactly the size of all chunks allowed less the queued bytes and the part of the first chunk already read |
| ByteQueue.BufQ.StorageIsCount | curl-8.5.0/lib/bufq.c:310-385 | without a pool the bytes, the part of the first chunk already read and what can be written without memory are exactly the size of the chunks counted |
| ByteQueue.BufQ.Read | curl-8.5.0/lib/bufq.c:420-441 | returns exactly the first min(length, queued) bytes and removes them; AGAIN exactly when it returns none; chunks used up go to the pool, to memory or to the spares as each must |
| ByteQueue.BufQ.Skip | curl-8.5.0/lib/bufq.c:481-490 | removes exactly the first min(amount, queued) bytes; chunks used up go to the pool, to memory or to the spares as each must |
| ByteQueue.BufQ.Peek | curl-8.5.0/lib/bufq.c:443-456 | shows exactly the unread part of the first chunk, if and only if the queue is not empty, and leaves the bytes alone |
| ByteQueue.LocateBytes | curl-8.5.0/lib/bufq.c:458-479 | following the chunk list from its head finds the run of unread bytes from an offset to the end of its chunk, if and only if the offset is inside |
| ByteQueue.BufQ.PeekAt | curl-8.5.0/lib/bufq.c:458-479 | shows exactly the bytes from the offset to the end of its chunk, if and only if the offset is inside the queue, and changes nothing |
| ByteQueue.BufQ.BytesUnread | curl-8.5.0/lib/bufq.c:262-271 | the number of queued bytes |
| ByteQueue.BufQ.SpaceLeft | curl-8.5.0/lib/bufq.c:273-289 | exactly the room: what a write can still append without going over the limit |
| ByteQueue.BufQ.IsEmpty | curl-8.5.0/lib/bufq.c:291-294 | true if and only if no bytes are queued |
| ByteQueue.BufQ.IsFull | curl-8.5.0/lib/bufq.c:296-306 | true if and only if there is no room, or the queue is over a soft limit and has no spares; with a hard limit, if and only if there is no room; a full queue is not empty |
| ByteQueue.BufQ.Reset | curl-8.5.0/lib/bufq.c:250-260 | no bytes stay queued and every chunk becomes a spare |
| ByteQueue.BufQ.Pass | curl-8.5.0/lib/bufq.c:492-522 | the writer is offered the unread part of the first chunk again and again until nothing is left or it takes nothing, and no other call is made; what it took followed by the new content is the old content; the result is -1 exactly when the first call took nothing or the last one failed for another reason than blocking, and else counts the bytes moved |
| ByteQueue.BufQ.MakeRoom | curl-8.5.0/lib/bufq.c:535-546 | queued bytes are passed on if and only if the queue is full, and then the writer is called; otherwise nothing changes |
| ByteQueue.BufQ.PassAndWrite | curl-8.5.0/lib/bufq.c:534-563 | one round: the writer is called if and only if the queue was full; AGAIN under a hard limit means that the queue is full and the last call of the writer took nothing; what is queued is what fits after passing on |
| ByteQueue.BufQ.WritePass | curl-8.5.0/lib/bufq.c:524-573 | the calls of the writer are those of the rounds: in the first, and under a hard limit in each, the queue is passed on if and only if it is full; unless the writer fails a round then queues what fits, memory permitting; bytes taken by the writer followed by the new content are the old content followed by the accepted prefix, also when the call fails; it stops short under a hard limit only when the queue is full and the last answer of the writer was nothing or a failure, and with enough memory a failure is the error of the writer; the loop ends |
| ByteQueue.BufQ.Sipn | curl-8.5.0/lib/bufq.c:575-603 | one read from the reader is appended, and nothing the reader gave is lost; the reader is asked if and only if the queue can hold another byte, for the free end of the last chunk or a new one, capped by the maximum; otherwise the error is OUT_OF_MEMORY below the limit and AGAIN at it |
| ByteQueue.BufQ.Slurpn | curl-8.5.0/lib/bufq.c:614-650 | all the reader gave is queued, at most the given maximum; it is asked each time for the free end of the last chunk or a new one, capped by what is left of the maximum, and again only after it filled that; a count means that the maximum was reached, the reader ended or had nothing more for now, no byte more can be held, or the tail is not full; an error is the one the reader gave, or that of a missing chunk |
| Dialogue.WantedIsFreeEnd | curl-8.5.0/lib/bufq.c:107-109 | the size asked for, told from the bytes in place, is the free end of the last chunk, or the maximum where that is less |
| Fifo.NothingLostOrReordered | curl-8.5.0/lib/bufq.c:250-650 | over any run, passing on and slurping included: initial bytes and all that entered equal all that left and what remains, in order |
| Fifo.LimitsAreKept | curl-8.5.0/lib/bufq.c:250-650 | over any run a queue with a hard limit never holds more than its chunks |
| SharedPool.Apply | curl-8.5.0/lib/bufq.c:250-650 | any operation, with its writer and reader and its memory, does to the bytes, and shows, what it does to a first-in-first-out sequence with limits; a write accepts exactly what its room allows |
| SharedPool.ChunksAreApart | curl-8.5.0/lib/bufq.c:169-205 | for two queues on one pool no chunk is in both, or in one of them and the pool |
| SharedPool.Unaffected | curl-8.5.0/lib/bufq.c:169-205 | a queue whose own chunks are left alone keeps its bytes and its room, whatever happens to the pool |
| SharedPool.ApplyAmong | curl-8.5.0/lib/bufq.c:169-205 | an operation on one queue leaves every other queue of the same pool exactly as it is |
| SharedPool.Interleave | curl-8.5.0/lib/bufq.c:169-650 | any number of queues on one pool, used in any order with one writer and one reader, are independent first-in-first-out sequences, each with its own limits; each loses and reorders nothing and stays within its limits, and the writer and the reader have exactly what the runs say |
| Fraction.GCDIsGreatest | SDL3-3.4.4/src/SDL_utils.c:65-71 | the common divisors of two numbers are exactly the divisors of what the recursion returns |
| Fraction.CombinationIsOne | SDL3-3.4.4/src/SDL_utils.c:65-71 | numbers with an integer combination equal to 1 have greatest common divisor 1 |
| Fraction.MediantBrackets | SDL3-3.4.4/src/SDL_utils.c:81-101 | either half of a bracket, split at its mediant, is a bracket with the same determinant 1, on the side the comparison tells |
| Fraction.UpperIsClose | SDL3-3.4.4/src/SDL_utils.c:103-105 | the upper end is nearer than 1 / (q N) once the lower denominator is over N |
| Fraction.LowerIsClose | SDL3-3.4.4/src/SDL_utils.c:106-109 | the lower end is nearer than 1 / (q N) once the upper denominator is over N |
| Fraction.CalculateFraction | SDL3-3.4.4/src/SDL_utils.c:75-110 | for every number it ends, in lowest terms, with a denominator from 1 to N; the fraction is nearer than 1 / (q N), and is the number or the one of its two neighbours that lies across their mediant; negative numbers give 0/1 |
| Fraction.CloseIsAlone | SDL3-3.4.4/src/SDL_utils.c:75-110 | every other fraction with a denominator up to N is farther from the answer than the number is, so none lies between |
| Fraction.CloseIsExact | SDL3-3.4.4/src/SDL_utils.c:75-110 | a number that has a denominator up to N is returned itself |
| Fraction.NoneBetween | SDL3-3.4.4/src/SDL_utils.c:81-101 | between adjacent fractions there is none with a denominator below the sum of theirs |
| Fraction.NeighboursExist | SDL3-3.4.4/src/SDL_utils.c:81-101 | every number that is not negative lies between two adjacent fractions, for any bound on denominators |
| Fraction.NeighboursAreUnique | SDL3-3.4.4/src/SDL_utils.c:81-101 | there is only one such pair around a number that is in no such pair |
| Fraction.BestIffNotBetween | SDL3-3.4.4/src/SDL_utils.c:73-110 | the answer is a best approximation if and only if the number does not lie strictly between the mediant and the midpoint of its two neighbours; an exact hit always is |
| Fraction.NegativeIsBestIff | SDL3-3.4.4/src/SDL_utils.c:73-110 | for a negative number the answer 0/1 is a best approximation if and only if the number is at least -1/2000 |
| Fraction.SumsFit | SDL3-3.4.4/src/SDL_utils.c:81-101 | up to 1073741 the sums that the search forms fit a 32-bit signed integer |
| Fraction.NotAlwaysBest | SDL3-3.4.4/src/SDL_utils.c:73-110 | for 0.0006 the promise can only be met by 0/1, which is not a best approximation, since 1/1000 is nearer |
| UriDecode.DecodingInvertsEncoding | SDL3-3.4.4/src/SDL_utils.c:277-333 | decoding inverts every percent-encoding of every byte sequence (section 2.1 of RFC 3986), and only well-formed texts are encodings |
| UriDecode.DecodesWhatWasEncoded | SDL3-3.4.4/src/SDL_utils.c:277-333 | decoding gives back every byte sequence escaped with the digits 0-9 and a-f or A-F written out, byte by byte in either case or as it is, for every choice that escapes the percent sign |
| UriDecode.DigitOfValue | SDL3-3.4.4/src/SDL_utils.c:313-321 | the value of each of the sixteen digits, in lower and upper case, is its place in the alphabet |
| UriDecode.HexIsAlphabet | SDL3-3.4.4/src/SDL_utils.c:300-303 | a byte is a digit of an escape if and only if it is in one of the two alphabets |
| UriDecode.DecodedConcat | SDL3-3.4.4/src/SDL_utils.c:287-330 | decoding a text after a well-formed one decodes each by itself |
| UriDecode.BrokenEscapes | SDL3-3.4.4/src/SDL_utils.c:294-312 | an escape with a byte that is no digit is copied as it stands, and one cut off by the end is dropped |
| UriDecode.EscapesShrink | SDL3-3.4.4/src/SDL_utils.c:277-333 | each escape of a well-formed text takes three bytes and leaves one |
| UriDecode.ReadOne | SDL3-3.4.4/src/SDL_utils.c:287-330 | one more byte read, in any of the three states, advances the recursive definition by one step and writes no more than was read |
| UriDecode.CopyForward | SDL3-3.4.4/src/SDL_utils.c:303-312 | copies an invalid escape forwards exactly, also within one array |
| UriDecode.ReadByte | SDL3-3.4.4/src/SDL_utils.c:287-330 | one round keeps what is written equal to the decoded prefix, the unread text intact and the write index at or before the read index less the pending bytes |
| UriDecode.DecodeText | SDL3-3.4.4/src/SDL_utils.c:287-332 | the loop over a text of given length, which may share its array with the destination |
| UriDecode.Decode | SDL3-3.4.4/src/SDL_utils.c:277-333 | with separate arrays, or in one array with the destination at or before the source, the same bytes and length; zero-terminated; no other byte changes; null or negative length gives -1 and changes nothing; length 0 means up to the zero |
| CStrings.StrLen | SDL3-3.4.4/src/SDL_utils.c:284-286 | the length of the text before the first zero |
| Bits.OrIsSum | SDL3-3.4.4/src/SDL_utils.c:321-321 | bits put below the lowest bit of a multiple of 2^k add to it |
| Base64.TableEntry | curl-8.5.0/lib/base64.c:46-54 | the 65 entries of each encoding table: letters, digits, the two special symbols, and padding or a terminating zero |
| Base64.LookupIsValue | curl-8.5.0/lib/base64.c:56-61 | the decoding table gives every character its value and all others none |
| Base64.ValueIsInverse | curl-8.5.0/lib/base64.c:46-61 | decoding and encoding tables are inverse to each other |
| Base64.LetterIs | curl-8.5.0/lib/base64.c:46-54 | the 64 letters of both alphabets written out (tables 1 and 2 of RFC 4648) |
| Base64.EncodingKeepsBits | curl-8.5.0/lib/base64.c:188-249 | the bits of the symbols, six each, are the bits of the bytes, eight each, in order, followed by the zero bits that fill the last symbol |
| Base64.DecodesWhatIsSpelled | curl-8.5.0/lib/base64.c:76-186 | a text is accepted and decodes to given bytes if and only if it is made of whole quanta, padded at the end only, whose letters hold the bits of those bytes |
| Base64.EncodedLength | curl-8.5.0/lib/base64.c:188-249 | the standard output has 4 * ceil(n / 3) symbols, the URL output ceil(4 n / 3) |
| Base64.UrlEncodingIsUrlForm | curl-8.5.0/lib/base64.c:188-291 | the URL output is the standard output with + and / replaced and the padding removed (sections 4 and 5 of RFC 4648) |
| Base64.RoundTrip | curl-8.5.0/lib/base64.c:76-249 | for every non-empty byte sequence the decoder accepts its encoding and gives the sequence back |
| Base64.DecodeThenEncode | curl-8.5.0/lib/base64.c:76-249 | encoding what an accepted text decodes to gives that text with the unused low bits of its last symbol cleared |
| Base64.OutputIsCanonical | curl-8.5.0/lib/base64.c:188-249 | the encoder produces texts on which decoding and encoding is the identity |
| Base64.GroupDecodes | curl-8.5.0/lib/base64.c:131-147 | four symbols for three bytes decode to those bytes |
| Base64.LookupTells | curl-8.5.0/lib/base64.c:136-138 | the lookup rejects exactly the characters outside the alphabet |
| Base64.ReadQuantum | curl-8.5.0/lib/base64.c:132-140 | four symbols are read as one 24-bit number if and only if all are letters of the alphabet |
| Base64.ReadLastQuantum | curl-8.5.0/lib/base64.c:148-168 | the padded quantum is read if and only if all symbols before its padding are letters of the alphabet |
| Base64.CountPadding | curl-8.5.0/lib/base64.c:93-104 | counts the trailing padding, giving up exactly when there are more than two |
| Base64.DecodeFull | curl-8.5.0/lib/base64.c:131-147 | decodes the full quanta, or reports a bad symbol among them exactly when there is one |
| Base64.DecodeInto | curl-8.5.0/lib/base64.c:106-176 | a text whose length is a multiple of four decodes if and only if it is acceptable |
| Base64.DecodeText | curl-8.5.0/lib/base64.c:76-186 | with memory a text is accepted if and only if it is acceptable; without, exactly the texts of whole quanta with at most two padding characters fail for memory; accepted texts give exactly the decoded bytes, zero-terminated, of the stated length |
| Base64.PutGroup | curl-8.5.0/lib/base64.c:212-219 | the shifts and masks of the encoder write the four symbols of three bytes |
| Base64.PutOne | curl-8.5.0/lib/base64.c:220-229 | the symbols of one last byte, with two padding characters or none |
| Base64.PutTwo | curl-8.5.0/lib/base64.c:220-237 | the symbols of two last bytes, with one padding character or none |
| Base64.EncodeInto | curl-8.5.0/lib/base64.c:212-242 | the loop writes exactly the encoding of its input |
| Base64.Encode | curl-8.5.0/lib/base64.c:188-291 | the zero-terminated encoding of the given bytes, or, for size 0, of the text up to its terminating zero; it fails exactly when there is no memory |
| Bits.HighMask | curl-8.5.0/lib/base64.c:212-237 | masking with ones above k zero bits drops the k low bits |
| MsgQueue.StepKeepsInv | discord-rpc/msg_queue.h:9-35 | every atomic step of either side keeps the invariant that links counters, slots, and what was committed and consumed |
| MsgQueue.WrapKeepsSlot | discord-rpc/msg_queue.h:24-24 | the slot of a wrapped counter is the slot of the true count when the size fits |
| MsgQueue.InvIsSafe | discord-rpc/msg_queue.h:9-35 | the invariant keeps the two sides off each other's slot and shows the consumer the oldest message not yet consumed |
| MsgQueue.RunsAreSafe | discord-rpc/msg_queue.h:9-35 | in every interleaving, across wrap-around: never the same slot, never more pending than fits, consumed is a prefix of committed |
| MsgQueue.RunsTell | discord-rpc/msg_queue.h:9-35 | after every run, for a ring of any size, as many messages are committed and consumed as there are commits of either side, and each was, when committed, what the producer last filled in |
| MsgQueue.ConsumerGetsWhatWasSent | discord-rpc/msg_queue.h:9-35 | in every interleaving, across wrap-around: what is committed, and what the consumer gets, is message by message what the producer last filled in before each commit; what was sent is told from the actions alone |
| MsgQueue.NextIsAccepted | discord-rpc/msg_queue.h:13-26 | after any run an idle producer with a free slot can send any message, which is then the next one committed; without a free slot nothing changes |
| MsgQueue.NextIsDelivered | discord-rpc/msg_queue.h:29-35 | after any run a waiting consumer gets the oldest message not yet consumed, if there is one; else nothing changes |
| MsgQueue.OtherSizesCollide | discord-rpc/msg_queue.h:9-35 | for every other size there is a run after which both sides hold the same slot |
| MsgQueue.SafeIffSizeFits | discord-rpc/msg_queue.h:9-35 | the ring is safe in all runs if and only if its size is less than 2^32 and divides it |
| ResolverHandshake.StepKeepsInv | curl-8.5.0/lib/asyn-thread.c:181-203 | every critical section, release and hand-over of either side keeps the invariant on who owns what |
| ResolverHandshake.RunsReleaseOnce | curl-8.5.0/lib/asyn-thread.c:288-417 | in every interleaving nothing is released twice, and at the end everything is released once: the thread data by the thread if and only if the cancelling critical section came first, both wake-up descriptors, and the list unless the wake-up failed and the result was collected all the same |
| ResolverHandshake.RunsGetOn | curl-8.5.0/lib/asyn-thread.c:288-417 | until both sides are finished some step is possible, and every step brings the end nearer but a poll before the thread is done, which changes nothing |
| ResolverHandshake.RunsEndAsAsked | curl-8.5.0/lib/asyn-thread.c:288-417 | at the end of every run, told from its actions alone: the list was stored if and only if it was found, the result was collected and the wake-up worked, lost if it did not, and freed if the parent gave up; the thread frees the data if and only if it was let go before it was done |
| ResolverHandshake.PollCollects | curl-8.5.0/lib/asyn-thread.c:563-591 | after any run, once the thread has exited, a poll of an idle parent completes the lookup and hands on the list; an idle parent can always poll and cancel, and wait exactly when the thread has exited |
| ResolverHandshake.ListCanBeLost | curl-8.5.0/lib/asyn-thread.c:265-334 | a run in which the found list is neither stored nor freed |
| Subsystems.QuitUndoesInit | SDL3-3.4.4/src/SDL.c:326-670 | quitting one subsystem undoes initialising it, implied ones included, whatever the counts were |
| Subsystems.QuitUndoesInitAll | SDL3-3.4.4/src/SDL.c:326-670 | quitting the same flags undoes initialising them, although the orders differ |
| Subsystems.InitAllRepresents | SDL3-3.4.4/src/SDL.c:326-579 | a successful initialisation of any flags adds one hold for each, with the implied counts to match |
| Subsystems.QuitRepresentsIff | SDL3-3.4.4/src/SDL.c:586-670 | a quit of one subsystem keeps the books if and only if the client holds it or it is down |
| Subsystems.QuitAllRepresentsIff | SDL3-3.4.4/src/SDL.c:586-670 | a quit of any flags takes one hold of each held one away, with the implied counts to match, if and only if joysticks that are not held are quit only when no gamepad stays held, and events that are not held only when nothing that implies them stays held |
| Subsystems.RunRepresents | SDL3-3.4.4/src/SDL.c:326-670 | after any run in which every quit is fair in that sense, failed initialisations included: events = its holds and the live video, audio, joystick and camera; joystick = its holds and a live gamepad; any other = its holds |
| Subsystems.ImpliedAreUp | SDL3-3.4.4/src/SDL.c:326-670 | while a subsystem is up so is the one it implies, and without holds nothing is up |
| Subsystems.DishonestQuit | SDL3-3.4.4/src/SDL.c:586-670 | a client that quits what it does not hold takes it from under a live dependent |
| Subsystems.RepresentsIsConsistent | SDL3-3.4.4/src/SDL.c:326-670 | counts that match their holds have the implied subsystem up with every subsystem |
| Subsystems.CountsAreHolds | SDL3-3.4.4/src/SDL.c:326-670 | what matching counts are, subsystem by subsystem, in the array of the source: events also counts live video, audio, camera and joystick, and joystick a live gamepad |
| Subsystems.BitOfFlag | SDL3-3.4.4/include/SDL3/SDL_init.h:80-87 | the index of each subsystem is the bit of its flag |
| Subsystems.EventsUpIff | SDL3-3.4.4/src/SDL.c:326-579 | after an initialisation events are up if and only if they were before or a flag other than haptic and sensor asks for them |
| Subsystems.InitAllStarts | SDL3-3.4.4/src/SDL.c:326-579 | bringing up flags that can start makes no other subsystem able or unable to start, so success does not depend on the order |
| Subsystems.ForceAllClears | SDL3-3.4.4/src/SDL.c:586-670 | while the library shuts down, a quit clears exactly the running subsystems it names and those they imply through running ones |
| Subsystems.Library.Increment | SDL3-3.4.4/src/SDL.c:198-205 | one user more |
| Subsystems.Library.Decrement | SDL3-3.4.4/src/SDL.c:208-218 | one user less, none below zero, all of them at once while the library shuts down |
| Subsystems.Library.InitOrIncrement | SDL3-3.4.4/src/SDL.c:245-257 | one user more of a running subsystem, always; otherwise a full initialisation, which succeeds exactly when no driver that it must start fails, or changes nothing |
| Subsystems.Library.BringUp | SDL3-3.4.4/src/SDL.c:387-421 | one subsystem with what it implies, exactly when it is up or no driver that must start fails; otherwise all counts as they were |
| Subsystems.Library.InitFlags | SDL3-3.4.4/src/SDL.c:368-566 | the flags in turn; on failure exactly those before the first that cannot start are initialised |
| Subsystems.Library.InitSubSystem | SDL3-3.4.4/src/SDL.c:326-579 | all flags or none: it succeeds if and only if the library is ready and every flag is up or can start by itself, and else leaves every count as it was; on success events are up if and only if they were or a flag other than haptic and sensor asks for them |
| Subsystems.Library.TakeDown | SDL3-3.4.4/src/SDL.c:650-661 | one user less, and the implied subsystem with the last one, or all of them while the library shuts down |
| Subsystems.Library.QuitSubSystem | SDL3-3.4.4/src/SDL.c:586-670 | the counts after quitting the flags, dependents first, whether or not the library shuts down |
| Subsystems.Library.Quit | SDL3-3.4.4/src/SDL.c:702-743 | whatever the counts were, all subsystems are quit and no count is left |
| Subsystems.Replay | SDL3-3.4.4/src/SDL.c:326-670 | any sequence of requests, with any drivers failing, changes the counts as the run it determines |
| Subsystems.ReplayFresh | SDL3-3.4.4/src/SDL.c:326-670 | from a library that has just started, requests that are fair leave exactly the counts of what is held |

## Left out

- Hash table: read-write locks, null checks of the table argument, the string,
  pointer and identifier hash functions, and `SDL_DestroyHashTable`, which adds
  only the release of memory. Iteration is proved by itself and is not an
  operation of the runs in `Replay`, since it changes nothing.
- Hash table: the buffer of a carried item is an array of one slot, so that
  migration and insertion share one loop over (array, index), as in the source
  they share one over a pointer.
- Byte queue: the raw memory of a chunk. A chunk and its bytes are one
  allocation, so the bytes are a field of the chunk; a freed chunk is one that
  is in no list. `Curl_bufq_free` and the pool's release only free memory.
- Byte queue: pointers returned by a peek are modelled as the bytes they show.
- ByteQueue.BufQ.WritePass: its writes may each be refused memory at a different point,
  so it promises what holds for at least the given number of allocations at each of them.
  Under a soft limit it says for the first round whether the writer is called; for later
  rounds, which follow only a write that was refused memory, that depends on the chunks
  in between, and `ByteQueue.BufQ.PassAndWrite` says it for each.
- Fifo.Shows: for a queue with a soft limit the sequence does not say which of the two
  errors a write without memory reports, since that depends on how many chunks the queue
  has kept as spares; `ByteQueue.BufQ.Write` says it for the queue itself.
- Fraction.CalculateFraction: exact real arithmetic, because the theorem is about
  the search; rounding of floats, infinities and NaN are not modelled. `SumsFit`
  shows that its integers do not overflow for numbers up to 1073741; what an
  overflow does beyond that is not modelled.
- URI decoding: the file-name conversion around the decoder. Characters are
  bytes from 0 to 255; the sign of `char` does not matter to the comparisons.
- Base64: the limit on the input size for 32-bit sizes.
- MsgQueue.StepKeepsInv: the ring's fields are a value that steps transform, since
  two threads change them; memory orders weaker than sequential consistency are
  not modelled, and the source uses none. The join-request client in
  `discord-rpc/discord_rpc.cpp:197-211`, which may reserve without committing,
  breaks the protocol assumed.
- ResolverHandshake.RunsReleaseOnce: claims exactly-once release and that no
  cleanup starts on freed data, not that every access precedes the release: the
  parent reads the thread handle after leaving the critical section. Name
  resolution, poll intervals, and failures before the thread starts are left
  out, and so is the variant for platforms without getaddrinfo, which is the
  same without a wake-up.
- Subsystems.Library.InitSubSystem: flags are a set of the eight subsystems, since
  other bits are ignored; which drivers fail is an input, as a call starts no driver twice;
  the limit of 255 users that the source asserts is a precondition. An
  initialisation called by a driver during `SDL_Quit` is not modelled; if it failed,
  its rollback would clear counts instead of lowering them.
- Subsystems.Library.Quit: the counts only, not the release of timers, hints, logs and
  properties. Helper windows, thread identities and error messages are left out.
- Windows, D-Bus and file-system set-up in SDL, the proxy filters, connection
  racing and other resolvers in libcurl, and the Discord client itself.

# Models and proofs for CppPotpourri

CppPotpourri is a library of data structures for small machines. This project
models its hardest parts in Dafny and proves what they promise, on all inputs
and over whole runs. `dafny verify dfyconfig.toml` checks everything.

| modules | what they are about |
|---|---|
| `Basics` | what several modules use, machine words among them |
| `Lcg`, `Bits`, `Pcg` | the bundled random number generator: its full period, its output permutation, its byte stream |
| `Perlin` | the shuffled table of the noise generator |
| `Priorities`, `PriorityRuns`, `PriorityQueues` | the priority queue: stable sorted sequences, whole runs, and the linked list that holds them |
| `Dependencies`, `Steps`, `Sequencing`, `AsyncSequencers` | the dependency-ordered sequencer: the closure of a request, whole runs, and the object with its five masks |
| `Fragments`, `Replacing`, `StringBuilders` | the string builder: what its operations mean on flat strings and fragment lists, and the linked list of fragments |
| `RingBuffers`, `Uarts`, `UartPipes` | the ring buffer, the UART adapter on it, and the byte stream through two adapters |
| `Cbor`, `CborTruncations`, `CborDecoders` | the CBOR reader: what it makes of a string, of items that are cut off, and the reader as it runs over a string builder |
| `Crypto`, `CryptoEffects`, `CryptoDraining`, `CryptoProcessors` | the life of cryptographic operations: the state machine, what each call changes, how it drains, and the objects |
| `ElementPools` | the element pool and the bus adapter's use of it |

Most components have two layers. Pure functions on sequences, sets and records
say what an operation means, and lemmas prove what the library promises about
them. Classes with the library's own fields do the work in place, with its
loops and its branches, and each method is proved to compute the pure function.
A ghost field of a class holds the abstract value (`fragments`, `items`,
`contents`, `ops`), and `Valid` ties it to the linked nodes or the array.

Some properties that one would expect do not hold of the code. The code is
modelled as it is, and the exact condition under which it meets the property is
proved, in most cases with an input on which it does not:

- leftmost replacement, `Replacing.ScanIsExact`;
- implode undone by split, `Fragments.SplitUndoesImplode`;
- operations that use the 16-bit fragment count, `Fragments.AvailableExact`,
  `Fragments.JoinLength`, `StringBuilders.StringBuilder.CloneClobber`;
- operations whose arguments are cast or added with 32 bits,
  `Fragments.LimitExact`, `Fragments.BehindExact`, `Fragments.RangeExact`;
- refusal of truncated CBOR items, `CborTruncations.TruncatedItem`, negative
  integers, `Cbor.NegativeExact`, and the test for the length of strings,
  `Cbor.LengthTestExact` and `Cbor.TextDefinedExactly`;
- giving elements to the pool, `ElementPools.GiveKeepsExactly` and
  `ElementPools.BusAdapter.ReclaimQueueItem`, and setting it up,
  `ElementPools.BusAdapter.MemoryInit`;
- calls by clients on operations in a processor, `Crypto.AbortKeepsExactly` and
  `Crypto.RequeueKeepsExactly`, and operations that are run again,
  `Crypto.SecondRunFaults`;
- return values: `PriorityQueues.PriorityQueue.InsertIfAbsent`,
  `CryptoProcessors.CryptoProcessor.PurgeQueuedWork`, and the failure count in
  `CryptoDraining.AnsweredInOrder`.

The closure of a request in the sequencer is exact if no cycle can be reached
from the request (`Steps.ClosureWithoutCycle`). The converse is false
(`Steps.CyclicPairIsComplete`), and among requests that reach a cycle there are
incomplete ones (`Steps.CyclicListMissesDependency`). Which of these are complete
depends on the order of the list and on where the recursion hits its depth limit;
a condition short of running the recursion is not known, and none is claimed.

Assumed throughout: allocation succeeds; callbacks do not re-enter and clients do
not change the state of an operation that is queued; the two builders of a
hand-off are different objects with different nodes; rings have a capacity;
strings, also those that result, rings, pools and what is allocated for them take
less than 2^31 bytes; sequencer steps have distinct one-bit flags. What callbacks,
hardware, clocks and implementations of cryptographic operations do is given to
the methods as parameters and is arbitrary in the theorems.

## Model

| member | source | states |
|---|---|---|
| `Pcg.Generator.Next` | src/C3PRandom/C3PRandom.cpp:83-89 | The shift-and-or expression of the code is the 32-bit right rotation of the xorshifted word by the top five bits of the old state; the new state is 6364136223846793005 times the old one plus the increment, modulo 2^64. |
| `Pcg.Generator.Seed` | src/C3PRandom/C3PRandom.cpp:91-97 | After seeding, the increment is 2 * stream + 1 modulo 2^64, and the state is 6364136223846793005 times (increment + seed) plus the increment, modulo 2^64, for every seed and stream. |
| `Pcg.Generator.Init` | src/C3PRandom/C3PRandom.cpp:106-116 | A zero seed is replaced by the clock reading; the stream is 7, so the increment is 15, and the state is that of Seed, in figures. |
| `Pcg.SeedsAndStates` | src/C3PRandom/C3PRandom.cpp:91-97 | For each stream the seeds and the states after seeding correspond one to one. |
| `Pcg.Generator.Fill` | src/C3PRandom/C3PRandom.cpp:126-140 | For every length that the signed counter can hold the buffer gets exactly the next bytes of one little-endian byte stream, nothing beyond is touched, and length/4 + 1 words are drawn, even when the length is a multiple of four. |
| `Pcg.Generator.RandomU32` | src/C3PRandom/C3PRandom.cpp:43-47 | A 32-bit draw returns one output word and discards the next one. |
| `Pcg.EveryStateOnce` | src/C3PRandom/C3PRandom.cpp:83-86 | For every seed and every odd increment each of the 2^64 states is met exactly once in 2^64 steps. |
| `Pcg.PeriodIsExact` | src/C3PRandom/C3PRandom.cpp:83-86 | The generator is back at a state exactly after the multiples of 2^64 words. |
| `Pcg.DrawPeriod` | src/C3PRandom/C3PRandom.cpp:43-47 | Since a 32-bit draw takes two words, draws repeat exactly after the multiples of 2^63. |
| `Pcg.OutputDigits` | src/C3PRandom/C3PRandom.cpp:86-88 | Bit i of an output word is the exclusive or of bits k + 27 and k + 45 of the state, where k is i plus the number in the top five bits, modulo 32. |
| `Pcg.OutputIsBijectiveOnBlocks` | src/C3PRandom/C3PRandom.cpp:86-88 | Among the states with the same five top and 27 low bits, each 32-bit word is the output of exactly one, and that state is given by undoing rotation and xorshift. |
| `Pcg.OutputsAreEquidistributed` | src/C3PRandom/C3PRandom.cpp:83-89 | Over one period every 32-bit word is output exactly once by each of the 2^32 blocks of states. |
| `Lcg.FullPeriod` | src/C3PRandom/C3PRandom.cpp:85 | A recurrence modulo 2^k with a multiplier that is 1 modulo 4 and an odd increment reaches every residue in 2^k steps, from any start. |
| `Lcg.ReturnsExactlyAtPeriod` | src/C3PRandom/C3PRandom.cpp:85 | Such a recurrence returns to its start exactly after the multiples of 2^k. |
| `Lcg.GeometricHalves` | src/C3PRandom/C3PRandom.cpp:85 | The geometric sum of such a multiplier has exactly as many factors of two as its number of terms: the number-theoretic core of the period. |
| `Bits.RotationInverts` | src/C3PRandom/C3PRandom.cpp:88 | Rotating right and rotating left by the same amount undo each other, for every word width. |
| `Bits.RotationIdiom` | src/C3PRandom/C3PRandom.cpp:88 | The two shifts and the or of the code are a rotation, for a zero rotation too. |
| `Bits.XorshiftInjective` | src/C3PRandom/C3PRandom.cpp:86 | The xorshift loses no information. |
| `Perlin.PerlinNoise.Reshuffle` | src/C3PRandom/PerlinNoise.cpp:78-89 | The draw for position i is every second output word of the generator, counted from the last position downwards, modulo i. For every table size and every generator state the first half of the table is the cycle that these draws determine, one single cycle, its last entry is the first word modulo one less than the size, and the second half is its copy. |
| `Perlin.CycleIsSingle` | src/C3PRandom/PerlinNoise.cpp:81-86 | Because j is drawn strictly below i, the shuffle leaves one single cycle, for every list of draws. |
| `Perlin.NoFixedPoint` | src/C3PRandom/PerlinNoise.cpp:81-86 | No entry of the table maps to itself. |
| `Perlin.SingleCycleMeansReachable` | src/C3PRandom/PerlinNoise.cpp:81-86 | One cycle, stated with closed sets, is the same as: from every position every position is reached by following the table. |
| `Perlin.EveryCycleIsDrawn` | src/C3PRandom/PerlinNoise.cpp:81-86 | Every single cycle comes from some list of draws. |
| `Perlin.CycleDeterminesDraws` | src/C3PRandom/PerlinNoise.cpp:81-86 | It comes from one list only, so uniform draws give a uniform cycle. |
| `Perlin.LookupsWrap` | src/C3PRandom/PerlinNoise.cpp:141-144 | All four lookups stay in the doubled table and read the cycle at the index modulo its size. |
| `PriorityQueues.PriorityQueue.Insert` | src/PriorityQueue.h:238-262 | The new entry goes behind all entries of at least its priority; count and order stay right, and the position is returned. |
| `PriorityQueues.PriorityQueue.InsertNode` | src/PriorityQueue.h:270-300 | The relinking of an existing node, which is also correct on a list that is not sorted yet. |
| `PriorityQueues.PriorityQueue.InsertIfAbsent` | src/PriorityQueue.h:156-215 | Inserts exactly if the data is absent. The code returns the position of the node it linked behind, which is the position of the new node only at the front: the contract says so, against the comment. |
| `PriorityQueues.PriorityQueue.GetLastWithPriority` | src/PriorityQueue.h:352-361 | Finds the last of the leading nodes of at least a priority, and their number. |
| `PriorityQueues.PriorityQueue.EnforcePriorities` | src/PriorityQueue.h:364-408 | On every list the restarting sort ends and leaves a stable descending sort of the same nodes; the inversion count falls with each move. |
| `PriorityQueues.PriorityQueue.RestoreOrder` | src/PriorityQueue.h:373-402 | One test of the sort either leaves everything, or moves a node and lowers the inversion count; the prefix it has passed is sorted. |
| `PriorityQueues.PriorityQueue.IncrementPriority` | src/PriorityQueue.h:411-418 | The first node with the data has its old priority plus one, every other node has its old one, and the same nodes are stably sorted again, which is the event of the run theorems. |
| `PriorityQueues.PriorityQueue.DecrementPriority` | src/PriorityQueue.h:421-428 | The same with minus one. |
| `PriorityQueues.PriorityQueue.Dequeue` | src/PriorityQueue.h:436-456 | Takes the head, keeps the rest in order and the count exact. |
| `PriorityQueues.PriorityQueue.Recycle` | src/PriorityQueue.h:470-495 | Returns the head and sends it to the rear with the priority of the rear; the queue stays sorted. |
| `PriorityQueues.PriorityQueue.RemovePosition` | src/PriorityQueue.h:514-535 | Takes out exactly the node at a position, or nothing. |
| `PriorityQueues.PriorityQueue.GetNodeByElement` | src/PriorityQueue.h:336-345 | Finds the first node that holds the data. |
| `Priorities.InsertAllSorts` | src/PriorityQueue.h:270-300 | A series of insertions leaves a stable descending sort of what was inserted. |
| `PriorityRuns.RunKeeps` | src/PriorityQueue.h:156-499 | Over every mix of insert, insertIfAbsent, changes of priority, recycle and dequeue the queue stays sorted, and what was returned and what is left is what was brought in. |
| `PriorityRuns.FirstInFirstOut` | src/PriorityQueue.h:156-456 | In every run of insertions and removals, however mixed, the entries of each priority come out in the order in which they came in. |
| `PriorityRuns.DrainReturnsAll` | src/PriorityQueue.h:436-456 | After any such run as many removals as there are entries return them in queue order and leave nothing, so in all exactly what was brought in has been returned. |
| `PriorityRuns.DrainIsStableSort` | src/PriorityQueue.h:238-456 | Inserting and then draining returns a stable descending sort of what was inserted. |
| `Priorities.StableSortUnique` | src/PriorityQueue.h:364-408 | A stable descending sort is determined by what is sorted. |
| `Priorities.MoveRemovesInversions` | src/PriorityQueue.h:388-397 | Moving an entry up past lower ones removes one inversion for each and changes no priority class. |
| `Priorities.SwapRemovesInversion` | src/PriorityQueue.h:376-385 | Swapping two neighbours that are out of order removes exactly one inversion and changes no priority class. |
| `Priorities.FullRecycle` | src/PriorityQueue.h:470-495 | n recyclings of n entries return each datum once, in order, and restore the order of the data, with all priorities down to the lowest. |
| `AsyncSequencers.AsyncSequencer.GetDependencyMask` | src/AsyncSequencer.cpp:276-295 | The recursion with its depth limit computes the sweep that the closure lemmas are about. |
| `Sequencing.MarksKeepExactly` | src/AsyncSequencer.cpp:72-83 | Marking a step as dispatched or complete keeps the invariant of reachable states if and only if the step is runnable and, unless it is marked as passed, no runnable step depends on it. |
| `AsyncSequencers.AsyncSequencer.ResetSequencer` | src/AsyncSequencer.cpp:190-196 | Clears all five masks. |
| `AsyncSequencers.AsyncSequencer.RequestSteps` | src/AsyncSequencer.cpp:222-225 | A request adds the expanded mask to the requested steps and changes nothing else. |
| `AsyncSequencers.AsyncSequencer.CheckDependencies` | src/AsyncSequencer.cpp:89-104 | Afterwards the runnable steps are the old ones and the flags of exactly the listed steps that are requested and whose dependencies have passed, whatever else runs, waits or has failed. |
| `AsyncSequencers.AsyncSequencer.DispatchSteps` | src/AsyncSequencer.cpp:107-121 | Each step of the mask is dispatched once and in list order; a step that answers 1 runs, one that answers neither 1 nor 0 is complete and has not passed, and nothing else is marked. |
| `AsyncSequencers.AsyncSequencer.PollSteps` | src/AsyncSequencer.cpp:124-138 | Each step of the mask is polled once and in list order; a step that answers 1 is complete and has passed, one that answers neither 1 nor 0 is complete and has not passed, and nothing else is marked. |
| `AsyncSequencers.AsyncSequencer.PollOnce` | src/AsyncSequencer.cpp:148-187 | For arbitrary answers: the steps that become runnable are exactly the listed, requested ones whose dependencies had passed before; what was runnable, neither running nor complete, is dispatched, and what ran or was dispatched with success is polled. In reachable states all five masks are given by the answers, and the result is the number of changed bits, at most 96, so the signed byte holds it. |
| `Steps.DependencyMaskIsClosure` | src/AsyncSequencer.cpp:276-295 | On an acyclic list the result is, for every request, exactly the least dependency-closed set that contains the valid requested flags, although covered dependencies are skipped and depth is limited. |
| `Steps.ClosureOfRequest` | src/AsyncSequencer.cpp:276-295 | On any list it is so for every request whose steps lie in a dependency level that the depth limit covers. |
| `Steps.ClosureWithoutCycle` | src/AsyncSequencer.cpp:276-295 | So a request gets its exact closure if no dependency chain from it is longer than the list, whatever cycles there are elsewhere. |
| `Steps.SweepIsSound` | src/AsyncSequencer.cpp:276-295 | On any list, cyclic or not, the result lies in every closed set that contains the request. |
| `Steps.CyclicListMissesDependency` | src/AsyncSequencer.cpp:267-275 | A list of five steps with cycles on which the closure is incomplete: the comment only says that a cycle costs recursion depth. |
| `Steps.CyclicPairIsComplete` | src/AsyncSequencer.cpp:267-275 | A cycle need not cost a step: of any two steps that depend on each other both are found. |
| `Sequencing.RunKeepsInvariant` | src/AsyncSequencer.cpp:72-138 | Over every run of requests and polls: passed within complete, running and complete apart, both within runnable, that within requested, and dependencies of runnable steps passed; complete and passed never shrink. |
| `Sequencing.CallbacksAreSafe` | src/AsyncSequencer.cpp:107-138 | Over every run from reset a dispatch function is called only when everything down every dependency chain has passed, and a poll function only for a running step. |
| `Sequencing.PollOutcome` | src/AsyncSequencer.cpp:89-158 | What one poll leaves of any reachable state, mask by mask, in terms of the arbitrary answers of the callbacks. |
| `Sequencing.ReadyIsDispatched` | src/AsyncSequencer.cpp:89-158 | In every reachable state and for arbitrary answers a requested step whose dependencies have passed becomes runnable in the next poll and is dispatched in the one after it, whatever the other steps do. |
| `Sequencing.ZeroMeansUnchanged` | src/AsyncSequencer.cpp:148-187 | In reachable states poll returns 0 exactly when it left all five masks as they were. |
| `Sequencing.BusyPollsAreBounded` | src/AsyncSequencer.cpp:148-187 | However long a run is, at most three polls per step return something else. |
| `Sequencing.NeverStuck` | src/AsyncSequencer.cpp:148-187 | On an acyclic list, while a request is incomplete and nothing has failed, a poll that is answered with 1 changes the state. |
| `Sequencing.FulfilledExactlyAt` | src/AsyncSequencer.cpp:148-187 | On an acyclic list whose dependencies are all listed, a run of polls whose callbacks all answer 1 fulfils a fresh request exactly if it has at least twice as many polls as the longest dependency chain of the request has steps. |
| `Sequencing.TwoPollsPerLevel` | src/AsyncSequencer.cpp:148-187 | After 2k polls of such a run exactly the requested steps of dependency level k have passed; one poll later exactly the next level is runnable. |
| `Dependencies.HeightIsLongestChain` | src/AsyncSequencer.cpp:276-295 | The number of levels of a request is the length of its longest dependency chain. |
| `StringBuilders.StringBuilder.Count` | src/StringBuilder.cpp:331-339 | The number of fragments as a 16-bit counter shows it, which is the number itself exactly for fewer than 65536. |
| `StringBuilders.StringBuilder.Position` | src/StringBuilder.cpp:661-680 | The fragment at a position; nothing before the first and past the last one. |
| `StringBuilders.StringBuilder.Concat` | src/StringBuilder.cpp:1010-1026 | A copy of the bytes becomes the last fragment, in a new node; no bytes, no fragment. |
| `StringBuilders.StringBuilder.Prepend` | src/StringBuilder.cpp:1000-1007 | A copy of the bytes becomes the first fragment, in a new node; no bytes, no fragment. |
| `StringBuilders.StringBuilder.Length` | src/StringBuilder.cpp:293-299 | The recursive sum is the length of the string. |
| `StringBuilders.StringBuilder.Containing` | src/StringBuilder.cpp:1687-1703 | Finds fragment and inner offset for every offset within the string, and reports -1 past it. |
| `StringBuilders.StringBuilder.ByteAt` | src/StringBuilder.cpp:385-395 | The byte of the flat string at an offset, 0 past its end. |
| `StringBuilders.StringBuilder.StackOntoList` | src/StringBuilder.cpp:1750-1780 | Hangs a chain of nodes on the end; nodes and fragments are those of both, in order. |
| `StringBuilders.StringBuilder.ConcatHandoff` | src/StringBuilder.cpp:742-757 | All nodes move to the end of the receiver and the donor is left empty. |
| `StringBuilders.StringBuilder.PrependHandoff` | src/StringBuilder.cpp:920-942 | All nodes move to the front of the receiver and the donor is left empty. |
| `StringBuilders.StringBuilder.ConcatHandoffPositions` | src/StringBuilder.cpp:769-805 | Moves exactly the nodes pos..pos+k, with their fragments, and leaves the donor the others; the two node sets stay disjoint. How many those are follows from the 16-bit count, the unsigned subtraction and the signed comparison. |
| `Fragments.AvailableExact` | src/StringBuilder.cpp:777 | All that is wanted and there is moved, for every position and count, if and only if the donor has fewer than 65536 fragments. |
| `Fragments.AvailableCases` | src/StringBuilder.cpp:777-802 | How many fragments are moved for every number of fragments, position and count: the end of the list limits a start behind the 16-bit count, and a count that is no signed number then moves one. |
| `StringBuilders.StringBuilder.DropPosition` | src/StringBuilder.cpp:706-730 | Takes out exactly one fragment and reports whether there was one. |
| `StringBuilders.StringBuilder.ReadBytes` | src/StringBuilder.cpp:1717-1739 | The byte-wise copy across fragments yields the slice of the flat string, from any reading position. |
| `StringBuilders.StringBuilder.CreateFrom` | src/StringBuilder.cpp:1828-1842 | A fragment with a copy of a slice is made exactly if the slice is non-empty and exists. |
| `StringBuilders.StringBuilder.ConcatLimit` | src/StringBuilder.cpp:884-904 | Appends one fragment with the first bytes of the donor, in a new node, as many as the limit allows after its cast to a signed number; the donor is unchanged. |
| `Fragments.LimitExact` | src/StringBuilder.cpp:891 | As many bytes as there are up to the limit are taken, from every donor, if and only if the limit is below 2^31; from there on none is taken. |
| `StringBuilders.StringBuilder.CloneClobber` | src/StringBuilder.cpp:975-995 | Copies the donor fragment by fragment into new nodes, as many as its 16-bit count shows: the copy is complete if and only if there are fewer than 65536. |
| `StringBuilders.StringBuilder.CopyToBuffer` | src/StringBuilder.cpp:1139-1156 | Writes exactly the requested slice and nothing behind it, for every limit, and every start up to 2^31 behind the string. |
| `Fragments.BehindExact` | src/StringBuilder.cpp:1141 | The unsigned difference, taken as a signed number, tells starts within the string from others if and only if the start is at most 2^31 behind it. |
| `StringBuilders.StringBuilder.Collapse` | src/StringBuilder.cpp:1882-1922 | Leaves one fragment that holds the whole string, or none; nodes are old or new. |
| `StringBuilders.StringBuilder.CullRange` | src/StringBuilder.cpp:1166-1192 | Keeps exactly the stated range if it exists; a length of zero clears, all else changes nothing; nodes are old or new. The end of the range must be a signed number. |
| `Fragments.RangeExact` | src/StringBuilder.cpp:1177 | The range test, with a sum that wraps, is right if and only if the sum is below 2^31. |
| `StringBuilders.StringBuilder.Cull` | src/StringBuilder.cpp:1204-1234 | Drops exactly the first x bytes; nodes are old or new. |
| `StringBuilders.StringBuilder.Chunk` | src/StringBuilder.cpp:1528-1606 | Whatever the fragments were, the new ones are the pieces of the flat string, and their number is returned; short strings are collapsed and count as one, and a size that is not positive is refused; nodes are old or new. |
| `Fragments.ChunksCover` | src/StringBuilder.cpp:1528-1606 | The pieces hold the same bytes; all have the chunk size but the last, which has between one byte and that. |
| `Fragments.ChunkCount` | src/StringBuilder.cpp:1528-1606 | There are as many pieces as the length divided by the size, rounded up. |
| `StringBuilders.StringBuilder.Implode` | src/StringBuilder.cpp:1480-1517 | Joins the fragments with the delimiter if there are more than two bytes and, by the 16-bit count, more than one fragment, and only then; returns their number; the buffer is written within its bounds; nodes are old or new. |
| `Fragments.JoinLength` | src/StringBuilder.cpp:1483-1489 | The buffer whose size is computed with the 16-bit count is never too large, and holds the joined string if and only if there are fewer than 65536 fragments. |
| `Fragments.JoinPlaces` | src/StringBuilder.cpp:1489-1510 | Where each fragment stands in the joined string, and that the delimiter follows every fragment but the last. |
| `StringBuilders.StringBuilder.Split` | src/StringBuilder.cpp:1615-1635 | The fragments become the tokens of the flat string up to its first NUL; without a token the string is only collapsed; nodes are old or new. |
| `StringBuilders.Strtok` | src/StringBuilder.cpp:1619-1627 | One call of strtok (section 7.24.5.8 of ISO C11) yields the next maximal run without delimiters. |
| `Fragments.TokensFilter` | src/StringBuilder.cpp:1615-1635 | Tokens are non-empty and free of delimiters, and together they are the string with its delimiters taken out. |
| `Fragments.SplitUndoesImplode` | src/StringBuilder.cpp:1480-1635 | Wherever the buffer of implode holds the result, implode and then split with the same delimiter restore the exact fragment list if and only if there is no fragment; or there is one, and it is clean or has nothing but delimiters before its end or first NUL; or there are more, implode joins them, and all are clean. Clean is: no delimiter byte and no NUL. |
| `Fragments.TwoBytesAreMerged` | src/StringBuilder.cpp:1486 | Two clean fragments of one byte each are not restored: implode leaves them alone and split makes one fragment of them. |
| `StringBuilders.StringBuilder.Replace` | src/StringBuilder.cpp:1353-1471 | Count, text and fragments after a replacement depend only on the flat string: the spans that the scan finds are replaced and the rest is left; without a hit nothing is touched; nodes are old or new. |
| `StringBuilders.StringBuilder.Compare` | src/StringBuilder.cpp:1383-1436 | One turn of the search loop on the fragment list is one step of the scan on the flat string, giving a byte back after a mismatch inside a partial match. |
| `StringBuilders.StringBuilder.CompareByte` | src/StringBuilder.cpp:1411-1436 | A byte that matches extends the partial match and moves the reading position on; one that does not ends the partial match, and moves the position on only if there was none. |
| `Replacing.HitsAreOccurrences` | src/StringBuilder.cpp:1383-1436 | Every replaced span is a real occurrence; spans are disjoint and in order. |
| `Replacing.SplicedLength` | src/StringBuilder.cpp:1353-1471 | The length changes by the difference of the two lengths, once per replacement. |
| `Replacing.SplicedPlaces` | src/StringBuilder.cpp:1353-1471 | Where everything stands in the result: each replacement, the text before it and the text behind the last one have moved by the difference of the two lengths, once for each hit before. |
| `Replacing.PiecesMakeSpliced` | src/StringBuilder.cpp:1386-1406 | The fragments that are emitted are together the replaced string. |
| `Replacing.RebuiltIsPieces` | src/StringBuilder.cpp:1383-1452 | What the search loop emits hit by hit is the pieces between the hits and the replacements. |
| `Replacing.ScanIsExact` | src/StringBuilder.cpp:1424-1430 | The scan is leftmost non-overlapping search for all strings if and only if every recurrence of the first byte of the needle in it starts a border of the needle; the fall-back after a partial match loses occurrences otherwise. |
| `Replacing.MissedOccurrence` | src/StringBuilder.cpp:1424-1430 | For every other needle a string in which an occurrence is missed. |
| `RingBuffers.RingBuffer.Insert` | src/RingBuffer.h:147-160 | Appends an element if there is room; the wrapped indices stand for one sequence. |
| `RingBuffers.RingBuffer.InsertMany` | src/RingBuffer.h:173-190 | Takes exactly the prefix that there is room for and returns its length, or -1 for none. |
| `RingBuffers.RingBuffer.Get` | src/RingBuffer.h:226-235 | Takes the first element, or returns zero. |
| `RingBuffers.RingBuffer.GetMany` | src/RingBuffer.h:262-271 | Takes the first elements in order. |
| `RingBuffers.RingBuffer.Peek` | src/RingBuffer.h:246-252 | Reads an element without removing it, and what lies in memory behind the last one. |
| `RingBuffers.RingBuffer.PeekMany` | src/RingBuffer.h:281-290 | Reads the first elements without removing them. |
| `RingBuffers.RingBuffer.Cull` | src/RingBuffer.h:132-138 | Drops exactly the first elements; dropping none is reported as -1. |
| `RingBuffers.RingBuffer.Contains` | src/RingBuffer.h:198-218 | Finds an element exactly if it is in the ring, wherever the ring wraps. |
| `RingBuffers.RingBuffer.Clear` | src/RingBuffer.h:111-122 | Empties the ring and zeroes its memory. |
| `Uarts.UARTAdapter.PushBuffer` | src/BusQueue/UARTAdapter.cpp:187-221 | For every fragmentation the buffer is split into an accepted prefix, of the length of the vacancy or of the buffer, which is appended to the ring, and the suffix that stays; the return code tells which of the three cases it was. |
| `Uarts.UARTAdapter.WriteBuilder` | src/BusQueue/UARTAdapter.cpp:247-252 | Returns how many bytes were taken. |
| `Uarts.UARTAdapter.Read` | src/BusQueue/UARTAdapter.cpp:282-290 | What is read and what stays is what was received. |
| `Uarts.UARTAdapter.ReadBuilder` | src/BusQueue/UARTAdapter.cpp:296-308 | The receive ring is emptied into one new fragment. |
| `Uarts.UARTAdapter.HandleRxPush` | src/BusQueue/UARTAdapter.cpp:319-340 | Peek, push and cull move exactly the bytes that the downstream adapter takes from one ring to the other. |
| `UartPipes.RunConserves` | src/BusQueue/UARTAdapter.cpp:187-340 | Over every run of pushes, line transfers, relays and drains the bytes out, in the three rings and still pending are the stream that was offered, in order. |
| `UartPipes.EverythingComesOut` | src/BusQueue/UARTAdapter.cpp:187-340 | With rings of any non-zero size the pipe never stalls: after a bounded number of cycles the whole stream is out. |
| `CborDecoders.C3PValueDecoder.Next` | src/C3PValue/C3PValue.cpp:798-807 | Wherever what the code does is defined: returns the chain of the next item and takes exactly its bytes off the builder; unparsable input is dropped only on request. |
| `CborDecoders.C3PValueDecoder.NextItem` | src/C3PValue/C3PValue.cpp:814-985 | Wherever what the code does is defined: the recursive reader over a fragmented builder, with its wrapping sums and casts, computes the item function of the flat string, with a fresh chain of values. |
| `Cbor.LengthTestExact` | src/C3PValue/C3PValue.cpp:849 | The test whether a string is there as a whole, with a sum of 32 bits, is right if and only if the sum does not wrap. |
| `Cbor.TextDefinedExactly` | src/C3PValue/C3PValue.cpp:849-927 | A text is read in a defined way if and only if the end that its head announces is below 2^32; otherwise the code writes outside its buffer. |
| `Cbor.LongTextUndefined` | src/C3PValue/C3PValue.cpp:849-927 | Five octets that announce a text of 2^32 - 1 octets are such a text. |
| `Cbor.ItemDefined` | src/C3PValue/C3PValue.cpp:814-985 | Every well-formed item, wherever it stands, is read in a defined way if it ends below 2^31. |
| `CborDecoders.C3PValueDecoder.HandleArray` | src/C3PValue/C3PValue.cpp:989-1022 | The loop that links element after element yields the leaves of all elements as one chain, or nothing. |
| `CborDecoders.C3PValueDecoder.GetLengthField` | src/C3PValue/C3PValue.cpp:756-787 | The argument is the big-endian number of the octets that follow, read through the 64-bit word and its shift. |
| `CborDecoders.WordShifts` | src/C3PValue/C3PValue.cpp:770-779 | Shifting the left-aligned word right leaves the number. |
| `CborDecoders.C3PValue.Link` | src/C3PValue/C3PValue.cpp:560-571 | Links behind the last value of a chain and changes no other link. |
| `CborDecoders.C3PValue.Count` | src/C3PValue/C3PValue.cpp:589-591 | The length of the chain. |
| `CborDecoders.C3PValue.ValueWithIdx` | src/C3PValue/C3PValue.cpp:513-523 | The value at an index of the chain, or null past its end. |
| `Cbor.ItemReads` | src/C3PValue/C3PValue.cpp:814-985 | Wherever a well-formed item of RFC 8949 stands, with any head width, at any depth and before any other bytes, it is read as its flattened leaves and exactly its bytes are consumed. |
| `Cbor.ItemsRead` | src/C3PValue/C3PValue.cpp:989-1022 | The same for a run of items. |
| `Cbor.ShortNumbers` | src/C3PValue/C3PValue.cpp:852-895 | What short numbers are read as, octet by octet. |
| `Cbor.SimpleValues` | src/C3PValue/C3PValue.cpp:954-966 | The octets of false, true, null and undefined, and of the two floating-point widths. |
| `Cbor.ShortStrings` | src/C3PValue/C3PValue.cpp:897-927 | What byte and text strings of fewer than 24 octets are read as, octet by octet. |
| `Cbor.UnknownIsRefused` | src/C3PValue/C3PValue.cpp:814-985 | The other direction: wherever they stand, reserved heads, unknown simple values, half-precision numbers, strings without content and empty lists are never read. |
| `Cbor.UnreadableTaken` | src/C3PValue/C3PValue.cpp:798-807 | Unreadable input stays, unless its consumption is asked for; then exactly one octet of an unknown special value, or the head of a simple value or half-precision number with enough octets behind it, is taken, and all else stays. |
| `Cbor.StreamReads` | src/C3PValue/C3PValue.cpp:798-807 | From a concatenation of well-formed items, followed by anything, the calls return the leaves of each item in turn and leave the tail. |
| `Cbor.NegativeExact` | src/C3PValue/C3PValue.cpp:868-895 | Wherever a negative integer stands, with any head width and any argument, it is read and its bytes are consumed; the value is right if the argument is below 2^63, and 2^64 too large otherwise. |
| `Cbor.BigEndianBack` | src/C3PValue/C3PValue.cpp:770-779 | Writing a number big-endian and reading it gives it back. |
| `CborTruncations.TruncatedItem` | src/C3PValue/C3PValue.cpp:814-1022 | An item of which only the first octets are there is refused if and only if the cut is inside it: not before its first octet, and for a list not between two of its items, however deep; otherwise it is read with a zero for each missing item. No position behind the length of the whole item is used, and reading is defined if the whole item would end below 2^31. |
| `CborTruncations.TruncatedNext` | src/C3PValue/C3PValue.cpp:798-807 | On a string that ends within an item the next value is missing, and the string is left, if and only if the string is empty or the cut is inside; otherwise the whole string is taken. |
| `CborTruncations.TruncatedListPads` | src/C3PValue/C3PValue.cpp:989-1022 | A list that is cut off between two items is read with zeros for the missing ones, and more bytes are reported as consumed than there are. |
| `CryptoProcessors.CryptOp.Advance` | src/CryptoBurrito/CryptoBurritoUtils.cpp:101-121 | One step of an operation, with every fault ending it. |
| `CryptoProcessors.CryptOp.AdvanceRng` | src/CryptoBurrito/CryptoBurritoUtils.cpp:178-204 | The random-number operation falls through all its phases in one call, or faults for want of memory. |
| `Crypto.SecondRunFaults` | src/CryptoBurrito/CryptoBurritoUtils.cpp:141-204 | A random-number operation that is kept and run again as it is faults for want of memory if and only if it owned its result, because wiping takes the length away with the buffer. |
| `Crypto.AbortKeepsExactly` | src/CryptoBurrito/CryptoBurrito.h:166-169 | An abort by a client keeps the placement invariant if and only if the operation is being worked on or complete. |
| `Crypto.RequeueKeepsExactly` | src/CryptoBurrito/CryptoBurrito.h:161-164 | A mark for requeueing by a client keeps it if and only if the operation is idle, that is, no answer is owed. |
| `CryptoProcessors.CryptoProcessor.QueueJob` | src/CryptoBurrito/CryptoBurritoUtils.cpp:297-318 | An idle operation is queued by its priority; with no room it is complete with the fault QueueFlush and waits in the callback queue by its priority; one that is not idle changes nothing. The code tells which; the processor keeps its invariant. |
| `CryptoProcessors.CryptoProcessor.PurgeCurrentJob` | src/CryptoBurrito/CryptoBurritoUtils.cpp:324-334 | With a job active: it is noted as answered, total and failures each grow by one, the slot is empty and both queues stay; a kept operation is idle with the fault QueueFlush and without the buffer it owned, any other is freed and counted; all other operations stay. Without one nothing changes. |
| `CryptoProcessors.CryptoProcessor.PurgeQueuedWork` | src/CryptoBurrito/CryptoBurritoUtils.cpp:339-350 | Every queued job is answered in queue order and counted as failed; queued operations that are kept are idle with the fault QueueFlush, the others are freed, and all other operations, the active job and the callback queue stay. The number returned is a signed byte, right if and only if there were fewer than 128 jobs. |
| `CryptoProcessors.CryptoProcessor.ReclaimQueueItem` | src/CryptoBurrito/CryptoBurritoUtils.cpp:381-400 | Counts a finished job, as failed if it has a fault; frees it, or leaves it idle with its fault and without the buffer that it owned; all other operations stay. |
| `CryptoProcessors.CryptoProcessor.AdvanceWorkQueue` | src/CryptoBurrito/CryptoBurritoUtils.cpp:404-442 | Takes a job if none is active and moves it one step, handing it on when it is complete or has faulted. |
| `CryptoProcessors.CryptoProcessor.AdvanceCallbackQueue` | src/CryptoBurrito/CryptoBurritoUtils.cpp:445-478 | Calls one operation back and recycles or reclaims it. |
| `CryptoProcessors.CryptoProcessor.Poll` | src/CryptoBurrito/CryptoBurritoUtils.cpp:233-238 | One poll is one step of the state machine that the run theorems are about, and keeps the invariant: first a step of work, then one callback, each described field by field. |
| `Crypto.OneAnswerEach` | src/CryptoBurrito/CryptoBurritoUtils.cpp:297-478 | At every moment of every run each operation is in exactly as many places, none or one, as answers to it are owed; its submissions and answers alternate; what was taken is in flight, recycled or reclaimed, and what is gone was freed once; the work queue keeps its bound. |
| `Crypto.StepKeeps` | src/CryptoBurrito/CryptoBurritoUtils.cpp:297-478 | Every submission, poll and purge keeps the invariant: an operation is in one place at most and its state says in which. |
| `Crypto.AdvanceCurrentKeeps` | src/CryptoBurrito/CryptoBurritoUtils.cpp:404-442 | An active operation stays in the slot or goes to the callback queue, with the matching state, whatever its implementation does. |
| `Crypto.AdvanceCallbacksKeeps` | src/CryptoBurrito/CryptoBurritoUtils.cpp:445-478 | The same for an operation that is called back, recycled into a queue with or without room, or reclaimed. |
| `CryptoEffects.QueueJobAnswers` | src/CryptoBurrito/CryptoBurritoUtils.cpp:297-318 | The code of a submission tells where the operation is afterwards: -1 if and only if it was in the processor already, and then nothing changes; 0, queued; -2, flushed for want of room and waiting to be called back. |
| `CryptoEffects.PurgeAnswersAll` | src/CryptoBurrito/CryptoBurritoUtils.cpp:339-350 | A purge answers every queued job once, in queue order, and counts each as failed; what was queued is idle with the fault QueueFlush or gone, and all else stays. |
| `CryptoEffects.PurgeCurrentAborts` | src/CryptoBurrito/CryptoBurritoUtils.cpp:324-334 | Purging the active job aborts it before it is answered and counted, so it counts as a failure and is left with the fault. |
| `CryptoEffects.AdvanceWorkMoves` | src/CryptoBurrito/CryptoBurritoUtils.cpp:404-442 | The work of one poll, field by field: which operation is advanced, what becomes of it, and that it leaves the slot for the callback queue exactly if it was complete or has faulted. |
| `CryptoEffects.AdvanceCallbacksAnswers` | src/CryptoBurrito/CryptoBurritoUtils.cpp:445-478 | The callback of one poll, field by field: an operation that asks for it loses its fault and is submitted again at priority 0, with or without room; any other ends. |
| `CryptoDraining.AnsweredInOrder` | src/CryptoBurrito/CryptoBurritoUtils.cpp:404-478 | Random-number jobs submitted to a processor at rest are answered in stable priority order after exactly two polls each, less one for each that faults, and not earlier; none of these faults is counted as a failure, while faults left from earlier runs are counted again. |
| `CryptoDraining.Drains` | src/CryptoBurrito/CryptoBurritoUtils.cpp:404-478 | The same for any queue of such jobs: exactly so many polls, answers in queue order. |
| `ElementPools.ElementPool.Allocated` | src/ElementPool.h:116-139 | Lists every slot as free, the first time it is called; whatever heap elements are out by then, the pool is whole afterwards. |
| `ElementPools.UnlistedKeeps` | src/ElementPool.h:149-205 | Before the slots are listed, elements come from the heap and were in nobody's hands, and overdraws less frees stay the live elements if and only if what is given back is out. |
| `ElementPools.ElementPool.TakeElement` | src/ElementPool.h:195-205 | Hands out the first free slot, or the next heap element if there is none, which is counted; the low watermark follows the number of free slots. |
| `ElementPools.ElementPool.GiveElement` | src/ElementPool.h:149-164 | Takes back any element: a slot goes to the end of the ring if it has room, all else to the heap, counted as freed; a whole pool stays whole if and only if the element could be given back. |
| `ElementPools.TakeKeeps` | src/ElementPool.h:195-205 | What is taken was in nobody's hands, and the slots stay the disjoint union of the free and the lent ones. |
| `ElementPools.GiveKeepsExactly` | src/ElementPool.h:149-164 | Giving back keeps the pool whole if and only if the element is out, or is a slot while all slots are free. |
| `ElementPools.NothingLentTwice` | src/ElementPool.h:116-205 | In every run from a whole pool no lent slot is handed out, every slot is free or lent and not both, the ring never overflows, and overdraws less frees are the live heap elements. |
| `ElementPools.WatermarkIsLeast` | src/ElementPool.h:195-205 | Over every run from a whole pool the low watermark ends at the least number of free slots at any moment, or where it was, if that is less. |
| `ElementPools.BusAdapter.NewOp` | src/BusQueue/BusQueue.h:361-369 | A vacant operation that was in nobody's hands, kept from being reaped exactly if it is a slot of the pool. |
| `ElementPools.BusAdapter.ReclaimQueueItem` | src/BusQueue/BusQueue.h:529-555 | Slots, and whatever has not been kept from being reaped, are given to the pool, foreign operations too; a whole pool stays whole if and only if nothing was given, or what was given was out, or was a slot while all slots were free. |
| `ElementPools.BusAdapter.MemoryInit` | src/BusQueue/BusQueue.h:509-520 | The set-up loop, which counts with eight bits, ends if and only if there are at most 255 slots, and then after one turn for each. A whole pool is whole after any number of turns; if all slots are free, the free list is restored exactly, but the low watermark is at most one below the capacity. |

## Left out

- Masks of the sequencer are sets of bit numbers; bitwise operators are set operators.
- Fragment buffers, token strings and ring transfers are values (`seq`), not memory: pointers into them and the terminating zero byte are not modelled, except where a C string ends at a NUL.
- Null arguments: a null needle, replacement or delimiter of `implode` is modelled as an empty one, which the code treats alike; a null delimiter of `split`, for which `strtok` is not defined, null donors and buffers, on which the code does nothing, are not arguments here.
- Statistics and priorities are unbounded numbers: 32-bit counts of transfers, jobs, frees and overdraws would wrap after 2^32 events, and a priority at the end of its range cannot be raised or lowered. Widths that change what the code does are explicit: the words of the generator, the 16-bit fragment count with the unsigned subtraction and signed comparison of `concatHandoffPositions`, the limits and offsets of `concatLimit`, `copyToBuffer` and `cull`, the CBOR argument, its 32-bit truncation, the sums and casts of the reader, the 8-bit counter of the adapter's set-up loop, the signed byte of `purge_queued_work`, the result of the sequencer's `poll`.
- StringBuilders.StringBuilder.Implode: with 65536 fragments or more, unless the 16-bit count shows fewer than two, the code writes behind its buffer; what that does is not modelled, and the contract of `Implode` excludes it. `Fragments.JoinLength` says when it happens.
- StringBuilders.StringBuilder.CopyToBuffer: a start more than 2^31 behind the string, where the code reads before a fragment (`Fragments.BehindExact`).
- StringBuilders.StringBuilder.CullRange: an offset and a length whose sum is no signed 32-bit number (`Fragments.RangeExact`).
- Pcg.Generator.Fill: lengths from 2^31 on, for which the signed counter of the code overflows.
- CborDecoders.C3PValueDecoder.Next: input for which `Cbor.Defined` does not hold, at any depth: texts whose announced end wraps (`Cbor.TextDefinedExactly`), where the code writes outside its buffer, and positions from 2^31 on, where it passes a negative offset to `byteAt`; these are reached only by a list whose count exceeds what is left of it by so much.
- Release of memory: destroyed nodes and deleted operations are only forgotten.
- The queues inside `CryptoProcessors.CryptoProcessor` are sequences on which insertion is the function that `PriorityQueues.PriorityQueue.Insert` is proved to compute; the linked lists are not nested in the object.
- The elements of `ElementPools` are references without content; the address test of `inPool` is a test of their kind. Slots are listed when the adapter is made.
- The ring's memory is there from the start; the lazy allocation of `allocated` cannot fail under the assumptions.
- `concatHandoffLimit`, `locate` on fragmented strings, negative arguments of `byteAt`, `PriorityQueue::remove(T)` and `purge_queued_work_by_dev`: the code does not match its comments there.
- CBOR maps and tags: `Cbor.Item` and `CborDecoders.C3PValueDecoder.NextItem` read nothing for major types 5 and 6. Floating point numbers are read as bit patterns.
- Nested steps of cryptographic operations (`_nxt_step`), and implementations of operations other than random numbers: they are arbitrary outcomes.
- `resetSteps` and `setState` of the sequencer: they overwrite the state that the run theorems are about.
- Floating-point noise values, printing, logging, console handlers, mutexes, GPIO, time and hardware drivers.
- Conversions of `StringBuilder` (case, numbers, hexadecimal, trimming), `MultiStringSearch`, `LinkedList`, `C3PStack`, flag containers and the numeric containers: they would only add easy members.

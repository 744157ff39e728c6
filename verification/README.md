# Verified model of Sengoo's runtime algorithms

Sengoo ships a compiler, a C and Rust runtime, a standard library and generators.
This project models the algorithms of those parts that carry real invariants, and proves
what they promise for every input and every run:

| modules | part of Sengoo |
|---|---|
| Words, Crc, CrcPolynomial, CrcCheckValue, Gzip, GzipTheorems, GzipFormat | stored-block gzip codec with CRC-32 |
| Sha256, Sha256File, Sha256Standard, Sha256Transform | one-shot, streaming and snapshot SHA-256 drivers, and the block transform |
| Handles, HandlesTheorems | generational table of opaque handles |
| Snapshots, SnapshotsTheorems, SnapshotsOpen | file snapshots: owners, counters, contents |
| Scheduler, SchedulerTheorems, SchedulerLiveness | cooperative coroutine scheduler |
| Batching, BatchingTheorems, BatchingRecord, BatchingLimits, BatchingWorkload | continuous-batching loop, written in Python and in Rust |
| UnicodeTree, UnicodeTheorems, UnicodeLookup | interval table to decision-tree generator |
| Chunked, ChunkedText, ChunkedLines, ChunkedTheorems | HTTP chunked decoding |
| Regex, RegexAnchors | step-budgeted regular expression matcher |
| FormatTemplate, FormatTheorems, FormatGrammar, FormatErrors | format template parser |
| Ownership, OwnershipRandom, OwnershipLanguage, OwnershipProgram, OwnershipTheorems, OwnershipRun, OwnershipMain | generator of ownership test programs, a semantics of those programs, and their drop oracle |
| Base64, Options | base64 encoder; optional values |

Code that updates state is modelled by classes, arrays and loops. Each such method is proved
equal to a function on values, and the theorems are about those functions. C words are
natural numbers below 2^8, 2^16 or 2^32 with wrap-around written out. `dafny verify
dfyconfig.toml` verifies all of it.

## What the proofs found

Each of these is proved of the code as it is, with the exact condition.

- A gzip member survives a one-byte change exactly at offsets 4 to 9, which the decompressor
  ignores. Its output and ratio guard cannot fire: a stored member is always longer than its content.
- Task ids saturate at 2^64 - 1. The scheduler's invariant holds exactly for runs that spawn no more
  tasks than that; a run reaches the limit, and its next spawn gets an id that was issued before.
- The batching loop stops exactly when there is no arrival or both limits are positive, over all
  integer limits the Python program takes.
- The Unicode generator does not refuse rows with lo > hi. The program it generates is wrong exactly
  when such a row of a value other than 0 is joined to a row that ends later, which cuts that row short.
- The chunked decoder ignores what follows the final line break and accepts a body without it. Its
  size lines may hold white space and a plus sign, and after a semicolon any text in UTF-8.
- The regular expression matcher looks for a prefix of the text whatever the anchors say. A final `$`
  means the end of the text exactly for patterns whose last token other than a single free byte is `.*`;
  `a$` accepts `ab`. An unescaped `^` is skipped wherever it stands, so a pattern without one is not
  searched for either, except when no byte is fixed before its first `.*`. Exhaustion is reported exactly
  when the true cost of a match passes 65536 steps, and some admissible text does that.
- `required_arg_count` is the least sufficient count exactly when no explicit index is the
  largest `usize`. There the addition wraps (in a build with overflow checks it panics instead).
- A handle slot reaching generation 2^31 yields a negative handle that nothing can free, and a run
  reaches it. The slot stays occupied, which is also why the generation never wraps and no handle is
  issued twice. The C expression shifts a signed value out of range there; the model takes two's complement.

## Model

| member | source | states |
|---|---|---|
| `Words.Le16RoundTrip` | tools/stdlib/runtime_breadth.c:650-664 | reading back a 16-bit little-endian field gives the value written |
| `Words.Le32RoundTrip` | tools/stdlib/runtime_breadth.c:655-669 | reading back a 32-bit little-endian field gives the value written |
| `Crc.Crc32` | tools/stdlib/runtime_breadth.c:638-648 | the nested byte and bit loops compute `Checksum`, which `CrcPolynomial.ChecksumIff` identifies as the code of RFC 1952 |
| `Crc.BitStepInjective` | tools/stdlib/runtime_breadth.c:641-645 | one bit step never maps two register values to one |
| `Crc.BitStepLinear` | tools/stdlib/runtime_breadth.c:641-645 | the bit step distributes over exclusive or |
| `Crc.RegisterIsFed` | tools/stdlib/runtime_breadth.c:638-648 | feeding a message byte by byte is feeding its bits one by one, least significant first |
| `Crc.FeedWord` | tools/stdlib/runtime_breadth.c:641-645 | up to 32 bits act on the register as one word mixed in before the shifts |
| `Crc.FeedInjective` | tools/stdlib/runtime_breadth.c:638-648 | the same data keeps different registers different |
| `Crc.BurstDetected` | tools/stdlib/runtime_breadth.c:638-648 | any change confined to 32 consecutive bits, at any bit position of any message, changes the checksum |
| `CrcPolynomial.ChecksumIff` | tools/stdlib/runtime_breadth.c:638-648 | for every message, a word is its checksum if and only if it is the code of section 8 of RFC 1952: the complement of the remainder of the message, its first 32 bits inverted, times x^32 by the generator polynomial, bits reflected; defined by polynomial division without the register or its constant |
| `CrcPolynomial.RemainderUnique` | tools/stdlib/runtime_breadth.c:638-648 | division by the generator has only one remainder, so the code is well defined |
| `CrcPolynomial.PolynomialIsGenerator` | tools/stdlib/runtime_breadth.c:641-645 | the constant of the bit step is the generator polynomial with its bits reflected |
| `CrcCheckValue.CheckValue` | tools/stdlib/runtime_breadth.c:638-648 | the checksum of the digits 123456789 is the published check value 0xcbf43926 |
| `Gzip.Runtime.Gzip` | tools/stdlib/runtime_breadth.c:693-768 | every call ends in `GzipOutcome`: the status of the first failing check with the buffer untouched, or the member in the buffer and its length returned |
| `Gzip.FillScratch` | tools/stdlib/runtime_breadth.c:723-759 | the write cursor ends exactly at the precomputed length and the scratch buffer is the whole member |
| `Gzip.PutBlocks` | tools/stdlib/runtime_breadth.c:733-754 | the block loop writes `Blocks(input)`, one final block for empty input and at exact multiples of 65535 |
| `Gzip.Runtime.Gunzip` | tools/stdlib/runtime_breadth.c:770-872 | every call ends in `GunzipOutcome`, with the buffer untouched on every failure |
| `Gzip.UnpackMember` | tools/stdlib/runtime_breadth.c:786-863 | the decompressor's body computes `GunzipMember` |
| `Gzip.CheckBlock` | tools/stdlib/runtime_breadth.c:814-842 | one turn of the block loop accepts, or refuses with the code of the first failing test, what `ReadHeader` does |
| `Gzip.InflateBlocks` | tools/stdlib/runtime_breadth.c:809-856 | the block loop leaves in the scratch buffer what `Inflate` gives, or returns its error |
| `GzipTheorems.InflateSound` | tools/stdlib/runtime_breadth.c:809-856 | accepted blocks are stored blocks of which only the last is final, and the output is their payloads joined |
| `GzipTheorems.InflateComplete` | tools/stdlib/runtime_breadth.c:809-856 | every such block sequence that fits is accepted with exactly its payloads |
| `GzipTheorems.AcceptsIff` | tools/stdlib/runtime_breadth.c:770-872 | decompression gives x if and only if the input is a flagless header, stored blocks of x and the matching trailer (section 2.3 of RFC 1952, section 3.2.4 of RFC 1951), within the limits |
| `GzipTheorems.OutputBound` | tools/stdlib/runtime_breadth.c:28-35 | the output is at least 23 bytes shorter than the member, hence at most 1 MiB |
| `GzipTheorems.GuardNeverFires` | tools/stdlib/runtime_breadth.c:796-842 | the overflow refusal of the output and ratio limit is unreachable for every admissible input |
| `GzipTheorems.GzipIsMember` | tools/stdlib/runtime_breadth.c:693-768 | what the compressor writes is a member of its input and is short enough to be decompressed |
| `GzipTheorems.RoundTrip` | tools/stdlib/runtime_breadth.c:693-872 | for every input of at most 1 MiB and enough room, decompressing the compressed bytes gives the input |
| `GzipTheorems.Recompressible` | tools/stdlib/runtime_breadth.c:693-872 | whatever the decompressor accepts can be compressed again, and the result decompresses to the same bytes |
| `GzipTheorems.SingleByteDamage` | tools/stdlib/runtime_breadth.c:693-872 | a member with any one byte changed is accepted if and only if the byte is at offset 4 to 9 (and room and memory suffice) |
| `GzipTheorems.DamagedMember` | tools/stdlib/runtime_breadth.c:786-863 | a changed byte outside offsets 4 to 9 is always refused: header, length fields, final flag, payload or trailer |
| `GzipTheorems.FreeHeaderByte` | tools/stdlib/runtime_breadth.c:786-794 | a changed time, extra-flag or system byte still decompresses to the same content |
| `GzipTheorems.DamagedBlocks` | tools/stdlib/runtime_breadth.c:809-856 | if damaged blocks still unpack, the output differs from the original within one byte |
| `GzipTheorems.ForgedContent` | tools/stdlib/runtime_breadth.c:858-863 | other content under an unchanged trailer passes exactly when length and checksum agree, so never after a change within 32 bits |
| `GzipTheorems.MembersPrefixFree` | tools/stdlib/runtime_breadth.c:809-863 | no member is a proper prefix of another, so trailing bytes are always refused |
| `GzipFormat.MemberIff` | tools/stdlib/runtime_breadth.c:770-872 | the members of the model are exactly the files with the header's fixed bytes, stored blocks of which only the last is final, the polynomial checksum and the length, all numbers read independently as little-endian byte strings |
| `GzipFormat.MemberOutcome` | tools/stdlib/runtime_breadth.c:786-863 | every member within the size limit is answered with its content, or with the exact code of what was missing: memory, or room in the buffer |
| `GzipFormat.GzipIsShortest` | tools/stdlib/runtime_breadth.c:716-754 | no member of the same content is shorter than what the compressor writes |
| `GzipFormat.GzipSucceedsIff` | tools/stdlib/runtime_breadth.c:693-768 | compression succeeds if and only if the input is at most 1 MiB, memory suffices and some member of it fits the buffer |
| `GzipFormat.GzipWrites` | tools/stdlib/runtime_breadth.c:723-732 | what is written is a member of the input with time stamp and extra flags zero and the system unknown |
| `Sha256.HashBuffer` | tools/stdlib/runtime_breadth.c:498-521 | for every transform and message the one-shot driver computes `Digest`, and its result is the standard's start value absorbed over the blocks of the padded message |
| `Sha256.SnapshotDigest` | tools/stdlib/runtime_file_snapshot.c:133-145 | the snapshot driver computes the same, from the same start value |
| `Sha256.StartIff` | tools/stdlib/runtime_breadth.c:498-499 | eight words are the start value of the drivers if and only if each is the first 32 bits of the fractional part of the square root of its prime (section 5.3.3 of FIPS 180-4) |
| `Sha256.HashIff` | tools/stdlib/runtime_breadth.c:498-521 | `Digest` is the only result of absorbing the padded message from that start value |
| `Sha256.PadRemainder` | tools/stdlib/runtime_file_snapshot.c:137-143 | the last one or two blocks built in the tail buffer are absorbed as `LastBlocks` |
| `Sha256.PaddedSplits` | tools/stdlib/runtime_hash_file.c:38-44 | the drivers' last blocks after the whole ones are exactly the padding of the message |
| `Sha256.PaddedIsWhole` | tools/stdlib/runtime_hash_file.c:38-44 | padding makes a whole number of 64-byte blocks |
| `Sha256.ZeroCountLeast` | tools/stdlib/runtime_hash_file.c:38-44 | the number of zero bytes is the least that does so (section 5.1.1 of FIPS 180-4) |
| `Sha256.PaddedInjective` | tools/stdlib/runtime_hash_file.c:38-44 | different messages below 2^61 bytes have different padded forms |
| `Sha256.RenderBytes` | tools/stdlib/runtime_hash_file.c:45-50 | printing the state byte by byte gives the same text as printing eight words |
| `Sha256.HexBytesAreWords` | tools/stdlib/runtime_hash_file.c:45-50 | the byte-wise and word-wise hexadecimal forms agree for every number of words |
| `Sha256File.StreamingHash.constructor` | tools/stdlib/runtime_hash_file.c:59-60 | a new hash has seen the empty message |
| `Sha256File.StreamingHash.Update` | tools/stdlib/runtime_hash_file.c:28-37 | feeding bytes keeps the invariant (tail below 64 bytes, consumed bytes plus tail are the message, running total) and appends them to the message |
| `Sha256File.StreamingHash.Finish` | tools/stdlib/runtime_hash_file.c:38-44 | finishing gives the one-shot `Digest` of everything fed, whatever the chunks were, from the standard's start value |
| `Sha256File.ReadLoop` | tools/stdlib/runtime_hash_file.c:111-117 | the read loop feeds exactly the bytes delivered, retries interrupted reads and stops at the byte limit |
| `Sha256File.HashFile` | tools/stdlib/runtime_hash_file.c:54-122 | the whole call computes `FileOutcome`: limit, size and modification checks, errors in order, then the digest |
| `Sha256File.ChunkingIrrelevant` | tools/stdlib/runtime_hash_file.c:111-121 | two healthy read scripts that deliver the same bytes give the same result |
| `Sha256File.CollectDelivered` | tools/stdlib/runtime_hash_file.c:111-117 | a healthy script gives all delivered bytes if they are within the limit and the overflow error otherwise |
| `Sha256File.LengthNeverWraps` | tools/stdlib/runtime_hash_file.c:55-56 | in every successful call `total * 8` stays below 2^64 and the padding ends in the true bit length |
| `Sha256Standard.PaddedIff` | tools/stdlib/runtime_hash_file.c:38-44 | for every message of the lengths the standard admits, bytes are the drivers' padding if and only if their bits are the padding of section 5.1.1 of FIPS 180-4 as it is stated there: message, a one, the fewest zeros to 448 modulo 512, and the length on 64 bits |
| `Sha256Standard.DigestIff` | tools/stdlib/runtime_hash_file.c:28-44 | `Digest` is the only state reached from the standard's start value over the blocks of the standard's padding |
| `Sha256Standard.TextIff` | tools/stdlib/runtime_hash_file.c:45-50 | a text is the rendered digest if and only if it is 64 lower-case hexadecimal digits whose groups of eight read as the eight words |
| `Sha256Standard.HashedIff` | tools/stdlib/runtime_hash_file.c:54-122 | hashing a file gives a text if and only if nothing was wrong with the call, the file before and after or the close, the reads delivered exactly as many bytes as announced without a failure, and the text spells their standard hash |
| `Sha256Transform.TransformBlock` | tools/stdlib/runtime_breadth.c:442-485 | the in-place block transform computes the compression function of section 6.2.2 of FIPS 180-4 |
| `Sha256Transform.ExtendSchedule` | tools/stdlib/runtime_breadth.c:448-452 | the schedule loop leaves in place the message schedule defined by its recurrence |
| `Sha256Transform.RunRounds` | tools/stdlib/runtime_breadth.c:453-476 | the loop turning eight variables computes the 64 rounds |
| `Sha256Transform.SigmasAgree` | tools/stdlib/runtime_breadth.c:438-465 | the shift-and-or rotations give the standard's four sigma functions on every word |
| `Sha256Transform.ConstantsAreCubeRoots` | tools/stdlib/runtime_breadth.c:427-436 | the 64 constants are the first 32 bits of the fractional parts of the cube roots of the first 64 primes (section 4.2.2) |
| `Sha256Transform.MajorityAgrees` | tools/stdlib/runtime_breadth.c:466 | wherever two of the three words agree, the majority agrees with them |
| `Sha256Transform.ChooseChooses` | tools/stdlib/runtime_breadth.c:463 | where the first word is one the second is chosen, where it is zero the third |
| `Sha256Transform.LoadBytes` | tools/stdlib/runtime_breadth.c:444-447 | the four bytes can be read back from the loaded word, the first one highest |
| `Sha256Transform.UnroundUndone` | tools/stdlib/runtime_breadth.c:461-476 | every eight working words are reached by a round, from the words the inverse round gives |
| `Sha256Transform.RoundsInjective` | tools/stdlib/runtime_breadth.c:461-476 | for every block the rounds are injective on the eight working words |
| `Scheduler.CoroutineScheduler.constructor` | runtime/src/async_runtime.rs:202-209 | a new scheduler is the empty state with next id 1 |
| `Scheduler.CoroutineScheduler.SpawnTask` | runtime/src/async_runtime.rs:211-224 | appends a pending entry under the next id, which saturates at 2^64 - 1, and changes nothing else |
| `Scheduler.CoroutineScheduler.CancelTask` | runtime/src/async_runtime.rs:244-264 | asks the first queued task with that id: true exactly when it agrees, and then its entry alone is gone and its id alone is marked; if it refuses, its own new state is all that changes; with no such entry nothing does |
| `Scheduler.CoroutineScheduler.CancelForeignTask` | runtime/src/async_runtime.rs:266-291 | the same for the first entry with that foreign identity |
| `Scheduler.CoroutineScheduler.PollTask` | runtime/src/async_runtime.rs:401-443 | the hint cell, cleared, lowered and taken, ends empty exactly when the poll recorded no hint and at their minimum otherwise |
| `Scheduler.EarliestIff` | runtime/src/async_runtime.rs:401-443 | a cell is the scheduler's earliest hint if and only if it is empty for no hints and otherwise the least of them |
| `Scheduler.CoroutineScheduler.TickAll` | runtime/src/async_runtime.rs:295-326 | one pass over the queue is `Tick`, and the returned ids are the tasks that completed |
| `Scheduler.CoroutineScheduler.SleepUntilNextWakeup` | runtime/src/async_runtime.rs:346-375 | sleeps to `SleepTarget`, or not at all |
| `Scheduler.CoroutineScheduler.RunToIdle` | runtime/src/async_runtime.rs:329-344 | the loop of ticks and sleeps is `RunUntilIdle` |
| `Scheduler.CoroutineScheduler.DropScheduler` | runtime/src/async_runtime.rs:193-199 | dropping ends every queued task once and empties the queue |
| `SchedulerTheorems.StepKeeps` | runtime/src/async_runtime.rs:211-326 | every operation keeps the invariant: ids distinct, Pending exactly the queued, statuses explained by the log, counters right |
| `SchedulerTheorems.RunKeeps` | runtime/src/async_runtime.rs:211-326 | so does every sequence of operations whose spawns stay within the id range |
| `SchedulerTheorems.RunInvariantIff` | runtime/src/async_runtime.rs:211-224 | from a new scheduler the invariant holds after a run if and only if it spawned at most 2^64 - 1 tasks, and the next id is one not issued before if and only if it spawned fewer |
| `SchedulerTheorems.IdsRunOut` | runtime/src/async_runtime.rs:211-224 | a run that uses up the ids: its next id was issued before and one more spawn breaks the invariant |
| `SchedulerTheorems.Conservation` | runtime/src/async_runtime.rs:211-326 | spawned = queued + completed + canceled, and a task is Pending if and only if it is queued |
| `SchedulerTheorems.StatusMeaning` | runtime/src/async_runtime.rs:237-242 | in every run the reported status is Unknown exactly for ids never issued, Pending exactly while queued, Completed or Canceled exactly after that ending event |
| `SchedulerTheorems.EndedIsFinal` | runtime/src/async_runtime.rs:244-326 | Completed and Canceled never change again in any continuation |
| `SchedulerTheorems.EndsExactlyOnce` | runtime/src/async_runtime.rs:193-199 | after the drop every spawned task has exactly one ending event, and it agrees with its status |
| `SchedulerTheorems.DropEndIsLast` | runtime/src/async_runtime.rs:193-199 | no event of a task follows its ending, drops included |
| `SchedulerLiveness.TickPollsDue` | runtime/src/async_runtime.rs:295-326 | one tick polls exactly the due entries, once each, in queue order |
| `SchedulerLiveness.SurvivorsInOrder` | runtime/src/async_runtime.rs:295-326 | the survivors are a subsequence of the queue: only finished entries leave, sleeping ones are untouched, and polled ones carry their new state and the minimum of their hints |
| `SchedulerLiveness.TickKeepsIds` | runtime/src/async_runtime.rs:295-326 | finished and surviving ids together are the queued ids, counted |
| `SchedulerLiveness.RunReturnsIds` | runtime/src/async_runtime.rs:329-344 | over a whole run returned and remaining ids are the initially queued ids, counted |
| `SchedulerLiveness.EarliestIsMinimum` | runtime/src/async_runtime.rs:346-375 | the computed deadline is the minimum over the queue and is attained |
| `SchedulerLiveness.SleepWakesSome` | runtime/src/async_runtime.rs:346-375 | no sleep happens exactly when some entry is due; after an uninterrupted sleep some entry is, and the target is the minimum deadline |
| `SchedulerLiveness.TickWork` | runtime/src/async_runtime.rs:295-326 | each tick reduces the polls still owed by exactly the number of due entries |
| `SchedulerLiveness.RunsBecomeIdle` | runtime/src/async_runtime.rs:329-375 | with hints and uninterrupted sleeps, a budget above the total remaining polls empties the queue and returns every id exactly once |
| `SchedulerLiveness.RoundRobin` | runtime/src/async_runtime.rs:329-344 | without hints, a budget no smaller than any one task's remaining polls empties the queue and returns every id exactly once |
| `Batching.AdmitArrivals` | bench/llm_scheduler_bench.py:278-283 | the admission loop takes the due arrivals up to the limit |
| `Batching.PythonTokens` | bench/llm_scheduler_bench.py:295-309 | the Python token loop keeps the unfinished requests, and its checksum stays the signed 64-bit number congruent to the sum of tokens, ids and steps |
| `Batching.RustTokens` | bench/llm_scheduler_bench.py:562-582 | the Rust token loop does the same with three wrapping additions per token |
| `Batching.Wrap` | bench/llm_scheduler_bench.py:235-239 | the result is in the signed 64-bit range and congruent to the argument modulo 2^64 |
| `Batching.PythonScheduler` | bench/llm_scheduler_bench.py:260-313 | the Python loop terminates and returns the result of `Run` |
| `Batching.RustScheduler` | bench/llm_scheduler_bench.py:485-585 | the Rust loop terminates and returns the result of `Run` with its own checksum arithmetic |
| `BatchingTheorems.TokensConserved` | bench/llm_scheduler_bench.py:260-313 | the tokens emitted are, request by request, the lengths asked for, and their number is the sum |
| `BatchingRecord.RunRecorded` | bench/llm_scheduler_bench.py:269-313 | of every run that ends, in either program: its checksum is the signed 64-bit number congruent to the sum of token, id and step over all recorded kernel calls; each call was made on as many requests from the front as the limit admits, at increasing steps, on what the call before left over; and the ids decoded are those owed |
| `BatchingRecord.NoPreemption` | bench/llm_scheduler_bench.py:288-311 | whoever is decoded and wants more is in the next batch too, at its front |
| `BatchingRecord.UnfinishedInOrder` | bench/llm_scheduler_bench.py:295-309 | what stays of a batch is exactly its requests wanting more than one token, in order, each with one fewer to go |
| `BatchingTheorems.AdmissibleTimes` | bench/llm_scheduler_bench.py:278-283 | those admitted have arrived, and only the limit or a later arrival time keeps more out |
| `BatchingTheorems.OwedToEach` | bench/llm_scheduler_bench.py:260-313 | with distinct ids each request is decoded exactly its own length (at least once) |
| `BatchingTheorems.StepBounds` | bench/llm_scheduler_bench.py:260-313 | steps are at most the last arrival time plus the tokens, more than the last arrival time, and tokens at most batch limit times steps |
| `BatchingTheorems.StopsIff` | bench/llm_scheduler_bench.py:269-313 | with a decoder that answers, the loop stops if and only if there is no arrival or both limits are positive |
| `BatchingTheorems.AddsAgree` | bench/llm_scheduler_bench.py:235-239 | one wrap of the sum equals three wrapping additions |
| `BatchingTheorems.RunsAgree` | bench/llm_scheduler_bench.py:269-313 | from every reachable state both programs run through the same states or both fail |
| `BatchingTheorems.ProgramsAgree` | bench/llm_scheduler_bench.py:485-585 | both programs return the same checksum, tokens and steps, or both fail, for every decoder of 64-bit values |
| `BatchingLimits.ProgramsInStep` | bench/llm_scheduler_bench.py:277-311 | after any number of rounds, for all limits including zero, both programs are in the same state |
| `BatchingLimits.RoundIsShared` | bench/llm_scheduler_bench.py:277-311 | the Python round with its slices of any integer limit is the shared round when the batch limit is not negative |
| `BatchingLimits.PythonStopsIff` | bench/llm_scheduler_bench.py:277-313 | for all integer limits the Python loop stops if and only if there is no arrival or both limits are positive |
| `BatchingWorkload.NextsAgree` | bench/llm_scheduler_bench.py:421-423 | the generators of the two programs take the same steps |
| `BatchingWorkload.NextPermutes` | bench/llm_scheduler_bench.py:242-243 | the generator's step can be undone: it permutes the 32-bit states |
| `BatchingWorkload.PythonArrivals` | bench/llm_scheduler_bench.py:246-257 | draws two numbers a request, in order: arrival time below a third of the requests, then length |
| `BatchingWorkload.RustArrivals` | bench/llm_scheduler_bench.py:470-483 | draws the same arrivals |
| `BatchingWorkload.SortsAgree` | bench/llm_scheduler_bench.py:246-257 | with unique ids there is only one sorted order, so both sorts give the same list |
| `BatchingWorkload.BenchmarkRun` | bench/llm_scheduler_bench.py:246-313 | for every seed and size the benchmark ends, decodes each request its drawn length, stays below spread plus tokens steps, and both programs agree |
| `UnicodeTree.Merged` | scripts/generate-unicode-sg.py:35-44 | sorting and the merge loop compute `MergeSorted(Sort(rows))`, raising where the source raises |
| `UnicodeTheorems.MergeKeeps` | scripts/generate-unicode-sg.py:35-44 | for rows with lo <= hi, merging keeps the meaning of every code point and leaves sorted, disjoint rows that cannot be merged further |
| `UnicodeTheorems.RaisesIff` | scripts/generate-unicode-sg.py:35-44 | merging raises whenever two rows share a code point, and for rows with lo <= hi only then |
| `UnicodeTheorems.RaisesOnCollision` | scripts/generate-unicode-sg.py:35-44 | for any rows at all, it raises if and only if a row starts at or before the end of the row sorted before it |
| `UnicodeLookup.MergeKeepsIff` | scripts/generate-unicode-sg.py:35-44 | for any sorted rows, reversed ones included, merging keeps the code points of a value if and only if no row of that value is joined to a row that ends later |
| `UnicodeLookup.NothingInvented` | scripts/generate-unicode-sg.py:35-44 | for any rows, merging never gives a code point a value it did not have |
| `UnicodeLookup.LookupCorrect` | scripts/generate-unicode-sg.py:47-55 | the emitted tree gives the value of the merged row holding the code point and 0 outside, reversed rows included |
| `UnicodeLookup.GeneratedLookup` | scripts/generate-unicode-sg.py:35-55 | for any accepted rows, the generated program gives every row's value and 0 elsewhere if and only if no row of a value other than 0 is cut short by a join |
| `UnicodeLookup.SpansFound` | scripts/generate-unicode-sg.py:35-55 | for rows with lo <= hi the generated program always does |
| `UnicodeLookup.ReversedRowLosesCodePoints` | scripts/generate-unicode-sg.py:35-55 | a table of two rows that is accepted and loses code points |
| `UnicodeTheorems.TreeDepth` | scripts/generate-unicode-sg.py:47-55 | the depth is exactly floor(log2 n) + 1 for n > 0 rows |
| `UnicodeTheorems.NormalUnique` | scripts/generate-unicode-sg.py:35-44 | two merged tables of the same meaning are equal |
| `UnicodeTheorems.GenerationCanonical` | scripts/generate-unicode-sg.py:35-55 | for rows with lo <= hi, row order and splitting do not matter: the same meaning generates the same table |
| `Chunked.TakeChunk` | runtime/src/net.rs:432-470 | one turn of the decoding loop reads a chunk, the last chunk or an error as `ReadChunk` does |
| `Chunked.DecodeChunkedBody` | runtime/src/net.rs:428-472 | the loop computes `Decode`, which `ChunkedTheorems.DecodesIff` characterizes by the grammar |
| `ChunkedLines.SizeIff` | runtime/src/net.rs:439-447 | a line announces n if and only if it is the UTF-8 encoding of white space, an optional plus sign, digits 0-9, a-f or A-F of a value n below 2^64, white space, and then the end or a semicolon and any text |
| `ChunkedText.Utf8Iff` | runtime/src/net.rs:439-440 | bytes read as a text if and only if they are its encoding by section 3 of RFC 3629, surrogates and overlong forms excluded |
| `ChunkedText.DigitsIff` | runtime/src/net.rs:446-447 | digits of either case are read as the number they denote, and nothing else is read |
| `ChunkedText.SpaceIff` | runtime/src/net.rs:441-444 | the trimmed code points are the 25 with the White_Space property |
| `ChunkedTheorems.DecodesIff` | runtime/src/net.rs:428-472 | decoding gives x if and only if the body is such lines with non-empty data joining to x, a line announcing zero, and then nothing or a line break followed by anything |
| `ChunkedTheorems.HexLine` | runtime/src/net.rs:439-447 | digits of either case, mixed or with leading zeros, of any size below 2^64, with or without an extension, are read as that size |
| `ChunkedTheorems.EncodeDecodes` | runtime/src/net.rs:428-472 | decoding the encoding of section 7.1 of RFC 9112 gives the joined chunks |
| `ChunkedTheorems.TruncationRefused` | runtime/src/net.rs:428-472 | a proper prefix of an encoding is accepted if and only if it lacks just the last line break |
| `Regex.Match` | tools/stdlib/runtime_breadth.c:192-235 | the recursive matcher with its shared counter computes `MatchAt` |
| `Regex.UnlimitedCorrect` | tools/stdlib/runtime_breadth.c:192-235 | the matcher without its budget decides the declarative prefix match of the pattern |
| `Regex.BudgetExact` | tools/stdlib/runtime_breadth.c:192-235 | from any counter the matcher gives the unbudgeted verdict at the counter plus the true cost, or, exactly when that passes 65536, exhaustion with the counter at the limit |
| `Regex.VerdictCorrect` | tools/stdlib/runtime_breadth.c:192-235 | a verdict other than exhaustion is the declarative prefix match of the pattern |
| `Regex.ExhaustedIff` | tools/stdlib/runtime_breadth.c:202-205 | exhaustion is reported if and only if the true cost passes 65536, with the counter at 65536; then the work bound passes the limit and the pattern contains `.*` |
| `Regex.LongTextExhausts` | tools/stdlib/runtime_breadth.c:202-218 | `.*b` on the longest admissible text without a b exhausts the budget |
| `Regex.CostBounded` | tools/stdlib/runtime_breadth.c:192-235 | the cost is at most pattern length times (text length + 1) to the number of `.*` |
| `Regex.NeverExhausted` | tools/stdlib/runtime_breadth.c:192-235 | below that bound, or for any pattern of at most 256 bytes without `.*`, the verdict is always the true one |
| `Regex.IsMatch` | tools/stdlib/runtime_breadth.c:259-272 | the entry point answers 1 or 0 exactly as the prefix match does, refuses exactly the oversized texts, and reports exhaustion exactly when the true cost passes the limit |
| `RegexAnchors.WholeIff` | tools/stdlib/runtime_breadth.c:192-235 | a prefix match is a match of the whole text for all texts if and only if the last token that is not a single free byte is `.*` |
| `RegexAnchors.DollarIff` | tools/stdlib/runtime_breadth.c:192-235 | for every pattern that compiles, the matcher decides the whole text, as a final `$` promises, if and only if the pattern ends in that way |
| `RegexAnchors.DollarWitness` | tools/stdlib/runtime_breadth.c:196-198 | `a$` accepts `ab` |
| `RegexAnchors.DollarAppended` | tools/stdlib/runtime_breadth.c:192-235 | what one more `$` does to any pattern: ignored after a clean end, a literal after a `$`, escaped after a dangling backslash |
| `RegexAnchors.CaretIff` | tools/stdlib/runtime_breadth.c:199-201 | a leading `^` never changes an answer; for every pattern that compiles, the matcher decides whether the pattern occurs anywhere if and only if no byte is fixed before its first `.*` |
| `FormatTemplate.CollectBody` | compiler/src/format_template.rs:139-150 | the placeholder body runs to the next closing brace |
| `FormatTemplate.ScanAt` | compiler/src/format_template.rs:130-166 | one turn of the parser reads an escape, a letter, a placeholder or an error as `Scan` does |
| `FormatTemplate.ParseTemplate` | compiler/src/format_template.rs:125-173 | the loop computes `Parse` |
| `FormatTemplate.RequiredArgCount` | compiler/src/format_template.rs:184-198 | the loop returns the larger of automatic count and explicit requirement |
| `FormatTheorems.ParsedIsNormal` | compiler/src/format_template.rs:125-173 | every successful parse is normalized: no empty or adjacent literals, right alignment exactly with width, debug without width and precision |
| `FormatTheorems.PlaceholderReadBack` | compiler/src/format_template.rs:60-121 | printing a normalized placeholder and parsing it gives it back |
| `FormatTheorems.ParseRoundTrip` | compiler/src/format_template.rs:125-173 | printing any normalized segment list with brace escapes and parsing gives it back, and reprinting a parsed template parses to the same segments |
| `FormatTheorems.RequiredCountIff` | compiler/src/format_template.rs:184-198 | the returned count is the least that covers every argument index if and only if no explicit index is the largest `usize` |
| `FormatTheorems.CountWraps` | compiler/src/format_template.rs:192-193 | at that index the addition wraps and the count 0 covers nothing |
| `FormatGrammar.NumberIff` | compiler/src/format_template.rs:60-121 | a number is read from exactly its spellings: digits of a value below 2^64, possibly after a plus sign |
| `FormatGrammar.BodyIff` | compiler/src/format_template.rs:60-121 | a placeholder body parses to p if and only if it spells p in the placeholder grammar |
| `FormatGrammar.ParsesIff` | compiler/src/format_template.rs:125-173 | a template parses to these segments if and only if it is a sequence of escapes, letters and well-formed placeholders that groups to them |
| `FormatErrors.RefusedIff` | compiler/src/format_template.rs:125-173 | a template is refused with an error if and only if well-written text is followed by the fault of that name: a single closing brace, an opening brace never closed, or a closed body that spells no placeholder |
| `OwnershipProgram.Program.Shape` | scripts/ownership-combinations.py:42-60 | the recursive generator is `ShapeOf`, with the shared budget and generator state updated |
| `OwnershipProgram.Program.Lower` | scripts/ownership-combinations.py:92-142 | lowering numbers the resources in order, draws a key for every map, and emits exactly the constructor functions of the labeled tree |
| `OwnershipTheorems.ShapeBounds` | scripts/ownership-combinations.py:42-60 | a tree spends exactly as much budget as it has nodes, stays within its depth and below 2^(depth+1) nodes |
| `OwnershipRandom.UnmixMix` | scripts/ownership-combinations.py:36-39 | the mixing of the random source has an inverse, so different states give different full draws |
| `OwnershipRandom.MixUnmix` | scripts/ownership-combinations.py:36-39 | every 64-bit value is drawn from some state |
| `OwnershipRandom.NextIsGolden` | scripts/ownership-combinations.py:35 | the increment is the integer part of 2^64 over the golden ratio, which is unique |
| `OwnershipRandom.DrawsDiffer` | scripts/ownership-combinations.py:32-39 | 2^64 successive full draws are all different, from every seed |
| `OwnershipTheorems.LabelIds` | scripts/ownership-combinations.py:87-106 | the ids of a lowered tree are consecutive, hence distinct |
| `OwnershipTheorems.Generate` | scripts/ownership-combinations.py:144-170 | both bound errors are unreachable: at most 21 nodes and the declared depth; the case is numbered and emitted as its oracle says |
| `OwnershipTheorems.OracleSize` | scripts/ownership-combinations.py:166-170 | expected drops minus the three marker drops are the expected resource count |
| `OwnershipTheorems.CountDrops` | scripts/ownership-combinations.py:166-169 | the counter updates make the oracle: tree ids three times, marker three times, branches twice and once, loop ids once |
| `OwnershipTheorems.CasesDisjoint` | scripts/ownership-combinations.py:78-90 | cases of different index never share an id |
| `OwnershipRun.CallBuilds` | scripts/ownership-combinations.py:92-142 | running the emitted constructor of any tree returns the value of that tree, the reference-count check passing |
| `OwnershipRun.DropBuilt` | scripts/ownership-combinations.py:182-192 | dropping a built value prints each of its ids once and gives back every resource, text and counted cell it holds |
| `OwnershipMain.CallSeals` | scripts/ownership-combinations.py:193-196 | the envelope function returns the envelope with the three trees in it |
| `OwnershipMain.ExerciseSettles` | scripts/ownership-combinations.py:197-212 | on its failing, early and full paths a call returns the stated answer and leaves nothing live: its scopes print the trees, the marker, the selected resource and the loop's resources, each once |
| `OwnershipMain.RunMain` | scripts/ownership-combinations.py:213-224 | the emitted program prints exactly the oracle, passes its own checks and returns 0 |
| `Handles.HandleTable.EnsureCapacity` | tools/stdlib/runtime.c:4570-4594 | capacity doubles from 16 until it suffices, or nothing changes |
| `Handles.HandleTable.NewHandle` | tools/stdlib/runtime.c:4618-4643 | takes the first free slot or a new one, advances its generation and packs the handle, as `NewStep` |
| `Handles.HandleTable.GetPointer` | tools/stdlib/runtime.c:4645-4656 | answers the pointer of a current handle and null for any other |
| `Handles.HandleTable.TakePointer` | tools/stdlib/runtime.c:4658-4672 | frees the slot of a current handle and answers its pointer; any other handle changes nothing |
| `Handles.HandleTable.LiveCount` | tools/stdlib/runtime.c:4674-4682 | counts the live slots |
| `HandlesTheorems.RunMatches` | tools/stdlib/runtime.c:4560-4672 | after every sequence of calls the table is the ledger, a plain map from handles to pointers, and all handles ever issued are distinct |
| `HandlesTheorems.AnswersFromLedger` | tools/stdlib/runtime.c:4618-4672 | every answer of every run is the ledger's, and a new handle was never issued before |
| `HandlesTheorems.TakenNeverResolves` | tools/stdlib/runtime.c:4658-4672 | once taken, a handle is refused for the rest of the run although its slot is reused |
| `HandlesTheorems.ResolvesUntilTaken` | tools/stdlib/runtime.c:4645-4672 | a handle answers its own pointer exactly until it is taken |
| `HandlesTheorems.NewGeneration` | tools/stdlib/runtime.c:4637-4641 | the wrap-around of the generation is never reached in a reachable table |
| `HandlesTheorems.ReadsBackIff` | tools/stdlib/runtime.c:4635-4642 | in every reachable table with room, a registered pointer can be read back if and only if its slot's generation stays below 2^31; the handle is positive then and negative otherwise |
| `HandlesTheorems.LastGenerationReached` | tools/stdlib/runtime.c:4635-4642 | a run that registers and frees one pointer over and over reaches the negative handle |
| `HandlesTheorems.RetiredForever` | tools/stdlib/runtime.c:4658-4668 | a slot in generation 2^31 is never freed or reused again |
| `HandlesTheorems.SlotsArePeak` | tools/stdlib/runtime.c:4622-4634 | the table is exactly as long as the most handles alive at one time |
| `HandlesTheorems.RunSized` | tools/stdlib/runtime.c:4570-4594 | in every run the capacity is 0 for an empty table and otherwise the smallest doubling of 16 that holds the slots |
| `HandlesTheorems.RefusedIff` | tools/stdlib/runtime.c:4618-4634 | in every reachable table registering answers 0 if and only if the pointer is null, or every slot up to the capacity is alive and twice as many are not granted or more than 2^31 |
| `Snapshots.FileSnapshots.ReadContent` | tools/stdlib/runtime_file_snapshot.c:206-214 | the read loop fills the buffer as `Load` says: a short or oversized read fails |
| `Snapshots.FileSnapshots.OpenSnapshot` | tools/stdlib/runtime_file_snapshot.c:158-235 | every path of open is `OpenStep`, with the error of the first failing step |
| `Snapshots.FileSnapshots.Register` | tools/stdlib/runtime_file_snapshot.c:225-234 | a positive handle adds the owner in front and updates both counters; otherwise nothing is added |
| `Snapshots.FileSnapshots.CallElsewhere` | tools/stdlib/runtime.c:4618-4672 | a call to the shared table by other code is recorded and changes no owner and no counter |
| `Snapshots.FileSnapshots.FindOwner` | tools/stdlib/runtime_file_snapshot.c:44-48 | finds the first owner with the handle |
| `Snapshots.FileSnapshots.CloseSnapshot` | tools/stdlib/runtime_file_snapshot.c:270-279 | close removes the owner, frees the handle and updates both counters, or refuses |
| `SnapshotsTheorems.HistoryKeeps` | tools/stdlib/runtime_file_snapshot.c:158-279 | in every run, whatever other code does to the handle table, the count is the number of owners and at most 32, the bytes are their sum and at most 128 MiB, handles are distinct and digests are of the stored bytes |
| `SnapshotsTheorems.FailedOpenChangesNothing` | tools/stdlib/runtime_file_snapshot.c:158-235 | a failed open changes no owner and no counter, and leaves the handle table as it was if and only if it failed before registering or the table refused; a negative handle keeps its slot |
| `SnapshotsTheorems.OpenThenClose` | tools/stdlib/runtime_file_snapshot.c:158-279 | closing the handle just opened restores owners and counters |
| `SnapshotsTheorems.CloseRefusedIff` | tools/stdlib/runtime_file_snapshot.c:270-273 | a close answers invalid handle if and only if its handle is not zero and owns nothing, and changes the store exactly otherwise, zero aside |
| `SnapshotsTheorems.CloseRemovesOne` | tools/stdlib/runtime_file_snapshot.c:274-277 | a close takes away exactly the owner with its handle |
| `SnapshotsTheorems.ClosedOnce` | tools/stdlib/runtime_file_snapshot.c:270-279 | once closed, a handle is refused by every later close of the run |
| `SnapshotsTheorems.LoadDelivers` | tools/stdlib/runtime_file_snapshot.c:207-214 | the stored bytes are the delivered reads joined in order, of the declared length, each at least one byte and at most 64 KiB |
| `SnapshotsOpen.LoadIff` | tools/stdlib/runtime_file_snapshot.c:206-214 | reading succeeds with these bytes if and only if steady reads supply them and they are as many as announced |
| `SnapshotsOpen.OpensIff` | tools/stdlib/runtime_file_snapshot.c:158-235 | in every reachable store an open answers a positive handle if and only if its arguments and the limits hold, every step on the file succeeds, the reads supply the announced bytes and the handle table answers a positive handle |
| `SnapshotsOpen.OpenedContents` | tools/stdlib/runtime_file_snapshot.c:158-235 | a successful open puts one owner in front, with the supplied bytes and the text of their standard hash |
| `Base64.Base64Encode` | tools/stdlib/runtime_breadth.c:583-597 | the encoding loop computes `Encode` |
| `Base64.EncodedLength` | tools/stdlib/runtime_breadth.c:579-597 | the text has exactly 4 * ceil(n / 3) characters |
| `Base64.DecodeEncode` | tools/stdlib/runtime_breadth.c:566-597 | a decoder of section 4 of RFC 4648 recovers every input, in both padding cases |
| `Base64.DecodesIff` | tools/stdlib/runtime_breadth.c:566-597 | the strict decoder gives x for a text if and only if the text is the encoding of x, so the encoder is injective and canonical |

## Left out

- The compiler (parsing, type checking, MIR, code generation) and the rest of the standard library: not part of this model.
- Operating system and libc work (opening files, path normalization, `malloc`, clocks): outcomes are inputs of the modelled calls.
- The decode kernel of the benchmark: a parameter, so the theorems hold for any. The SHA-256 drivers take their block transform as a parameter for the same reason; `Sha256Transform.Compress` is the one the runtime passes.
- Sha256Standard.PaddedIff: is about messages below 2^64 bits, the ones section 5.1.1 of FIPS 180-4 defines a padding for.
- Sha256Standard.DigestIff: is about the same messages.
- Sha256File.HashFile: starts after the path checks and the open call and ends before the result string is allocated, because those depend on the host's file system and heap; its Windows branch repeats the same loop and is not modelled.
- Sha256.HashBuffer: the one-shot entry points also test pointer, length and limit and copy the text to a managed buffer, as the modelled gzip entry points do.
- Base64.Base64Encode: the same tests and copy around the base64 loop are not modelled.
- Batching.PythonScheduler: requires positive limits, because a method must terminate; `BatchingLimits.PythonStopsIff` covers all integer limits.
- Batching.RustScheduler: requires positive limits, for the same reason; `BatchingLimits.ProgramsInStep` covers zero.
- BatchingTheorems.StopsIff: is about limits that are not negative, the ones both programs take; `BatchingLimits.PythonStopsIff` covers the rest.
- BatchingTheorems.RunsAgree: requires positive limits, because it compares whole runs; `BatchingLimits.ProgramsInStep` compares any number of rounds under all limits.
- BatchingTheorems.ProgramsAgree: requires positive limits and decoded values that fit 64 bits, the only ones the Rust side can receive.
- BatchingWorkload.PythonArrivals: requires a positive maximal length; zero divides by zero in both programs, and a negative one, which only Python takes, draws lengths of at most 1.
- BatchingWorkload.BenchmarkRun: requires positive limits, without which the benchmark does not end.
- Scheduler.CoroutineScheduler.PollTask: polls that re-enter the scheduler are not modelled; a poll is a function of the task that returns pending or complete, the next task state and hints.
- Scheduler.CoroutineScheduler.SleepUntilNextWakeup: states the instant slept to; wakeups from other threads are the clock's choice of the next instant.
- Scheduler.CoroutineScheduler.RunToIdle: time comes from the clock argument; that a sleep ends no earlier than its target is the hypothesis of `SchedulerLiveness.RunsBecomeIdle`.
- FormatTheorems.RequiredCountIff: requires fewer than 2^64 automatic placeholders, which any template in memory has.
- Regex.IsMatch: requires a pattern the compile call accepts, as the source demands a handle; compiling and freeing handles are left out, and so are a null text and a negative length, which the source refuses.
- Handles.HandleTable.EnsureCapacity: takes an allocation of more than 2^31 slots (32 GiB) to fail, so slot numbers stay within 32 bits.
- Snapshots.FileSnapshots.OpenSnapshot: the steps before the size is known, and those between the size and the first read, are two inputs; which Windows call failed is not modelled, nor are the identity and path texts.
- Sha256.PaddedInjective: holds below 2^61 bytes, where the 64-bit length field is exact.
- OwnershipProgram.Program.Lower: emits statements of a small language instead of source text; types and the text of the owned strings are left out, and so are the rejected cases and the corpus files.
- OwnershipMain.RunMain: takes allocations to succeed (the probe aborts otherwise) and gives the emitted statements the semantics of OwnershipLanguage: moves, one drop per owner at the end of its scope, and reference counts. That the compiler implements it is not part of this model. Drops are counted, not ordered, as in the oracle.
- UnicodeTree.Merged: the parsing of the Unicode data files and the layout of the emitted text are left out; the emitted nested conditionals are modelled as a tree with an evaluator.
- UnicodeTheorems.MergeKeeps: requires lo <= hi in every row; `UnicodeLookup.MergeKeepsIff` states when merging keeps the meaning of any rows.
- UnicodeTheorems.GenerationCanonical: requires lo <= hi in every row; harmless reversed rows stay in the table, so tables of one meaning can differ by them.
- `split_http_headers_and_body`, sockets, TLS and WebSockets: plumbing.
- `sengoo_glob_match`: does not compute the usual glob relation, so there is no clean statement to prove.

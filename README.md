# promise_utils in Dafny

A model of the two pieces of logic in promise_utils, a small TypeScript library of
promise combinators:

- `toFrames` (frames.ts) cuts an array into contiguous frames of `frameLength`
  elements, optionally keeping a short trailing frame or refusing an array whose
  length is not a multiple of the frame length;
- the combinators of main.ts: `concurrent` (a wrapper over `Promise.all`),
  `concurrentLiteral` (the same over an object literal), `sequential` and
  `sequentialLiteral` (invoke deferred operations one after another, stopping at the
  first rejection), and `concurrentChunked` (partition the operations with
  `toFrames(…, { keepTrailing: true })`, run the chunks one after another and the
  operations of each chunk together, then flatten the results).

The asynchronous host is abstracted away. A deferred operation is a `Deferred`
value: the outcome its promise settles with (`Ok(v)` or `Err(e)`), and the
invocation-log entries that invoking it appends (`starts`). A primitive operation
number i logs `[i]`; the per-chunk operation of `concurrentChunked` logs the
entries of every operation of its chunk, since `chunk.map((x) => x())` invokes them
all before anything is awaited. A combinator call is described by a `Run`: how its
promise settles, and the invocation log. The order of the log is the order of
invocation, which is what the library's ordering guarantees are about.

Files:

- `outcomes.dfy` — `Outcome` (fulfilled value or rejection error) and `Option`.
- `frames.dfy` — module `Frames`: the reference definition `FramesOf` (sealed
  frames plus the trailing remainder), the `reduce` walk as a loop (`WalkFrames`),
  `ToFrames` with its two argument checks, and the properties of the frames.
- `combinators.dfy` — module `Combinators`: `Concurrent`, the `sequential` state
  machine `SequentialRun`, the loops `Sequential`, `SequentialLiteral` and
  `ConcurrentLiteral`, and their properties.
- `chunked.dfy` — module `Chunked`: `ConcurrentChunked` as the composition of the
  methods above, its reference `ChunkedRun`, and the properties of a chunked call:
  fulfilment with every value in input order, rejection from the chunk holding
  the first rejection, and the chunk-by-chunk invocation log.

Two edge cases of `toFrames` follow the code closely. The frame-length check
(frames.ts:28) runs on every call, so an empty array with frame length 0 still
fails. With `throwIfTrailing`, the trailing check (frames.ts:22) runs first, and
`arr.length % 0` is `NaN`, which is not `0`, so frame length 0 then fails with the
trailing-frame error (`FramesOf`, `ToFrames`).

## Model

| member | source | states |
|---|---|---|
| Frames.FramesOf | frames.ts:15-57 | what `toFrames` returns or throws: it fails exactly when the frame length is 0 or `throwIfTrailing` is set and the length is not a multiple of it; on success every frame has between 1 and L elements, and an empty array gives no frame |
| Frames.SealedSizes | frames.ts:34-52 | every frame the `reduce` seals (`SealedFrames`: each complete group of L consecutive elements, in order) has exactly L elements |
| Frames.Trailing | frames.ts:34-52 | the in-progress frame left when the `reduce` ends: shorter than L, and all of arr when arr is shorter than one frame |
| Frames.Flatten | main.ts:109 | `flat()`: flattening a single frame gives it back |
| Frames.FlattenEmpty | main.ts:109 | `flat()` gives an empty array exactly when every inner array is empty |
| Frames.WalkFrames | frames.ts:29-52 | the `reduce` loop, which seals the in-progress frame whenever the 1-based position of the element just pushed is a multiple of L, returns exactly the sealed complete frames and the leftover in-progress frame of the reference definition |
| Frames.ToFrames | frames.ts:15-57 | fails exactly when the frame length is 0 or `throwIfTrailing` is set and the length is not a multiple of it; the error is the trailing-frame error whenever `throwIfTrailing` is set (also for frame length 0) and the zero-length error otherwise; otherwise the result is the sealed frames plus, with `keepTrailing`, the non-empty leftover |
| Frames.FlattenAppend | main.ts:109 | `flat()` distributes over concatenation |
| Frames.SealedCount | frames.ts:34-52 | the walk seals exactly floor(\|arr\| / L) frames |
| Frames.SealedFrameAt | frames.ts:35-49 | sealed frame k is exactly arr[k*L .. k*L+L] |
| Frames.SealedFramesAreSlices | frames.ts:35-49 | there are floor(\|arr\| / L) sealed frames, and each is the k-th group of L consecutive elements |
| Frames.TrailingIsRemainder | frames.ts:34-54 | the leftover frame is the suffix of arr after the last complete frame, of length \|arr\| mod L |
| Frames.SealedThenTrailing | frames.ts:34-54 | the sealed frames followed by the leftover give back arr |
| Frames.FramesCount | frames.ts:34-54 | a successful call returns ceil(\|arr\| / L) frames with `keepTrailing` and floor(\|arr\| / L) without; an empty array gives no frame |
| Frames.FrameAt | frames.ts:35-54 | frame k starts at k*L inside arr and is arr[k*L .. min(k*L+L, \|arr\|)] |
| Frames.FramesSizes | frames.ts:37-54 | no frame is empty and none is longer than L; each of the floor(\|arr\| / L) complete frames has exactly L elements; with `keepTrailing` and a length that is not a multiple of L, the last frame has \|arr\| mod L elements |
| Frames.FramesAreSlices | frames.ts:35-54 | every frame is the contiguous slice of arr from k*L: no overlap, no gap, no reordering |
| Frames.FramesConcat | frames.ts:34-54 | the frames concatenated give back arr with `keepTrailing`, and otherwise arr without its last \|arr\| mod L elements |
| Frames.FramesPrefix | frames.ts:34-54 | the first j frames concatenated are the first min(j*L, \|arr\|) elements of arr |
| Combinators.FirstFailure | main.ts:54 | the index of the first rejection: every earlier outcome fulfilled, and the outcome there rejected unless it is the length |
| Combinators.FirstFailureAt | main.ts:54 | a rejection with only fulfilments before it is the first rejection |
| Combinators.FirstFailureSkip | main.ts:54 | past a prefix of m fulfilments the first rejection is m further on |
| Combinators.Invoked | main.ts:54 | a fail-fast walk invokes at most every operation |
| Combinators.StartsOfAppend | main.ts:54 | invoking a then b logs a's entries followed by b's |
| Combinators.IndexedStarts | main.ts:54 | invoking the first m indexed operations logs 0, 1, ..., m-1 |
| Combinators.Concurrent | main.ts:11-13 | fulfils exactly when every promise fulfils, with every value at its own index (same length and order), and otherwise rejects with the error of one of the rejected promises |
| Combinators.SequentialRun | main.ts:53-54 | the `sequential` loop one operation at a time: on success one result per operation; a rejection carries the error of one of the operations |
| Combinators.SequentialAllOrNothing | main.ts:50-56 | `sequential` fulfils exactly when every operation does, with values index for index; otherwise it rejects with the first rejection unchanged; either way it has invoked exactly the operations up to and including the first rejection, in index order |
| Combinators.SequentialInvokesInOrder | main.ts:54 | with one primitive operation per index, the invocation log is 0, 1, 2, ... up to and including the first rejection and nothing after it |
| Combinators.Sequential | main.ts:50-56 | the loop over a pre-allocated results array fulfils exactly when every operation does, with results[i] the value of operation i; a rejection is the first one, unchanged; the log is the operations invoked up to the first rejection; and the run equals the `SequentialRun` state machine |
| Combinators.KeySetSnoc | main.ts:76-80 | storing the next key adds exactly that key to the result's key set |
| Combinators.Tagged | main.ts:30 | the keyed promise `[key, await values[key]]` fulfils exactly when the value does, with the key paired with its value, and otherwise rejects with the value's error |
| Combinators.ConcurrentLiteral | main.ts:25-37 | fulfils exactly when every value fulfils, with exactly the input's keys, each mapped to its own value; otherwise rejects with the error of one of the rejected values |
| Combinators.SequentialLiteral | main.ts:72-82 | fulfils exactly when every operation does, with exactly the input's keys, each mapped to its operation's value; a rejection is the first one in key order; the log is the operations invoked, in key order, up to and including the first rejection |
| Chunked.ChunkThunk | main.ts:107 | the per-chunk operation invokes every operation of its chunk, in order, before anything is awaited; it fulfils exactly when the whole chunk does, with one value per operation, and otherwise rejects with the error of an operation of the chunk |
| Chunked.ChunkedRun | main.ts:103-109 | the composition `toFrames` with `keepTrailing`, `sequential` of one `concurrent` per chunk, `flat()`; the only argument error is a chunk size of 0, which invokes nothing |
| Chunked.ConcurrentChunked | main.ts:96-110 | a chunk size of 0 fails with the zero-length error before anything is invoked; otherwise the call is the sequential run of one concurrent operation per `toFrames` chunk, flattened |
| Chunked.FlattenChunkValues | main.ts:107-109 | when every chunk fulfils, the per-chunk results flattened are the values of the flattened chunks |
| Chunked.FlattenChunkStarts | main.ts:106-107 | invoking the chunk operations in order invokes the underlying operations in their original order |
| Chunked.KeepTrailingFrames | main.ts:103-105 | with `keepTrailing` and a positive size, `toFrames` returns the chunks: the first min(L, n) operations, then the chunks of the rest |
| Chunked.ChunkEnd | main.ts:103-107 | the chunk holding index f ends after f and at most L past it |
| Chunked.ChunkIndexIsDiv | main.ts:103-107 | index f lies in chunk number f div L, which ends at (f div L + 1) * L |
| Chunked.ChunkHolding | main.ts:103-107 | the chunk holding index f (numbered `ChunkIndex(f, L)`, ending at `ChunkEnd(f, L)`; by `ChunkIndexIsDiv` these are f div L and (f div L + 1) * L) exists and is the slice of the operations from its start to its end or the end of the input |
| Chunked.LaterChunk | main.ts:103-105 | chunk c of the operations after the first chunk is chunk c+1 of all of them |
| Chunked.FirstChunk | main.ts:103-105 | the first chunk is the first min(L, n) operations |
| Chunked.ChunksPrefix | main.ts:103-109 | the chunks up to the one holding index f, flattened, are the operations up to the end of that chunk |
| Chunked.ThunkOutcomesCons | main.ts:107 | the per-chunk outcomes are the first chunk's concurrent outcome followed by those of the rest |
| Chunked.FirstChunkRejects | main.ts:106-107 | when the first rejection is in the first chunk, the first chunk operation is the first to reject |
| Chunked.FirstChunkFulfils | main.ts:106-107 | when the first chunk fulfils, the first rejection among the operations and among the chunk operations both move one chunk on |
| Chunked.FirstFailingChunk | main.ts:106-107 | the chunk operations all fulfil exactly when every operation does, and the first chunk operation to reject is the one for the chunk holding the first rejected operation |
| Chunked.SliceFailure | main.ts:107 | a rejection of `concurrent` over a slice of the operations is the error of an operation inside that slice |
| Chunked.ChunkedInvoked | main.ts:106-107 | a chunked call invokes at least as many operations as a fail-fast sequential walk and at most all of them; when operation f is the first to reject, it invokes the first min((f div L + 1) * L, n) operations |
| Chunked.ChunkStart | main.ts:103-107 | the chunk holding index f starts at (f div L) * L |
| Chunked.ChunkedRunIsSequential | main.ts:103-109 | with a positive chunk size the chunked call is `sequential` over one `concurrent` operation per chunk |
| Chunked.ChunkedFulfils | main.ts:103-109 | when every operation fulfils, the chunked call fulfils with all their values, index for index in input order, having invoked every operation once, in input order |
| Chunked.ChunkThunksStop | main.ts:106-107 | when some operation rejects, the sequential run of the chunk operations rejects with the outcome of the chunk holding the first rejection, after invoking exactly the chunk operations up to that one |
| Chunked.ChunkedRejects | main.ts:103-109 | when some operation rejects, the chunked call rejects with the error of an operation in the chunk that holds the first rejection, which spans indices (f div L) * L up to (f div L + 1) * L |
| Chunked.RejectionInChunk | main.ts:103-109 | the same, with the chunk's end given by `ChunkEnd` |
| Chunked.FailureInChunk | main.ts:107 | the chunk holding the first rejection rejects, with the error of one of its own operations |
| Chunked.ChunkedInvocationLog | main.ts:103-109 | the chunked call invokes, in input order, every operation up to the end of the chunk holding the first rejection (all of that chunk, none of a later chunk), or every operation |
| Chunked.RejectedLog | main.ts:103-109 | when some operation rejects, the chunked call invokes, in input order, exactly the operations up to the end of the chunk holding the first rejection |
| Chunked.ChunkedLog | main.ts:106-107 | with a positive chunk size, the chunked call logs exactly what `sequential` over the chunk operations logs |
| Chunked.StoppedChunksLog | main.ts:106-107 | when some operation rejects, the chunk operations invoked are those up to the chunk holding the first rejection, and they log the operations of those chunks in input order |
| Chunked.ChunkedInvokesChunkByChunk | main.ts:84-110 | with one primitive operation per index, the log is 0, 1, 2, ... chunk by chunk, ending with the last index of the chunk holding the first rejection, or covering every index |

## Left out

- The promise and event-loop machinery: real timing, microtask order and how the
  promises of a `concurrent` batch interleave. An operation is its predetermined
  outcome plus its invocation-log entries, and "op i+1 is invoked only after op i
  has resolved" is stated as an order in the invocation log.
- Combinators.Concurrent: states only that a rejection carries the error of one of
  the rejected promises, not which one. `Promise.all` reports the first to reject,
  which depends on host timing. The body picks the lowest index, and no contract
  relies on that choice. The same holds for Combinators.ConcurrentLiteral and
  Chunked.ChunkedRejects.
- Chunked.ChunkThunk: assumes every operation returns a promise, so operations that
  throw synchronously are not modelled. `LazySequence` admits any function. In
  `concurrentChunked`, a synchronous throw inside `chunk.map((x) => x())` stops the
  `map`, so the rest of that chunk is never invoked, and the call rejects with the
  thrown error. Chunked.ChunkedInvocationLog and Chunked.ChunkedInvokesChunkByChunk
  log the whole chunk and do not describe that case. In `sequential` and
  `sequentialLiteral` a synchronous throw behaves like a rejection, which the model
  covers.
- `concurrent` receives promises that are already running. The model gives it their
  outcomes and logs nothing for it.
- Negative and non-integer frame lengths: the frame length is a natural number, and
  0 is the only value refused. JavaScript accepts a negative length and treats it
  like its absolute value under `%`; that is not modelled.
- Error message text: an error is a datatype value carrying the numbers the message
  mentions.
- JavaScript's key enumeration order: an object literal is a sequence of key and
  operation pairs with distinct keys, taken in the order given.
- The TypeScript type-level machinery (`Tuple`, `_TupleOf`, the `Awaited*` aliases):
  it has no runtime behaviour.
- The test harness (`trackedPromise`, timers, timestamps, assertions) is not part
  of this model.

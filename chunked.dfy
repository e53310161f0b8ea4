/** `concurrentChunked` (main.ts): partition the operations into chunks, keeping a
    short trailing chunk, run the chunks one after another with `sequential`, the
    operations of each chunk together with `concurrent`, and flatten the results. */
module Chunked {
  import opened Outcomes
  import opened Frames
  import opened Combinators

  /** Why a chunked call rejects: the chunk size is refused by `toFrames`, or an
      operation rejected. */
  datatype ChunkedError<+E> = InvalidChunkSize(reason: FrameError) | OperationFailed(error: E)

  /** The per-chunk operation `() => concurrent(...chunk.map((x) => x()))`: invoking
      it invokes every operation of the chunk in order, and then awaits them all. It
      fulfils exactly when the whole chunk does, and otherwise rejects with the error
      of an operation of the chunk. */
  function ChunkThunk<V, E>(chunk: seq<Deferred<V, E>>): (thunk: Deferred<seq<V>, E>)
    ensures thunk.starts == StartsOf(chunk)
    ensures thunk.outcome.Ok? <==> AllOk(OutcomesOf(chunk))
    ensures thunk.outcome.Ok? ==> |thunk.outcome.value| == |chunk|
    ensures thunk.outcome.Err? ==> exists j :: 0 <= j < |chunk| && chunk[j].outcome == Err(thunk.outcome.error)
  {
    Deferred(StartsOf(chunk), Concurrent(OutcomesOf(chunk)))
  }

  function ChunkThunks<V, E>(chunks: seq<seq<Deferred<V, E>>>): seq<Deferred<seq<V>, E>>
  {
    seq(|chunks|, k requires 0 <= k < |chunks| => ChunkThunk(chunks[k]))
  }

  const KeepTrailing := Options(keepTrailing := true, throwIfTrailing := false)

  /** The composition itself, stated with the reference definitions of its parts.
      The only argument error is a zero chunk size, which invokes nothing. */
  function ChunkedRun<V, E>(chunkSize: nat, ops: seq<Deferred<V, E>>): (run: Run<seq<V>, ChunkedError<E>>)
    ensures chunkSize == 0 <==> run.result.Err? && run.result.error.InvalidChunkSize?
    ensures chunkSize == 0 ==> run == Run(Err(InvalidChunkSize(ZeroFrameLength)), [])
  {
    match FramesOf(ops, chunkSize, KeepTrailing)
    case Err(e) => Run(Err(InvalidChunkSize(e)), [])
    case Ok(chunks) =>
      var run := SequentialRun(ChunkThunks(chunks));
      match run.result
      case Ok(perChunk) => Run(Ok(Flatten(perChunk)), run.log)
      case Err(e) => Run(Err(OperationFailed(e)), run.log)
  }

  /** `concurrentChunked(chunkSize, ...values)`. */
  method ConcurrentChunked<V, E>(chunkSize: nat, ops: seq<Deferred<V, E>>)
    returns (result: Outcome<seq<V>, ChunkedError<E>>, log: seq<nat>)
    ensures chunkSize == 0 ==> result == Err(InvalidChunkSize(ZeroFrameLength)) && log == []
    ensures Run(result, log) == ChunkedRun(chunkSize, ops)
  {
    var framed := ToFrames(ops, chunkSize, KeepTrailing);
    if framed.Err? {
      return Err(InvalidChunkSize(framed.error)), [];
    }
    var chunks := framed.value;
    var perChunk, invoked := Sequential(ChunkThunks(chunks));
    log := invoked;
    if perChunk.Err? {
      return Err(OperationFailed(perChunk.error)), log;
    }
    result := Ok(Flatten(perChunk.value));
  }

  // ----- Flattening per-chunk runs -----

  lemma {:induction false} OutcomesOfAppend<V, E>(a: seq<Deferred<V, E>>, b: seq<Deferred<V, E>>)
    ensures OutcomesOf(a + b) == OutcomesOf(a) + OutcomesOf(b)
  {
  }

  /** The values of the chunks, flattened, are the values of the flattened chunks. */
  lemma {:induction false} FlattenChunkValues<V, E>(chunks: seq<seq<Deferred<V, E>>>, perChunk: seq<seq<V>>)
    requires |perChunk| == |chunks|
    requires forall k :: 0 <= k < |chunks| ==> Concurrent(OutcomesOf(chunks[k])) == Ok(perChunk[k])
    ensures AllOk(OutcomesOf(Flatten(chunks)))
    ensures Flatten(perChunk) == Values(OutcomesOf(Flatten(chunks)))
  {
    if chunks != [] {
      FlattenChunkValues(chunks[1..], perChunk[1..]);
      OutcomesOfAppend(chunks[0], Flatten(chunks[1..]));
      var head, tail := OutcomesOf(chunks[0]), OutcomesOf(Flatten(chunks[1..]));
      assert Concurrent(head) == Ok(perChunk[0]);
      assert Values(head + tail) == Values(head) + Values(tail);
    }
  }

  /** Invoking the chunk operations one after another invokes the underlying
      operations in their original order. */
  lemma {:induction false} FlattenChunkStarts<V, E>(chunks: seq<seq<Deferred<V, E>>>)
    ensures StartsOf(ChunkThunks(chunks)) == StartsOf(Flatten(chunks))
  {
    if chunks != [] {
      FlattenChunkStarts(chunks[1..]);
      assert ChunkThunks(chunks)[1..] == ChunkThunks(chunks[1..]);
      StartsOfAppend(chunks[0], Flatten(chunks[1..]));
    }
  }

  // ----- Which chunk fails -----

  /** The chunks toFrames makes with keepTrailing, one at a time: the first
      min(L, |arr|) elements, then the chunks of the rest. */
  function ChunksOf<T>(arr: seq<T>, L: nat): seq<seq<T>>
    requires 0 < L
    decreases |arr|
  {
    if arr == [] then [] else if |arr| <= L then [arr] else [arr[..L]] + ChunksOf(arr[L..], L)
  }

  lemma {:induction false} KeepTrailingFrames<T>(arr: seq<T>, L: nat)
    requires 0 < L
    ensures FramesOf(arr, L, KeepTrailing) == Ok(ChunksOf(arr, L))
    decreases |arr|
  {
    if |arr| > L {
      var rest := arr[L..];
      KeepTrailingFrames(rest, L);
      var tail := if Trailing(rest, L) != [] then [Trailing(rest, L)] else [];
      assert SealedFrames(arr, L) + tail == [arr[..L]] + (SealedFrames(rest, L) + tail);
    } else if |arr| == L {
      assert arr[..L] == arr && arr[L..] == [];
      assert SealedFrames(arr, L) == [arr] + SealedFrames([], L);
      assert Trailing(arr, L) == Trailing([], L) == [];
      assert ChunksOf(arr, L) == [arr];
      assert SealedFrames(arr, L) + [] == [arr];
    } else {
      assert SealedFrames(arr, L) == [] && Trailing(arr, L) == arr;
      assert ChunksOf(arr, L) == if arr == [] then [] else [] + [arr];
    }
  }

  /** The number of the chunk that holds index f, counting L indices per chunk. */
  function ChunkIndex(f: nat, L: nat): nat
    requires 0 < L
    decreases f
  {
    if f < L then 0 else 1 + ChunkIndex(f - L, L)
  }

  /** Where the chunk that holds index f ends (exclusive): it spans e - L .. e. */
  function ChunkEnd(f: nat, L: nat): (e: nat)
    requires 0 < L
    ensures L <= e && f < e <= f + L
    decreases f
  {
    if f < L then L else L + ChunkEnd(f - L, L)
  }

  /** The chunk holding index f is chunk number f / L, and it ends at (f / L + 1) * L. */
  lemma {:induction false} ChunkIndexIsDiv(f: nat, L: nat)
    requires 0 < L
    ensures ChunkIndex(f, L) == f / L
    ensures ChunkEnd(f, L) == f / L * L + L
    decreases f
  {
    if f < L {
      DivModUnique(0, f, L);
    } else {
      ChunkIndexIsDiv(f - L, L);
      DivShift(f, L);
    }
  }

  /** Index f of ops falls in chunk ChunkIndex(f, L), which is the slice of ops from
      ChunkEnd(f, L) - L up to ChunkEnd(f, L) or the end of ops. */
  lemma {:induction false} ChunkHolding<V, E>(ops: seq<Deferred<V, E>>, L: nat, f: nat)
    requires 0 < L && f < |ops|
    ensures ChunkIndex(f, L) < |ChunksOf(ops, L)|
    ensures ChunksOf(ops, L)[ChunkIndex(f, L)] == ops[ChunkEnd(f, L) - L .. Min(ChunkEnd(f, L), |ops|)]
    decreases f
  {
    if f < L {
      assert ChunkIndex(f, L) == 0 && ChunkEnd(f, L) == L;
      FirstChunk(ops, L);
    } else {
      ChunkHolding(ops[L..], L, f - L);
      var c, e := ChunkIndex(f - L, L), ChunkEnd(f - L, L);
      assert ChunkIndex(f, L) == c + 1 && ChunkEnd(f, L) == e + L;
      LaterChunk(ops, L, c, e, ChunkEnd(f, L));
    }
  }

  /** Chunk c of ops[L..] is chunk c + 1 of ops, shifted by L: when chunk c of the
      rest ends at e, chunk c + 1 of ops ends at e + L. */
  lemma {:induction false} LaterChunk<T>(ops: seq<T>, L: nat, c: nat, e: nat, end: nat)
    requires 0 < L < |ops| && L <= e < |ops| && end == e + L
    requires c < |ChunksOf(ops[L..], L)|
    requires ChunksOf(ops[L..], L)[c] == ops[L..][e - L .. Min(e, |ops[L..]|)]
    ensures c + 1 < |ChunksOf(ops, L)|
    ensures ChunksOf(ops, L)[c + 1] == ops[end - L .. Min(end, |ops|)]
  {
    var rest := ops[L..];
    assert ChunksOf(ops, L) == [ops[..L]] + ChunksOf(rest, L);
    SuffixSlice(ops, L, e - L, Min(e, |rest|));
  }

  /** The first chunk is the first min(L, |arr|) elements. */
  lemma {:induction false} FirstChunk<T>(arr: seq<T>, L: nat)
    requires 0 < L && arr != []
    ensures ChunksOf(arr, L) != [] && ChunksOf(arr, L)[0] == arr[0 .. Min(L, |arr|)]
  {
    if |arr| <= L {
      assert arr[0 .. |arr|] == arr;
    }
  }

  /** A slice of ops[L..] is the slice of ops shifted by L. */
  lemma {:induction false} SuffixSlice<T>(s: seq<T>, L: nat, a: nat, b: nat)
    requires L <= |s| && a <= b <= |s| - L
    ensures s[L..][a .. b] == s[L + a .. L + b]
  {
    var x, y := s[L..][a .. b], s[L + a .. L + b];
    assert forall i :: 0 <= i < |x| ==> x[i] == y[i];
  }

  /** The first chunks, up to the one holding index f, cover ops up to the end of
      that chunk. */
  lemma {:induction false} ChunksPrefix<V, E>(ops: seq<Deferred<V, E>>, L: nat, f: nat)
    requires 0 < L && f < |ops|
    ensures ChunkIndex(f, L) < |ChunksOf(ops, L)|
    ensures Flatten(ChunksOf(ops, L)[..ChunkIndex(f, L) + 1]) == ops[..Min(ChunkEnd(f, L), |ops|)]
    decreases f
  {
    var chunks := ChunksOf(ops, L);
    if f < L {
      assert ChunkIndex(f, L) == 0 && ChunkEnd(f, L) == L;
      if |ops| <= L {
        assert chunks == [ops];
      } else {
        assert chunks[0] == ops[..L];
      }
      assert chunks[..1] == [chunks[0]];
      assert Flatten([chunks[0]]) == chunks[0] + Flatten([]);
    } else {
      var rest := ops[L..];
      assert chunks == [ops[..L]] + ChunksOf(rest, L);
      ChunksPrefix(rest, L, f - L);
      var c, e := ChunkIndex(f - L, L), ChunkEnd(f - L, L);
      assert ChunkIndex(f, L) == c + 1 && ChunkEnd(f, L) == e + L;
      var front := ChunksOf(rest, L)[..c + 1];
      assert chunks[..c + 2] == [ops[..L]] + front;
      assert Flatten([ops[..L]] + front) == ops[..L] + Flatten(front);
      var hi := Min(e, |rest|);
      PrefixJoin(ops, L, hi);
      assert Min(ChunkEnd(f, L), |ops|) == L + hi;
    }
  }

  /** The first L elements followed by a prefix of the rest are a prefix. */
  lemma {:induction false} PrefixJoin<T>(s: seq<T>, L: nat, b: nat)
    requires L <= |s| && b <= |s| - L
    ensures s[..L] + s[L..][..b] == s[..L + b]
  {
    var x, y := s[..L] + s[L..][..b], s[..L + b];
    assert forall i :: 0 <= i < |x| ==> x[i] == y[i];
  }

  lemma {:induction false} ThunkOutcomesCons<V, E>(chunks: seq<seq<Deferred<V, E>>>)
    requires chunks != []
    ensures OutcomesOf(ChunkThunks(chunks)) ==
              [Concurrent(OutcomesOf(chunks[0]))] + OutcomesOf(ChunkThunks(chunks[1..]))
  {
    assert OutcomesOf(ChunkThunks(chunks))[1..] == OutcomesOf(ChunkThunks(chunks[1..]));
  }

  /** When the first rejection falls in the first chunk, the first chunk rejects. */
  lemma {:induction false} FirstChunkRejects<V, E>(ops: seq<Deferred<V, E>>, L: nat)
    requires 0 < L && FirstFailure(OutcomesOf(ops)) < Min(L, |ops|)
    ensures FirstFailure(OutcomesOf(ChunkThunks(ChunksOf(ops, L)))) == 0
  {
    var chunks, outs := ChunksOf(ops, L), OutcomesOf(ops);
    var f, m := FirstFailure(outs), Min(L, |ops|);
    assert chunks[0] == ops[..m];
    assert OutcomesOf(chunks[0])[f] == outs[f];
    ThunkOutcomesCons(chunks);
    FirstFailureAt(OutcomesOf(ChunkThunks(chunks)), 0);
  }

  /** When the first chunk fulfils, the first rejection among the operations and
      among the chunk operations both lie one chunk further on. */
  lemma {:induction false} FirstChunkFulfils<V, E>(ops: seq<Deferred<V, E>>, L: nat)
    requires 0 < L && ops != [] && Min(L, |ops|) <= FirstFailure(OutcomesOf(ops))
    ensures var m := Min(L, |ops|);
      var rest := ops[m..];
      && |ChunksOf(ops, L)| == 1 + |ChunksOf(rest, L)|
      && FirstFailure(OutcomesOf(ops)) == m + FirstFailure(OutcomesOf(rest))
      && FirstFailure(OutcomesOf(ChunkThunks(ChunksOf(ops, L)))) ==
           1 + FirstFailure(OutcomesOf(ChunkThunks(ChunksOf(rest, L))))
  {
    var chunks, outs := ChunksOf(ops, L), OutcomesOf(ops);
    var m := Min(L, |ops|);
    var head, rest := ops[..m], ops[m..];
    if |ops| <= L {
      assert head == ops && rest == [];
      assert chunks == [head] + ChunksOf(rest, L);
    } else {
      assert chunks == [head] + ChunksOf(rest, L);
    }
    assert chunks[1..] == ChunksOf(rest, L);
    assert OutcomesOf(head) == outs[..m];
    assert AllOk(OutcomesOf(head));
    FirstFailureSkip(outs, m);
    assert OutcomesOf(rest) == outs[m..];
    ThunkOutcomesCons(chunks);
    FirstFailureSkip(OutcomesOf(ChunkThunks(chunks)), 1);
  }

  /** The chunk operations all fulfil exactly when every operation does, and the
      first chunk operation that rejects is the one for the chunk holding the first
      operation that rejects. */
  lemma {:induction false} FirstFailingChunk<V, E>(ops: seq<Deferred<V, E>>, L: nat)
    requires 0 < L
    ensures var f, chunks := FirstFailure(OutcomesOf(ops)), ChunksOf(ops, L);
      var chunkFailure := FirstFailure(OutcomesOf(ChunkThunks(chunks)));
      && (f < |ops| ==> chunkFailure == ChunkIndex(f, L) < |chunks|)
      && (f == |ops| ==> chunkFailure == |chunks|)
    decreases |ops|
  {
    if ops != [] {
      var f, m := FirstFailure(OutcomesOf(ops)), Min(L, |ops|);
      if f < m {
        FirstChunkRejects(ops, L);
        assert ChunksOf(ops, L) != [];
      } else {
        FirstChunkFulfils(ops, L);
        FirstFailingChunk(ops[m..], L);
        if f < |ops| {
          assert m == L;
          assert ChunkIndex(f, L) == 1 + ChunkIndex(f - L, L);
        }
      }
    }
  }

  /** A rejection of `concurrent` over a slice is the rejection of an operation in it. */
  lemma {:induction false} SliceFailure<V, E>(ops: seq<Deferred<V, E>>, lo: nat, hi: nat, chunk: seq<Deferred<V, E>>)
    returns (j: nat)
    requires lo <= hi <= |ops| && chunk == ops[lo .. hi]
    requires Concurrent(OutcomesOf(chunk)).Err?
    ensures lo <= j < hi && OutcomesOf(ops)[j] == Err(Concurrent(OutcomesOf(chunk)).error)
  {
    var batch := OutcomesOf(chunk);
    var i :| 0 <= i < |batch| && batch[i] == Err(Concurrent(batch).error);
    assert batch[i] == OutcomesOf(ops)[lo + i];
    j := lo + i;
  }

  /** How many operations a chunked call invokes: all of them when none rejects,
      otherwise every operation up to the end of the chunk that holds the first
      rejection. It is at least as many as a fail-fast sequential walk invokes. */
  function ChunkedInvoked<V, E>(chunkSize: nat, outs: seq<Outcome<V, E>>): (n: nat)
    requires 0 < chunkSize
    ensures Invoked(outs) <= n <= |outs|
    ensures var f := FirstFailure(outs);
      f < |outs| ==> n == Min((f / chunkSize + 1) * chunkSize, |outs|)
  {
    var f := FirstFailure(outs);
    ChunkIndexIsDiv(f, chunkSize);
    MulSucc(f / chunkSize, chunkSize);
    if f == |outs| then |outs| else Min(ChunkEnd(f, chunkSize), |outs|)
  }

  /** With a positive chunk size, the chunked call is the sequential run of the
      chunk operations. */
  lemma {:induction false} ChunkedRunIsSequential<V, E>(chunkSize: nat, ops: seq<Deferred<V, E>>)
    requires 0 < chunkSize
    ensures var run := SequentialRun(ChunkThunks(ChunksOf(ops, chunkSize)));
      ChunkedRun(chunkSize, ops) ==
        match run.result
        case Ok(perChunk) => Run(Ok(Flatten(perChunk)), run.log)
        case Err(e) => Run(Err(OperationFailed(e)), run.log)
  {
    KeepTrailingFrames(ops, chunkSize);
  }

  /** With a positive chunk size and every operation fulfilling, a chunked call
      fulfils with all the values in input order, having invoked every operation
      once, in input order. */
  lemma {:induction false} ChunkedFulfils<V, E>(chunkSize: nat, ops: seq<Deferred<V, E>>)
    requires 0 < chunkSize && AllOk(OutcomesOf(ops))
    ensures ChunkedRun(chunkSize, ops) == Run(Ok(Values(OutcomesOf(ops))), StartsOf(ops))
  {
    var L, outs := chunkSize, OutcomesOf(ops);
    ChunkedRunIsSequential(L, ops);
    KeepTrailingFrames(ops, L);
    var chunks := ChunksOf(ops, L);
    var thunks := ChunkThunks(chunks);
    var thunkOuts := OutcomesOf(thunks);
    assert FirstFailure(outs) == |ops|;
    FirstFailingChunk(ops, L);
    SequentialAllOrNothing(thunks);
    var run := SequentialRun(thunks);
    var perChunk := run.result.value;
    forall k | 0 <= k < |chunks| ensures Concurrent(OutcomesOf(chunks[k])) == Ok(perChunk[k]) {
      assert thunkOuts[k] == Concurrent(OutcomesOf(chunks[k]));
    }
    FlattenChunkValues(chunks, perChunk);
    FramesConcat(ops, L, KeepTrailing);
    assert thunks[..|thunks|] == thunks;
    FlattenChunkStarts(chunks);
  }

  /** When some operation rejects, the sequential run of the chunk operations
      rejects with the outcome of the chunk holding the first rejection, after
      invoking the chunk operations up to and including that one. */
  lemma {:induction false} ChunkThunksStop<V, E>(ops: seq<Deferred<V, E>>, L: nat)
    requires 0 < L && FirstFailure(OutcomesOf(ops)) < |ops|
    ensures var f, chunks := FirstFailure(OutcomesOf(ops)), ChunksOf(ops, L);
      var run := SequentialRun(ChunkThunks(chunks));
      && ChunkIndex(f, L) < |chunks|
      && Concurrent(OutcomesOf(chunks[ChunkIndex(f, L)])).Err?
      && run.result == Err(Concurrent(OutcomesOf(chunks[ChunkIndex(f, L)])).error)
      && run.log == StartsOf(ChunkThunks(chunks)[..ChunkIndex(f, L) + 1])
  {
    var chunks := ChunksOf(ops, L);
    var thunks := ChunkThunks(chunks);
    var c := ChunkIndex(FirstFailure(OutcomesOf(ops)), L);
    FirstFailingChunk(ops, L);
    SequentialAllOrNothing(thunks);
    assert thunks[c] == ChunkThunk(chunks[c]);
    assert OutcomesOf(thunks)[c] == thunks[c].outcome;
  }

  /** With a positive chunk size and some operation rejecting, a chunked call
      rejects with the error of an operation in the chunk that holds the first
      rejection. */
  lemma {:induction false} ChunkedRejects<V, E>(chunkSize: nat, ops: seq<Deferred<V, E>>)
    requires 0 < chunkSize && !AllOk(OutcomesOf(ops))
    ensures var result, outs := ChunkedRun(chunkSize, ops).result, OutcomesOf(ops);
      var start := FirstFailure(outs) / chunkSize * chunkSize;
      && result.Err? && result.error.OperationFailed?
      && exists j: nat :: start <= j < start + chunkSize && j < |ops| && outs[j] == Err(result.error.error)
  {
    var outs := OutcomesOf(ops);
    var f := FirstFailure(outs);
    var j := RejectionInChunk(chunkSize, ops);
    var start := ChunkStart(f, chunkSize);
    var result := ChunkedRun(chunkSize, ops).result;
    assert start <= j < start + chunkSize && j < |ops| && outs[j] == Err(result.error.error);
  }

  /** The chunk holding index f starts at (f / L) * L. */
  lemma {:induction false} ChunkStart(f: nat, L: nat) returns (start: nat)
    requires 0 < L
    ensures start == f / L * L && start == ChunkEnd(f, L) - L
  {
    ChunkIndexIsDiv(f, L);
    start := f / L * L;
  }

  /** ChunkedRejects with the chunk's end given by ChunkEnd. */
  lemma {:induction false} RejectionInChunk<V, E>(chunkSize: nat, ops: seq<Deferred<V, E>>) returns (j: nat)
    requires 0 < chunkSize && !AllOk(OutcomesOf(ops))
    ensures var result, outs := ChunkedRun(chunkSize, ops).result, OutcomesOf(ops);
      var end := ChunkEnd(FirstFailure(outs), chunkSize);
      && result.Err? && result.error.OperationFailed?
      && end - chunkSize <= j < end && j < |ops| && outs[j] == Err(result.error.error)
  {
    var L, outs := chunkSize, OutcomesOf(ops);
    var f := FirstFailure(outs);
    ChunkedRunIsSequential(L, ops);
    ChunkThunksStop(ops, L);
    var chunk, end := ChunksOf(ops, L)[ChunkIndex(f, L)], ChunkEnd(f, L);
    var err := Concurrent(OutcomesOf(chunk)).error;
    assert ChunkedRun(L, ops).result == Err(OperationFailed(err));
    j := FailureInChunk(ops, L);
  }

  /** The chunk holding the first rejection rejects with the error of one of its
      own operations. */
  lemma {:induction false} FailureInChunk<V, E>(ops: seq<Deferred<V, E>>, L: nat) returns (j: nat)
    requires 0 < L && FirstFailure(OutcomesOf(ops)) < |ops|
    ensures var f := FirstFailure(OutcomesOf(ops));
      var c, end := ChunkIndex(f, L), ChunkEnd(f, L);
      && c < |ChunksOf(ops, L)|
      && Concurrent(OutcomesOf(ChunksOf(ops, L)[c])).Err?
      && end - L <= j < end && j < |ops|
      && OutcomesOf(ops)[j] == Err(Concurrent(OutcomesOf(ChunksOf(ops, L)[c])).error)
  {
    var f := FirstFailure(OutcomesOf(ops));
    ChunkHolding(ops, L, f);
    var end := ChunkEnd(f, L);
    var lo, hi := end - L, Min(end, |ops|);
    var chunk := ChunksOf(ops, L)[ChunkIndex(f, L)];
    assert lo <= f < hi && chunk == ops[lo .. hi];
    assert chunk[f - lo] == ops[f];
    var batch := OutcomesOf(chunk);
    assert batch[f - lo].Err?;
    assert !AllOk(batch);
    j := SliceFailure(ops, lo, hi, chunk);
  }

  /** A chunked call with a positive chunk size invokes, in input order, every
      operation up to the end of the chunk that holds the first rejection, or all
      of them. */
  lemma {:induction false} ChunkedInvocationLog<V, E>(chunkSize: nat, ops: seq<Deferred<V, E>>)
    requires 0 < chunkSize
    ensures ChunkedRun(chunkSize, ops).log == StartsOf(ops[..ChunkedInvoked(chunkSize, OutcomesOf(ops))])
  {
    var L, f := chunkSize, FirstFailure(OutcomesOf(ops));
    if f == |ops| {
      ChunkedFulfils(L, ops);
      assert ops[..|ops|] == ops;
    } else {
      RejectedLog(L, ops);
      assert ChunkedInvoked(L, OutcomesOf(ops)) == Min(ChunkEnd(f, L), |ops|);
    }
  }

  /** ChunkedInvocationLog when some operation rejects, with the end of the chunk
      holding the first rejection given by ChunkEnd. */
  lemma {:induction false} RejectedLog<V, E>(L: nat, ops: seq<Deferred<V, E>>)
    requires 0 < L && FirstFailure(OutcomesOf(ops)) < |ops|
    ensures ChunkedRun(L, ops).log == StartsOf(ops[..Min(ChunkEnd(FirstFailure(OutcomesOf(ops)), L), |ops|)])
  {
    var f := FirstFailure(OutcomesOf(ops));
    ChunkedLog(L, ops);
    StoppedChunksLog(ops, L);
    ChunksPrefix(ops, L, f);
  }

  /** When some operation rejects, the chunk operations invoked are those up to the
      chunk holding the first rejection, and they log the operations of those chunks
      in input order. */
  lemma {:induction false} StoppedChunksLog<V, E>(ops: seq<Deferred<V, E>>, L: nat)
    requires 0 < L && FirstFailure(OutcomesOf(ops)) < |ops|
    ensures var chunks, c := ChunksOf(ops, L), ChunkIndex(FirstFailure(OutcomesOf(ops)), L);
      c < |chunks| && SequentialRun(ChunkThunks(chunks)).log == StartsOf(Flatten(chunks[..c + 1]))
  {
    var chunks := ChunksOf(ops, L);
    var c := ChunkIndex(FirstFailure(OutcomesOf(ops)), L);
    var run := SequentialRun(ChunkThunks(chunks));
    ChunkThunksStop(ops, L);
    assert run.log == StartsOf(ChunkThunks(chunks)[..c + 1]);
    ChunkThunksPrefix(chunks, c + 1);
    FlattenChunkStarts(chunks[..c + 1]);
  }

  /** With a positive chunk size, the chunked call logs what the sequential run of
      the chunk operations logs. */
  lemma {:induction false} ChunkedLog<V, E>(L: nat, ops: seq<Deferred<V, E>>)
    requires 0 < L
    ensures ChunkedRun(L, ops).log == SequentialRun(ChunkThunks(ChunksOf(ops, L))).log
  {
    ChunkedRunIsSequential(L, ops);
  }

  lemma {:induction false} ChunkThunksPrefix<V, E>(chunks: seq<seq<Deferred<V, E>>>, n: nat)
    requires n <= |chunks|
    ensures ChunkThunks(chunks)[..n] == ChunkThunks(chunks[..n])
  {
    var x, y := ChunkThunks(chunks)[..n], ChunkThunks(chunks[..n]);
    assert forall k :: 0 <= k < n ==> x[k] == ChunkThunk(chunks[k]) == y[k];
  }

  /** In a chunked call over operations that each start one primitive operation,
      the primitive operations start in index order, chunk by chunk: everything up
      to the end of the chunk holding the first rejection, and nothing after it. */
  lemma {:induction false} ChunkedInvokesChunkByChunk<V, E>(chunkSize: nat, outs: seq<Outcome<V, E>>)
    requires 0 < chunkSize
    ensures ChunkedRun(chunkSize, Indexed(outs)).log == Range(0, ChunkedInvoked(chunkSize, outs))
  {
    var ops := Indexed(outs);
    assert OutcomesOf(ops) == outs;
    ChunkedInvocationLog(chunkSize, ops);
    IndexedStarts(outs, ChunkedInvoked(chunkSize, outs));
  }
}

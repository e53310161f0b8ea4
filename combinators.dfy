/** The concurrency combinators of main.ts, over deferred operations whose outcomes
    are fixed in advance. Invoking an operation appends the indices of the primitive
    operations it starts to an invocation log; that log is how the order of
    invocation is observed. */
module Combinators {
  import opened Outcomes

  /** A deferred operation (a zero-argument function returning a promise), described
      by what invoking it does: the primitive operations it starts, in order, and how
      the promise it returns settles. */
  datatype Deferred<+V, +E> = Deferred(starts: seq<nat>, outcome: Outcome<V, E>)

  /** What a combinator call does: how its promise settles, and the invocation log. */
  datatype Run<+R, +E> = Run(result: Outcome<R, E>, log: seq<nat>)

  // ----- Helpers over outcomes -----

  predicate AllOk<V, E>(outs: seq<Outcome<V, E>>)
  {
    forall i :: 0 <= i < |outs| ==> outs[i].Ok?
  }

  /** The index of the first rejection, or |outs| when every promise fulfils. */
  function FirstFailure<V, E>(outs: seq<Outcome<V, E>>): (k: nat)
    ensures k <= |outs|
    ensures forall j :: 0 <= j < k ==> outs[j].Ok?
    ensures k < |outs| ==> outs[k].Err?
  {
    if outs == [] || outs[0].Err? then 0 else 1 + FirstFailure(outs[1..])
  }

  /** The first rejection is at i when everything before i fulfils and i rejects. */
  lemma {:induction false} FirstFailureAt<V, E>(outs: seq<Outcome<V, E>>, i: nat)
    requires i < |outs| && outs[i].Err?
    requires forall j :: 0 <= j < i ==> outs[j].Ok?
    ensures FirstFailure(outs) == i
  {
  }

  /** Past a prefix of m fulfilled promises, the first rejection is m further on. */
  lemma {:induction false} FirstFailureSkip<V, E>(outs: seq<Outcome<V, E>>, m: nat)
    requires m <= |outs|
    requires forall j :: 0 <= j < m ==> outs[j].Ok?
    ensures FirstFailure(outs) == m + FirstFailure(outs[m..])
  {
    var g := FirstFailure(outs[m..]);
    if g < |outs| - m {
      assert outs[m..][g] == outs[m + g];
      FirstFailureAt(outs, m + g);
    } else {
      assert forall j :: m <= j < |outs| ==> outs[m..][j - m] == outs[j];
    }
  }

  /** How many operations a fail-fast sequential walk invokes: up to and including
      the first one that rejects. */
  function Invoked<V, E>(outs: seq<Outcome<V, E>>): (n: nat)
    ensures n <= |outs|
  {
    var k := FirstFailure(outs);
    if k < |outs| then k + 1 else k
  }

  function Values<V, E>(outs: seq<Outcome<V, E>>): (vs: seq<V>)
    requires AllOk(outs)
  {
    seq(|outs|, i requires 0 <= i < |outs| => outs[i].value)
  }

  function OutcomesOf<V, E>(ops: seq<Deferred<V, E>>): seq<Outcome<V, E>>
  {
    seq(|ops|, i requires 0 <= i < |ops| => ops[i].outcome)
  }

  /** The log entries produced by invoking each of ops once, in order. */
  function StartsOf<V, E>(ops: seq<Deferred<V, E>>): seq<nat>
  {
    if ops == [] then [] else ops[0].starts + StartsOf(ops[1..])
  }

  lemma {:induction false} StartsOfAppend<V, E>(a: seq<Deferred<V, E>>, b: seq<Deferred<V, E>>)
    ensures StartsOf(a + b) == StartsOf(a) + StartsOf(b)
  {
    if a == [] {
      assert a + b == b;
    } else {
      assert (a + b)[1..] == a[1..] + b;
      StartsOfAppend(a[1..], b);
    }
  }

  lemma {:induction false} StartsOfOne<V, E>(op: Deferred<V, E>)
    ensures StartsOf([op]) == op.starts
  {
    assert [op][1..] == [];
  }

  /** The operations of a call `sequential(f0, f1, ...)`: invoking f_i starts the
      primitive operation numbered i and nothing else. */
  function Indexed<V, E>(outs: seq<Outcome<V, E>>): (ops: seq<Deferred<V, E>>)
  {
    seq(|outs|, i requires 0 <= i < |outs| => Deferred([i], outs[i]))
  }

  /** The indices a, a+1, ..., b-1 in increasing order. */
  function Range(a: nat, b: nat): (r: seq<nat>)
    requires a <= b
  {
    seq(b - a, i requires 0 <= i < b - a => a + i)
  }

  /** Invoking the first m indexed operations logs 0, 1, ..., m-1. */
  lemma {:induction false} IndexedStarts<V, E>(outs: seq<Outcome<V, E>>, m: nat)
    requires m <= |outs|
    ensures StartsOf(Indexed(outs)[..m]) == Range(0, m)
  {
    var ops := Indexed(outs);
    if m > 0 {
      IndexedStarts(outs, m - 1);
      assert ops[..m] == ops[..m - 1] + [ops[m - 1]];
      StartsOfAppend(ops[..m - 1], [ops[m - 1]]);
      StartsOfOne(ops[m - 1]);
      assert Range(0, m) == Range(0, m - 1) + [m - 1];
    }
  }

  // ----- concurrent -----

  /** `concurrent(...values)` is `Promise.all(values)` over promises that are already
      running: it starts nothing, and fulfils with every value in input order, or
      rejects with the error of one of the promises that reject. */
  function Concurrent<V, E>(batch: seq<Outcome<V, E>>): (r: Outcome<seq<V>, E>)
    ensures r.Ok? <==> AllOk(batch)
    ensures r.Ok? ==> |r.value| == |batch| && forall i :: 0 <= i < |batch| ==> r.value[i] == batch[i].value
    ensures r.Err? ==> exists j :: 0 <= j < |batch| && batch[j] == Err(r.error)
  {
    var k := FirstFailure(batch);
    if k == |batch| then Ok(Values(batch)) else Err(batch[k].error)
  }

  // ----- sequential -----

  /** The state machine of `sequential`, one operation at a time: invoke the first,
      wait until it settles, and either stop on a rejection, dropping what earlier
      operations produced, or go on with the rest. */
  function SequentialRun<V, E>(ops: seq<Deferred<V, E>>): (run: Run<seq<V>, E>)
    ensures run.result.Ok? ==> |run.result.value| == |ops|
    ensures run.result.Err? ==> exists i :: 0 <= i < |ops| && ops[i].outcome == Err(run.result.error)
  {
    if ops == [] then Run(Ok([]), [])
    else
      match ops[0].outcome
      case Err(e) => Run(Err(e), ops[0].starts)
      case Ok(v) =>
        var rest := SequentialRun(ops[1..]);
        Run(if rest.result.Ok? then Ok([v] + rest.result.value) else rest.result,
            ops[0].starts + rest.log)
  }

  /** All or nothing: `sequential` fulfils exactly when every operation does, with
      their values index for index; otherwise it rejects with the first rejection.
      Either way it has invoked the operations up to the first rejection, in order,
      and none after it. */
  lemma {:induction false} SequentialAllOrNothing<V, E>(ops: seq<Deferred<V, E>>)
    ensures var run, outs := SequentialRun(ops), OutcomesOf(ops);
      && (run.result.Ok? <==> AllOk(outs))
      && (run.result.Ok? ==>
            |run.result.value| == |ops| &&
            forall i :: 0 <= i < |ops| ==> run.result.value[i] == outs[i].value)
      && (run.result.Err? ==> FirstFailure(outs) < |ops| && run.result == Err(outs[FirstFailure(outs)].error))
      && run.log == StartsOf(ops[..Invoked(outs)])
  {
    var outs := OutcomesOf(ops);
    if ops != [] {
      var rest := ops[1..];
      SequentialAllOrNothing(rest);
      assert OutcomesOf(rest) == outs[1..];
      if ops[0].outcome.Err? {
        assert FirstFailure(outs) == 0;
        assert ops[..1] == [ops[0]];
        StartsOfOne(ops[0]);
      } else {
        assert FirstFailure(outs) == 1 + FirstFailure(outs[1..]);
        assert ops[..Invoked(outs)][1..] == rest[..Invoked(outs[1..])];
        if SequentialRun(rest).result.Ok? {
          assert AllOk(outs) by {
            forall i | 0 <= i < |ops| ensures outs[i].Ok? {
              if i > 0 { assert outs[i] == OutcomesOf(rest)[i - 1]; }
            }
          }
        }
      }
    }
  }

  /** With one operation per index, `sequential` invokes 0, 1, 2, ... strictly in
      order, one at a time, and stops after the first rejection. */
  lemma {:induction false} SequentialInvokesInOrder<V, E>(outs: seq<Outcome<V, E>>)
    ensures SequentialRun(Indexed(outs)).log == Range(0, Invoked(outs))
  {
    var ops := Indexed(outs);
    assert OutcomesOf(ops) == outs;
    SequentialAllOrNothing(ops);
    IndexedStarts(outs, Invoked(outs));
  }

  /** `sequential(...values)`: a results array of the right length, all `undefined`,
      filled by a loop that invokes values[i] and awaits it before going on. A
      rejected await leaves the loop and rejects the whole call. */
  method Sequential<V, E>(ops: seq<Deferred<V, E>>) returns (result: Outcome<seq<V>, E>, log: seq<nat>)
    ensures result.Ok? <==> AllOk(OutcomesOf(ops))
    ensures result.Ok? ==>
              |result.value| == |ops| &&
              forall i :: 0 <= i < |ops| ==> ops[i].outcome == Ok(result.value[i])
    ensures result.Err? ==> result.error == ops[FirstFailure(OutcomesOf(ops))].outcome.error
    ensures log == StartsOf(ops[..Invoked(OutcomesOf(ops))])
    ensures Run(result, log) == SequentialRun(ops)
  {
    var results := new Option<V>[|ops|](_ => None);
    log := [];
    for i := 0 to results.Length
      invariant forall j :: 0 <= j < i ==> ops[j].outcome.Ok? && results[j] == Some(ops[j].outcome.value)
      invariant log == StartsOf(ops[..i])
    {
      var op := ops[i];  // values[i]()
      StartsOfAppend(ops[..i], [op]);
      assert ops[..i + 1] == ops[..i] + [op];
      StartsOfOne(op);
      log := log + op.starts;
      if op.outcome.Err? {
        FirstFailureAt(OutcomesOf(ops), i);
        result := Err(op.outcome.error);
        SequentialAllOrNothing(ops);
        assert OutcomesOf(ops)[i] == op.outcome;
        assert Run(result, log).result == SequentialRun(ops).result;
        assert Run(result, log).log == SequentialRun(ops).log;
        return;
      }
      results[i] := Some(op.outcome.value);
    }
    result := Ok(seq(results.Length, j requires 0 <= j < results.Length && results[j].Some? reads results =>
                                       results[j].value));
    assert ops[..|ops|] == ops;
    SequentialAllOrNothing(ops);
    assert AllOk(OutcomesOf(ops));
    assert SequentialRun(ops).result.Ok?;
    ghost var expected := SequentialRun(ops).result.value;
    assert |expected| == |ops|;
    assert forall i :: 0 <= i < |ops| ==> result.value[i] == expected[i];
    assert result.value == expected;
    assert log == SequentialRun(ops).log;
  }

  // ----- keyed variants -----

  /** An object literal's own keys are distinct. */
  predicate DistinctKeys<K(==), X>(entries: seq<(K, X)>)
  {
    forall i, j :: 0 <= i < j < |entries| ==> entries[i].0 != entries[j].0
  }

  function KeySet<K(==), X>(entries: seq<(K, X)>): set<K>
  {
    set i | 0 <= i < |entries| :: entries[i].0
  }

  lemma {:induction false} KeySetSnoc<K, X>(entries: seq<(K, X)>, i: nat)
    requires i < |entries|
    ensures KeySet(entries[..i + 1]) == KeySet(entries[..i]) + {entries[i].0}
  {
    var a, b := entries[..i + 1], entries[..i];
    forall k | k in KeySet(a) ensures k in KeySet(b) + {entries[i].0} {
      var j :| 0 <= j < |a| && a[j].0 == k;
      if j < i { assert b[j] == a[j]; }
    }
    forall k | k in KeySet(b) + {entries[i].0} ensures k in KeySet(a) {
      if k == entries[i].0 {
        assert a[i].0 == k;
      } else {
        var j :| 0 <= j < |b| && b[j].0 == k;
        assert a[j] == b[j];
      }
    }
  }

  function OpsOf<K, V, E>(entries: seq<(K, Deferred<V, E>)>): seq<Deferred<V, E>>
  {
    seq(|entries|, i requires 0 <= i < |entries| => entries[i].1)
  }

  /** `(async () => [key, await values[key]])()`: the promise of a key-value pair. */
  function Tagged<K, V, E>(key: K, o: Outcome<V, E>): (r: Outcome<(K, V), E>)
    ensures r.Ok? <==> o.Ok?
    ensures r.Ok? ==> r.value.0 == key && r.value.1 == o.value
    ensures r.Err? ==> r.error == o.error
  {
    match o
    case Ok(v) => Ok((key, v))
    case Err(e) => Err(e)
  }

  /** `concurrentLiteral(values)`: one keyed promise per key, pushed in enumeration
      order, awaited together, then folded into a fresh object. */
  method ConcurrentLiteral<K(==), V, E>(entries: seq<(K, Outcome<V, E>)>) returns (result: Outcome<map<K, V>, E>)
    requires DistinctKeys(entries)
    ensures result.Ok? <==> forall i :: 0 <= i < |entries| ==> entries[i].1.Ok?
    ensures result.Ok? ==>
              result.value.Keys == KeySet(entries) &&
              forall i :: 0 <= i < |entries| ==> result.value[entries[i].0] == entries[i].1.value
    ensures result.Err? ==> exists i :: 0 <= i < |entries| && entries[i].1 == Err(result.error)
  {
    var promises: seq<Outcome<(K, V), E>> := [];
    for i := 0 to |entries|
      invariant |promises| == i
      invariant forall j :: 0 <= j < i ==> promises[j] == Tagged(entries[j].0, entries[j].1)
    {
      promises := promises + [Tagged(entries[i].0, entries[i].1)];
    }
    var settled := Concurrent(promises);
    if settled.Err? {
      ghost var j :| 0 <= j < |promises| && promises[j] == Err(settled.error);
      assert entries[j].1 == Err(settled.error);
      return Err(settled.error);
    }
    assert forall i :: 0 <= i < |entries| ==> promises[i].Ok? && entries[i].1.Ok?;
    var pairs := settled.value;
    var folded: map<K, V> := map[];
    for j := 0 to |pairs|
      invariant folded.Keys == KeySet(entries[..j])
      invariant forall i :: 0 <= i < j ==> folded[entries[i].0] == entries[i].1.value
    {
      assert pairs[j] == (entries[j].0, entries[j].1.value);
      KeySetSnoc(entries, j);
      folded := folded[pairs[j].0 := pairs[j].1];
    }
    assert entries[..|entries|] == entries;
    result := Ok(folded);
  }

  /** `sequentialLiteral(values)`: the keys in enumeration order, each operation
      invoked and awaited in turn and stored under its key; a rejection abandons
      the remaining keys and the object built so far. */
  method SequentialLiteral<K(==), V, E>(entries: seq<(K, Deferred<V, E>)>)
    returns (result: Outcome<map<K, V>, E>, log: seq<nat>)
    requires DistinctKeys(entries)
    ensures result.Ok? <==> AllOk(OutcomesOf(OpsOf(entries)))
    ensures result.Ok? ==>
              result.value.Keys == KeySet(entries) &&
              forall i :: 0 <= i < |entries| ==> entries[i].1.outcome == Ok(result.value[entries[i].0])
    ensures result.Err? ==> result.error == entries[FirstFailure(OutcomesOf(OpsOf(entries)))].1.outcome.error
    ensures log == StartsOf(OpsOf(entries)[..Invoked(OutcomesOf(OpsOf(entries)))])
  {
    ghost var ops := OpsOf(entries);
    var results: map<K, V> := map[];
    log := [];
    for i := 0 to |entries|
      invariant forall j :: 0 <= j < i ==> entries[j].1.outcome.Ok?
      invariant results.Keys == KeySet(entries[..i])
      invariant forall j :: 0 <= j < i ==> results[entries[j].0] == entries[j].1.outcome.value
      invariant log == StartsOf(ops[..i])
    {
      var (key, op) := entries[i];  // values[key]()
      StartsOfAppend(ops[..i], [op]);
      assert ops[..i + 1] == ops[..i] + [op];
      StartsOfOne(op);
      log := log + op.starts;
      if op.outcome.Err? {
        FirstFailureAt(OutcomesOf(ops), i);
        return Err(op.outcome.error), log;
      }
      KeySetSnoc(entries, i);
      results := results[key := op.outcome.value];
    }
    assert entries[..|entries|] == entries && ops[..|ops|] == ops;
    result := Ok(results);
  }
}

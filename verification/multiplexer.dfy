/**
 * The level multiplexer engine (src/index.ts:33-250).
 *
 * One logical key-value store over a pointer index and a set of labelled
 * backing stores.  `Put` copies a value into every store its route names and
 * records where the copies went; `Get` reads every copy, settles disagreement
 * by majority, re-files the outvoted values as new records and writes the
 * majority value back where a copy was missing; `Del` removes a record and its
 * copies.  The index and the stores are fields of the object that the methods
 * update; the routing function and the reverse lookup are injected.
 */
module Multiplexer {
  import opened Outcomes
  import opened Dedup
  import opened Records

  /** Every label the routing function can produce is a configured store
      (what src/index.ts:115 assumes of `_stores`). */
  ghost predicate Routable<V(!new)>(mapper: V -> seq<string>, labels: set<string>)
  {
    forall v, i :: 0 <= i < |mapper(v)| ==> mapper(v)[i] in labels
  }

  /** A key outside `avoid`: how a backing store's `post` and the engine's
      `uuidv4` come up with a key nobody uses (src/index.ts:115, 151). */
  method FreshKey(avoid: set<string>) returns (k: string)
    ensures k !in avoid
  {
    var longest: nat := 0;
    var rest := avoid;
    while rest != {}
      invariant rest <= avoid
      invariant forall a :: a in avoid - rest ==> |a| <= longest
      decreases |rest|
    {
      var a :| a in rest;
      if |a| > longest {
        longest := |a|;
      }
      rest := rest - {a};
    }
    k := seq(longest + 1, _ => 'k');
    assert |k| > longest;
  }

  /** One operation of a change-feed batch, as it arrives and as it is
      republished (src/index.ts:190-203, 224-240). */
  datatype Op<V> = PutOp(key: string, value: V) | DelOp(key: string) | OtherOp(kind: string)

  /** The kind of the first operation of the batch that is neither a put nor a
      delete. */
  function FirstUnrecognized<V>(ops: seq<Op<V>>): (r: Option<string>)
    ensures r.None? <==> forall i :: 0 <= i < |ops| ==> !ops[i].OtherOp?
    ensures r.Some? ==>
      exists i :: 0 <= i < |ops| && ops[i] == OtherOp(r.value) && forall j :: 0 <= j < i ==> !ops[j].OtherOp?
  {
    if ops == [] then None
    else if ops[0].OtherOp? then Some(ops[0].kind)
    else
      var r := FirstUnrecognized(ops[1..]);
      assert forall i :: 1 <= i < |ops| ==> ops[i] == ops[1..][i - 1];
      if r.Some? then
        var i :| 0 <= i < |ops[1..]| && ops[1..][i] == OtherOp(r.value) &&
          forall j :: 0 <= j < i ==> !ops[1..][j].OtherOp?;
        assert ops[i + 1] == OtherOp(r.value);
        r
      else r
  }

  /** A batch with no unrecognised operation has none in any prefix. */
  lemma UnrecognizedPrefix<V>(ops: seq<Op<V>>)
    requires ops != []
    ensures FirstUnrecognized(ops).None? <==>
      FirstUnrecognized(ops[..|ops| - 1]).None? && !ops[|ops| - 1].OtherOp?
  {
    var n := |ops| - 1;
    assert forall i :: 0 <= i < n ==> ops[..n][i] == ops[i];
  }

  /** How a batch from a backing store is republished under the reverse
      lookup `reverse`: a put keeps its value and goes under the logical key
      the lookup gives, if any; a delete goes out under the logical key the
      lookup gives, and is dropped when it gives none. */
  ghost predicate StoreBatchShape<V>(ops: seq<Op<V>>, out: seq<Op<V>>, reverse: string -> Option<string>)
    decreases |ops|
  {
    if ops == [] then out == []
    else
      var op := ops[|ops| - 1];
      var rest := ops[..|ops| - 1];
      match op
      case PutOp(k, v) =>
        out != [] && out[|out| - 1].PutOp? && out[|out| - 1].value == v &&
        (reverse(k).Some? ==> out[|out| - 1].key == reverse(k).value) &&
        StoreBatchShape(rest, out[..|out| - 1], reverse)
      case DelOp(k) =>
        if reverse(k).Some? then
          out != [] && out[|out| - 1] == DelOp(reverse(k).value) &&
          StoreBatchShape(rest, out[..|out| - 1], reverse)
        else StoreBatchShape(rest, out, reverse)
      case OtherOp(_) => false
  }

  /** The reverse lookup the source ships (src/index.ts:156-159): every
      physical key is taken to be its own logical key. */
  function IdentityReverse(key: string): Option<string>
  {
    Some(key)
  }

  /** With the shipped reverse lookup, a batch from a backing store goes out
      exactly as it came in: every put under its own key with its value, and
      no delete dropped (src/index.ts:156-159, 224-242). */
  lemma {:induction false} IdentityRepublishes<V>(ops: seq<Op<V>>, out: seq<Op<V>>)
    requires StoreBatchShape(ops, out, IdentityReverse)
    ensures out == ops
    decreases |ops|
  {
    if ops != [] {
      var n := |ops| - 1;
      assert ops == ops[..n] + [ops[n]];
      IdentityRepublishes(ops[..n], out[..|out| - 1]);
      assert out == out[..|out| - 1] + [out[|out| - 1]];
    }
  }

  /** The outcome of a read of `k` in (i0, s0): NotFound when there is no
      record, otherwise what the copies found decide. */
  function ReadOutcome<V(==,!new)>(i0: Index, s0: Stores<V>, k: string): (r: Result<V, Error>)
    requires k in i0 ==> Known(i0[k], s0)
    ensures r.Failure? ==> r.error == NotFound
    ensures r.Success? <==> k in i0 && Found(i0[k], s0) != []
  {
    if k in i0 then GetOutcome(Found(i0[k], s0)) else Failure(NotFound)
  }

  /** What resolving one operation of a batch seen on the pointer index does
      (src/index.ts:190-204), from state (i0, s0) to state (i1, s1) with result
      `res`: a put is read, goes out with the value read and leaves the state
      the read leaves (`posted` are the records the read posted), or fails with
      NotFound and changes nothing; a delete goes out as it is; anything else
      is an UnrecognizedOperation error. */
  ghost predicate IndexOpStep<V(!new)>(op: Op<V>, i0: Index, s0: Stores<V>, i1: Index, s1: Stores<V>,
                                          res: Result<Op<V>, Error>, posted: seq<string>, mapper: V -> seq<string>)
  {
    match op
    case PutOp(k, _) =>
      (k in i0 ==> Known(i0[k], s0)) &&
      var outcome := ReadOutcome(i0, s0, k);
      (outcome.Failure? ==> res == Failure(NotFound) && i1 == i0 && s1 == s0 && posted == []) &&
      (outcome.Success? ==> res == Success(PutOp(k, outcome.value)) && ReadDone(i0, s0, i1, s1, k, outcome.value, posted, mapper))
    case DelOp(_) => res == Success(op) && i1 == i0 && s1 == s0 && posted == []
    case OtherOp(kind) => res == Failure(UnrecognizedOperation(kind)) && i1 == i0 && s1 == s0 && posted == []
  }

  /** A run of a batch from the pointer index, one operation after another:
      `indexes[i]`, `states[i]` is the state before operation `i`, and each
      step is an `IndexOpStep`. */
  ghost predicate IndexTrace<V(!new)>(ops: seq<Op<V>>, indexes: seq<Index>, states: seq<Stores<V>>,
                                         results: seq<Result<Op<V>, Error>>, posted: seq<seq<string>>,
                                         mapper: V -> seq<string>)
  {
    |results| <= |ops| && |indexes| == |results| + 1 && |states| == |results| + 1 && |posted| == |results| &&
    forall i {:trigger IndexOpStep(ops[i], indexes[i], states[i], indexes[i + 1], states[i + 1], results[i], posted[i], mapper)} ::
      0 <= i < |results| ==>
      IndexOpStep(ops[i], indexes[i], states[i], indexes[i + 1], states[i + 1], results[i], posted[i], mapper)
  }

  /** One more step extends a run. */
  lemma IndexTraceStep<V(!new)>(ops: seq<Op<V>>, indexes: seq<Index>, states: seq<Stores<V>>,
                                   results: seq<Result<Op<V>, Error>>, posted: seq<seq<string>>,
                                   mapper: V -> seq<string>, i1: Index, s1: Stores<V>, res: Result<Op<V>, Error>, p: seq<string>)
    requires IndexTrace(ops, indexes, states, results, posted, mapper) && |results| < |ops|
    requires IndexOpStep(ops[|results|], indexes[|results|], states[|results|], i1, s1, res, p, mapper)
    ensures IndexTrace(ops, indexes + [i1], states + [s1], results + [res], posted + [p], mapper)
  {
    var n := |results|;
    var I, S, R, P := indexes + [i1], states + [s1], results + [res], posted + [p];
    forall i | 0 <= i < n + 1 ensures IndexOpStep(ops[i], I[i], S[i], I[i + 1], S[i + 1], R[i], P[i], mapper) {
      if i < n {
        assert I[i] == indexes[i] && I[i + 1] == indexes[i + 1] && S[i] == states[i] && S[i + 1] == states[i + 1];
        assert R[i] == results[i] && P[i] == posted[i];
      }
    }
  }

  /** In a run, a delete always goes out as it is, anything unrecognised
      fails as such, and a put can fail only with NotFound. */
  lemma TraceOutcomes<V(!new)>(ops: seq<Op<V>>, indexes: seq<Index>, states: seq<Stores<V>>,
                                  results: seq<Result<Op<V>, Error>>, posted: seq<seq<string>>, mapper: V -> seq<string>)
    requires IndexTrace(ops, indexes, states, results, posted, mapper)
    ensures forall j :: 0 <= j < |results| ==>
      (ops[j].DelOp? ==> results[j] == Success(ops[j])) &&
      (ops[j].OtherOp? ==> results[j] == Failure(UnrecognizedOperation(ops[j].kind))) &&
      (ops[j].PutOp? && results[j].Failure? ==> results[j] == Failure(NotFound))
  {
    forall j | 0 <= j < |results|
      ensures (ops[j].DelOp? ==> results[j] == Success(ops[j])) &&
        (ops[j].OtherOp? ==> results[j] == Failure(UnrecognizedOperation(ops[j].kind))) &&
        (ops[j].PutOp? && results[j].Failure? ==> results[j] == Failure(NotFound))
    {
      assert IndexOpStep(ops[j], indexes[j], states[j], indexes[j + 1], states[j + 1], results[j], posted[j], mapper);
    }
  }

  /** The output and the failure flag of `ResolveIndexBatch` follow the run:
      the flag is set exactly when a read has failed, and while every step
      succeeded the output holds the results in order. */
  lemma IndexOutStep<V>(ops: seq<Op<V>>, results: seq<Result<Op<V>, Error>>, res: Result<Op<V>, Error>,
                        out: seq<Op<V>>, failed: bool, out': seq<Op<V>>, failed': bool)
    requires |results| < |ops|
    requires failed <==> exists j :: 0 <= j < |results| && ops[j].PutOp? && results[j].Failure?
    requires (forall j :: 0 <= j < |results| ==> results[j].Success?) ==>
      |out| == |results| && forall j :: 0 <= j < |results| ==> results[j] == Success(out[j])
    requires failed' == (failed || (res.Failure? && ops[|results|].PutOp?))
    requires out' == if res.Success? then out + [res.value] else out
    ensures failed' <==> exists j :: 0 <= j < |results| + 1 && ops[j].PutOp? && (results + [res])[j].Failure?
    ensures (forall j :: 0 <= j < |results| + 1 ==> (results + [res])[j].Success?) ==>
      |out'| == |results| + 1 && forall j :: 0 <= j < |results| + 1 ==> (results + [res])[j] == Success(out'[j])
  {
    var results' := results + [res];
    assert forall j :: 0 <= j < |results| ==> results'[j] == results[j];
    if failed {
      var j :| 0 <= j < |results| && ops[j].PutOp? && results[j].Failure?;
      assert results'[j].Failure?;
    }
    if forall j :: 0 <= j < |results'| ==> results'[j].Success? {
      assert forall j :: 0 <= j < |results| ==> results[j].Success?;
      assert results'[|results|] == res;
      assert out' == out + [res.value] && |out| == |results|;
      assert forall j :: 0 <= j < |out| ==> out'[j] == out[j];
    }
  }

  /** Where `ResolveIndexBatch` stands after the first `|results|`
      operations: the run so far goes from (i0, s0) to (i1, s1), the failure
      flag says whether a read has failed, and while every step succeeded the
      output holds the results in order. */
  ghost predicate IndexRun<V(!new)>(ops: seq<Op<V>>, out: seq<Op<V>>, failed: bool, indexes: seq<Index>,
                                    states: seq<Stores<V>>, results: seq<Result<Op<V>, Error>>,
                                    posted: seq<seq<string>>, mapper: V -> seq<string>,
                                    i0: Index, s0: Stores<V>, i1: Index, s1: Stores<V>)
  {
    IndexTrace(ops, indexes, states, results, posted, mapper) &&
    indexes[0] == i0 && states[0] == s0 && indexes[|results|] == i1 && states[|results|] == s1 &&
    (failed <==> exists j :: 0 <= j < |results| && ops[j].PutOp? && results[j].Failure?) &&
    ((forall j :: 0 <= j < |results| ==> results[j].Success?) ==>
      |out| == |results| && forall j :: 0 <= j < |results| ==> results[j] == Success(out[j]))
  }

  /** One more resolved operation extends where the batch stands. */
  lemma IndexRunStep<V(!new)>(ops: seq<Op<V>>, out: seq<Op<V>>, failed: bool, indexes: seq<Index>,
                              states: seq<Stores<V>>, results: seq<Result<Op<V>, Error>>,
                              posted: seq<seq<string>>, mapper: V -> seq<string>,
                              i0: Index, s0: Stores<V>, i1: Index, s1: Stores<V>, i2: Index, s2: Stores<V>,
                              res: Result<Op<V>, Error>, p: seq<string>, out': seq<Op<V>>, failed': bool)
    requires IndexRun(ops, out, failed, indexes, states, results, posted, mapper, i0, s0, i1, s1)
    requires |results| < |ops| && IndexTrace(ops, indexes + [i2], states + [s2], results + [res], posted + [p], mapper)
    requires failed' == (failed || (res.Failure? && ops[|results|].PutOp?))
    requires out' == if res.Success? then out + [res.value] else out
    ensures IndexRun(ops, out', failed', indexes + [i2], states + [s2], results + [res], posted + [p], mapper,
                     i0, s0, i2, s2)
  {
    IndexOutStep(ops, results, res, out, failed, out', failed');
  }

  /** A run of deletes only changes nothing. */
  lemma {:induction false} DeletesKeepState<V(!new)>(ops: seq<Op<V>>, indexes: seq<Index>, states: seq<Stores<V>>,
                                                        results: seq<Result<Op<V>, Error>>, posted: seq<seq<string>>,
                                                        mapper: V -> seq<string>, n: nat)
    requires IndexTrace(ops, indexes, states, results, posted, mapper) && n <= |results|
    requires forall j :: 0 <= j < |results| ==> ops[j].DelOp?
    ensures indexes[n] == indexes[0] && states[n] == states[0]
  {
    if n > 0 {
      var j := n - 1;
      DeletesKeepState(ops, indexes, states, results, posted, mapper, j);
      assert IndexOpStep(ops[j], indexes[j], states[j], indexes[j + 1], states[j + 1], results[j], posted[j], mapper);
    }
  }

  /** What resolving one operation of a batch seen on a backing store does
      (src/index.ts:224-241), from state (i0, s0) to state (i1, s1) with result
      `res`: a put is filed under the logical key the reverse lookup gives, or
      under a new one, and goes out under it with its value; a delete removes
      the record of the logical key the lookup gives and goes out under that
      key, or is dropped when the lookup gives none; anything else is an
      UnrecognizedOperation error. */
  ghost predicate StoreOpStep<V(!new)>(op: Op<V>, i0: Index, s0: Stores<V>, i1: Index, s1: Stores<V>,
                                       res: Result<Option<Op<V>>, Error>, reverse: string -> Option<string>,
                                       mapper: V -> seq<string>)
  {
    StoreOut(op, res, reverse) &&
    match op
    case PutOp(k, v) =>
      (reverse(k).None? ==> res.value.value.key !in i0) &&
      PutDone(i0, s0, i1, s1, res.value.value.key, v, mapper(v))
    case DelOp(k) =>
      if reverse(k).None? then i1 == i0 && s1 == s0
      else
        var logical := reverse(k).value;
        i1 == i0 - {logical} &&
        (logical in i0 ==> Known(i0[logical], s0) && s1 == RemovePointers(s0, i0[logical])) &&
        (logical !in i0 ==> s1 == s0)
    case OtherOp(_) => i1 == i0 && s1 == s0
  }

  /** What one operation of a batch seen on a backing store turns into: a put
      goes out with its value, under the logical key the reverse lookup gives
      if it gives one; a delete goes out under the logical key the lookup
      gives, or is dropped when it gives none; anything else is an
      UnrecognizedOperation error. */
  ghost predicate StoreOut<V>(op: Op<V>, res: Result<Option<Op<V>>, Error>, reverse: string -> Option<string>)
  {
    match op
    case PutOp(k, v) =>
      res.Success? && res.value.Some? && res.value.value.PutOp? && res.value.value.value == v &&
      (reverse(k).Some? ==> res.value.value.key == reverse(k).value)
    case DelOp(k) =>
      res == if reverse(k).None? then Success(None) else Success(Some(DelOp(reverse(k).value)))
    case OtherOp(kind) => res == Failure(UnrecognizedOperation(kind))
  }

  /** A run of a batch from a backing store, one operation after another. */
  ghost predicate StoreTrace<V(!new)>(ops: seq<Op<V>>, indexes: seq<Index>, states: seq<Stores<V>>,
                                      results: seq<Result<Option<Op<V>>, Error>>,
                                      reverse: string -> Option<string>, mapper: V -> seq<string>)
  {
    |results| <= |ops| && |indexes| == |results| + 1 && |states| == |results| + 1 &&
    forall i {:trigger StoreOpStep(ops[i], indexes[i], states[i], indexes[i + 1], states[i + 1], results[i], reverse, mapper)} ::
      0 <= i < |results| ==>
      StoreOpStep(ops[i], indexes[i], states[i], indexes[i + 1], states[i + 1], results[i], reverse, mapper)
  }

  /** One more step extends a run. */
  lemma StoreTraceStep<V(!new)>(ops: seq<Op<V>>, indexes: seq<Index>, states: seq<Stores<V>>,
                                results: seq<Result<Option<Op<V>>, Error>>, reverse: string -> Option<string>,
                                mapper: V -> seq<string>, i1: Index, s1: Stores<V>, res: Result<Option<Op<V>>, Error>)
    requires StoreTrace(ops, indexes, states, results, reverse, mapper) && |results| < |ops|
    requires StoreOpStep(ops[|results|], indexes[|results|], states[|results|], i1, s1, res, reverse, mapper)
    ensures StoreTrace(ops, indexes + [i1], states + [s1], results + [res], reverse, mapper)
  {
    var n := |results|;
    var I, S, R := indexes + [i1], states + [s1], results + [res];
    forall i | 0 <= i < n + 1 ensures StoreOpStep(ops[i], I[i], S[i], I[i + 1], S[i + 1], R[i], reverse, mapper) {
      if i < n {
        assert I[i] == indexes[i] && I[i + 1] == indexes[i + 1] && S[i] == states[i] && S[i + 1] == states[i + 1];
        assert R[i] == results[i];
      }
    }
  }

  /** One more resolved operation extends the shape of the output. */
  lemma StoreShapeStep<V>(ops: seq<Op<V>>, out: seq<Op<V>>, op: Op<V>, res: Result<Option<Op<V>>, Error>,
                          reverse: string -> Option<string>)
    requires StoreBatchShape(ops, out, reverse) && !op.OtherOp?
    requires StoreOut(op, res, reverse)
    ensures res.Success?
    ensures StoreBatchShape(ops + [op], out + if res.value.Some? then [res.value.value] else [], reverse)
  {
    var ops' := ops + [op];
    var out' := out + if res.value.Some? then [res.value.value] else [];
    assert ops'[..|ops|] == ops;
    if res.value.Some? {
      assert out'[..|out|] == out;
    } else {
      assert out' == out;
    }
  }

  /** The operations that go out, in order: the result of every step that
      produced one. */
  function Republished<V>(results: seq<Result<Option<Op<V>>, Error>>): seq<Op<V>>
  {
    if results == [] then []
    else
      var last := results[|results| - 1];
      Republished(results[..|results| - 1]) + if last.Success? && last.value.Some? then [last.value.value] else []
  }

  /** Where `ResolveStoreBatch` stands after the first `|results|`
      operations: the run so far goes from (i0, s0) to (i1, s1), `out` is what
      it produced, and while no operation was unrecognised `out` has the shape
      the batch so far calls for. */
  ghost predicate StoreRun<V(!new)>(ops: seq<Op<V>>, out: seq<Op<V>>, indexes: seq<Index>, states: seq<Stores<V>>,
                                    results: seq<Result<Option<Op<V>>, Error>>, reverse: string -> Option<string>,
                                    mapper: V -> seq<string>, i0: Index, s0: Stores<V>, i1: Index, s1: Stores<V>)
  {
    StoreTrace(ops, indexes, states, results, reverse, mapper) &&
    indexes[0] == i0 && states[0] == s0 && indexes[|results|] == i1 && states[|results|] == s1 &&
    out == Republished(results) &&
    ((forall j :: 0 <= j < |results| ==> !ops[j].OtherOp?) ==> StoreBatchShape(ops[..|results|], out, reverse))
  }

  /** One more resolved operation extends where the batch stands. */
  lemma StoreRunStep<V(!new)>(ops: seq<Op<V>>, out: seq<Op<V>>, indexes: seq<Index>, states: seq<Stores<V>>,
                              results: seq<Result<Option<Op<V>>, Error>>, reverse: string -> Option<string>,
                              mapper: V -> seq<string>, i0: Index, s0: Stores<V>, i1: Index, s1: Stores<V>,
                              i2: Index, s2: Stores<V>, res: Result<Option<Op<V>>, Error>, out': seq<Op<V>>)
    requires StoreRun(ops, out, indexes, states, results, reverse, mapper, i0, s0, i1, s1)
    requires |results| < |ops| && StoreTrace(ops, indexes + [i2], states + [s2], results + [res], reverse, mapper)
    requires StoreOut(ops[|results|], res, reverse)
    requires out' == if res.Success? && res.value.Some? then out + [res.value.value] else out
    ensures StoreRun(ops, out', indexes + [i2], states + [s2], results + [res], reverse, mapper, i0, s0, i2, s2)
  {
    var n := |results|;
    if forall j :: 0 <= j < n + 1 ==> !ops[j].OtherOp? {
      StoreShapeStep(ops[..n], out, ops[n], res, reverse);
      assert ops[..n + 1] == ops[..n] + [ops[n]];
    }
    assert (results + [res])[..n] == results;
  }

  class LevelMultiplexer<V(==,!new)> {
    /** The labels of the configured backing stores. */
    const labels: set<string>
    /** The routing function: which stores get a copy of a value. */
    const mapper: V -> seq<string>
    /** The reverse lookup from a physical key to its logical key. */
    const reverse: string -> Option<string>
    /** The pointer index (`_store`). */
    var index: Index
    /** The contents of the backing stores (`_stores`). */
    var stores: Stores<V>

    /** The class invariant: every label the routing function can produce,
        and every store an index pointer names, is a configured store. */
    ghost predicate Valid()
      reads this
    {
      stores.Keys == labels && Routable(mapper, labels) && IndexKnown(index, labels)
    }

    /** Fills the label-to-store table, one empty store per label
        (src/index.ts:43-52). */
    constructor (storeLabels: seq<string>, mapper: V -> seq<string>, reverse: string -> Option<string>)
      requires Routable(mapper, set l | l in storeLabels)
      ensures Valid()
      ensures labels == set l | l in storeLabels
      ensures this.mapper == mapper && this.reverse == reverse
      ensures index == map[] && forall l :: l in stores ==> stores[l] == map[]
    {
      var m: Stores<V> := map[];
      for i := 0 to |storeLabels|
        invariant m.Keys == set l | l in storeLabels[..i]
        invariant forall l :: l in m ==> m[l] == map[]
      {
        assert storeLabels[..i + 1] == storeLabels[..i] + [storeLabels[i]];
        m := m[storeLabels[i] := map[]];
      }
      assert storeLabels[..|storeLabels|] == storeLabels;
      this.labels := set l | l in storeLabels;
      this.mapper := mapper;
      this.reverse := reverse;
      index := map[];
      stores := m;
    }

    /** Copies `val` into every store its route names, each under a key that
        store assigns, and records the copies under `key`
        (src/index.ts:110-119). */
    method Put(key: string, val: V)
      requires Valid()
      modifies this
      ensures Valid()
      ensures PutDone(old(index), old(stores), index, stores, key, val, mapper(val))
    {
      var ptrs := FanOut(val);
      index := index[key := ptrs];
    }

    /** The fan-out of a write (src/index.ts:112-117): `val` goes into each
        store of its route, in route order, under a key that store assigns;
        the returned pointers say where. */
    method FanOut(val: V) returns (ptrs: seq<Pointer>)
      requires Valid()
      modifies this
      ensures Valid() && index == old(index)
      ensures Routed(ptrs, mapper(val)) && Holds(ptrs, stores, val)
      ensures FreshFor(ptrs, index, old(stores))
      ensures Extends(old(stores), stores) && OnlyAdds(old(stores), stores, ptrs)
    {
      var route := mapper(val);
      ptrs := [];
      for i := 0 to |route|
        invariant stores.Keys == labels && index == old(index)
        invariant Routed(ptrs, route[..i])
        invariant Holds(ptrs, stores, val) && FreshFor(ptrs, index, old(stores))
        invariant Extends(old(stores), stores) && OnlyAdds(old(stores), stores, ptrs)
      {
        var l := route[i];
        var k := FreshKey(stores[l].Keys + PointedKeys(index, l));
        FanOutStep(index, old(stores), stores, ptrs, val, l, k);
        RoutedStep(ptrs, route, i, Pointer(l, k));
        stores := stores[l := stores[l][k := val]];
        ptrs := ptrs + [Pointer(l, k)];
      }
      assert route[..|route|] == route;
    }

    /** Stores `val` under a logical key not in the index, and returns that
        key (src/index.ts:150-154). */
    method Post(val: V) returns (key: string)
      requires Valid()
      modifies this
      ensures Valid()
      ensures key !in old(index)
      ensures PutDone(old(index), old(stores), index, stores, key, val, mapper(val))
    {
      key := FreshKey(index.Keys);
      Put(key, val);
    }

    /** Removes the record of `key` and every copy it points to; a key without
        a record is left alone (src/index.ts:121-136). */
    method Del(key: string)
      requires Valid()
      modifies this
      ensures Valid()
      ensures index == old(index) - {key}
      ensures key in old(index) ==>
        Known(old(index)[key], old(stores)) && stores == RemovePointers(old(stores), old(index)[key])
      ensures key !in old(index) ==> stores == old(stores)
    {
      if key !in index {
        return;
      }
      var ptrs := index[key];
      assert Known(ptrs, stores);
      for i := 0 to |ptrs|
        invariant index == old(index) && stores.Keys == labels
        invariant stores == RemovePointers(old(stores), ptrs[..i])
      {
        RemoveStep(old(stores), ptrs, i);
        var p := ptrs[i];
        stores := stores[p.store := stores[p.store] - {p.key}];
      }
      assert ptrs[..|ptrs|] == ptrs;
      index := index - {key};
    }

    /** Posts each value as a new record, in order: what the collision branch
        of a read means to do with the outvoted values (src/index.ts:98-101).
        Returns the new logical keys. */
    method PostEach(vs: seq<V>) returns (ghost keys: seq<string>)
      requires Valid()
      modifies this
      ensures Valid()
      ensures PostedAs(old(index), old(stores), index, stores, keys, vs, mapper)
      ensures Extends(old(stores), stores)
      ensures OnlyAdds(old(stores), stores, PostedPointers(index, keys))
    {
      keys := [];
      for j := 0 to |vs|
        invariant Valid()
        invariant PostedAs(old(index), old(stores), index, stores, keys, vs[..j], mapper)
        invariant Extends(old(stores), stores)
        invariant OnlyAdds(old(stores), stores, PostedPointers(index, keys))
      {
        assert vs[..j + 1] == vs[..j] + [vs[j]];
        ghost var i0, s0 := index, stores;
        var k := Post(vs[j]);
        PostStep(old(index), old(stores), i0, s0, keys, vs[..j], mapper, index, stores, k, vs[j]);
        ExtendsTrans(old(stores), s0, stores);
        OnlyAddsTrans(old(stores), s0, stores, PostedPointers(i0, keys), index[k]);
        PostedPointersGrow(i0, index, keys, k);
        keys := keys + [k];
      }
      assert vs[..|vs|] == vs;
    }

    /** Writes `v` back under every pointer in `ptrs`
        (src/index.ts:103-105). */
    method Recreate(ptrs: seq<Pointer>, v: V)
      requires Valid() && Known(ptrs, stores)
      modifies this
      ensures Valid()
      ensures index == old(index)
      ensures stores == Repair(old(stores), ptrs, v)
    {
      for i := 0 to |ptrs|
        invariant index == old(index)
        invariant stores == Repair(old(stores), ptrs[..i], v)
      {
        RepairStep(old(stores), ptrs, v, i);
        var p := ptrs[i];
        stores := stores[p.store := stores[p.store][p.key := v]];
      }
      assert ptrs[..|ptrs|] == ptrs;
    }

    /** Fetches the copy behind every pointer (src/index.ts:77-91): the values
        found, in record order, and the pointers whose store lacks their key. */
    method Fetch(ptrs: seq<Pointer>) returns (vals: seq<V>, recreate: seq<Pointer>)
      requires Known(ptrs, stores)
      ensures vals == Found(ptrs, stores) && recreate == Missing(ptrs, stores)
    {
      vals, recreate := [], [];
      for i := 0 to |ptrs|
        invariant vals == Found(ptrs[..i], stores) && recreate == Missing(ptrs[..i], stores)
      {
        assert ptrs[..i + 1] == ptrs[..i] + [ptrs[i]];
        var p := ptrs[i];
        if p.key in stores[p.store] {
          vals := vals + [stores[p.store][p.key]];
        } else {
          recreate := recreate + [p];
        }
      }
      assert ptrs[..|ptrs|] == ptrs;
    }

    /** Reads `key` (src/index.ts:74-108): fetches every copy its record points
        to, fails with NotFound when there is no record or no copy, otherwise
        returns the majority value, posts each outvoted value as a new record
        (`posted`) and writes the majority value back under every pointer whose
        copy was missing. */
    method Get(key: string) returns (r: Result<V, Error>, ghost posted: seq<string>)
      requires Valid()
      modifies this
      ensures Valid()
      ensures key in old(index) ==> Known(old(index)[key], old(stores))
      ensures r == if key in old(index) then GetOutcome(Found(old(index)[key], old(stores))) else Failure(NotFound)
      ensures r.Failure? ==> index == old(index) && stores == old(stores) && posted == []
      ensures r.Success? ==> ReadDone(old(index), old(stores), index, stores, key, r.value, posted, mapper)
    {
      posted := [];
      if key !in index {
        return Failure(NotFound), [];
      }
      var ptrs := index[key];
      var vals, recreate := Fetch(ptrs);
      if vals == [] {
        return Failure(NotFound), [];
      }
      var u := Unique(vals, Id);
      OneDistinctValue(vals);
      if |u| > 1 {
        posted := PostEach(u[1..]);
      } else {
        assert PostedAs(old(index), old(stores), index, stores, posted, u[1..], mapper);
        assert OnlyAdds(old(stores), stores, PostedPointers(index, posted));
      }
      RepairAfterPosts(old(index), old(stores), index, stores, key, posted, u[1..], mapper, u[0]);
      RepairOnlyAdds(old(stores), stores, recreate, PostedPointers(index, posted), u[0]);
      Recreate(recreate, u[0]);
      r := Success(u[0]);
    }

    /** Deletes the record that the reverse lookup gives for the physical key
        `key`, and returns that logical key; with no logical key nothing
        happens (src/index.ts:161-166). */
    method ReverseDel(key: string) returns (existing: Option<string>)
      requires Valid()
      modifies this
      ensures Valid()
      ensures existing == reverse(key)
      ensures existing.None? ==> index == old(index) && stores == old(stores)
      ensures existing.Some? ==> index == old(index) - {existing.value}
      ensures existing.Some? && existing.value in old(index) ==>
        Known(old(index)[existing.value], old(stores)) &&
        stores == RemovePointers(old(stores), old(index)[existing.value])
      ensures existing.Some? && existing.value !in old(index) ==> stores == old(stores)
    {
      existing := reverse(key);
      if existing.Some? {
        Del(existing.value);
      }
    }

    /** Files `val`, seen under the physical key `key`, under the logical key
        the reverse lookup gives, or under a new logical key when it gives
        none; returns the logical key (src/index.ts:168-176). */
    method ReversePost(key: string, val: V) returns (logical: string)
      requires Valid()
      modifies this
      ensures Valid()
      ensures reverse(key).Some? ==> logical == reverse(key).value
      ensures reverse(key).None? ==> logical !in old(index)
      ensures PutDone(old(index), old(stores), index, stores, logical, val, mapper(val))
    {
      var existing := reverse(key);
      if existing.None? {
        logical := Post(val);
      } else {
        logical := existing.value;
        Put(logical, val);
      }
    }

    /** Republishes one operation of a batch seen on the pointer index
        (src/index.ts:190-204): a put goes out with the value a read of its
        key resolves, and the read repairs and posts as `Get` does; a delete
        goes out as it is; anything else is an error. */
    method ResolveIndexOp(op: Op<V>) returns (r: Result<Op<V>, Error>, ghost posted: seq<string>)
      requires Valid()
      modifies this
      ensures Valid()
      ensures Retains(old(index), index) && Extends(old(stores), stores)
      ensures IndexOpStep(op, old(index), old(stores), index, stores, r, posted, mapper)
    {
      posted := [];
      match op
      case PutOp(k, _) =>
        var got;
        got, posted := Get(k);
        if got.Success? {
          r := Success(PutOp(k, got.value));
        } else {
          r := Failure(NotFound);
        }
      case DelOp(_) =>
        r := Success(op);
      case OtherOp(kind) =>
        r := Failure(UnrecognizedOperation(kind));
    }

    /** Republishes a batch seen on the pointer index (src/index.ts:187-207).
        Every operation is resolved, in order, as the run `indexes`, `states`,
        `results` records; the batch fails with the first unrecognised
        operation if there is one, otherwise with NotFound exactly when a read
        failed, otherwise it goes out as the operations resolved: each put with
        the value its read returned. */
    method ResolveIndexBatch(ops: seq<Op<V>>)
      returns (r: Result<seq<Op<V>>, Error>, ghost indexes: seq<Index>, ghost states: seq<Stores<V>>,
               ghost results: seq<Result<Op<V>, Error>>, ghost posted: seq<seq<string>>)
      requires Valid()
      modifies this
      ensures Valid()
      ensures Retains(old(index), index) && Extends(old(stores), stores)
      ensures IndexTrace(ops, indexes, states, results, posted, mapper) && |results| == |ops|
      ensures indexes[0] == old(index) && states[0] == old(stores)
      ensures indexes[|ops|] == index && states[|ops|] == stores
      ensures FirstUnrecognized(ops).Some? ==> r == Failure(UnrecognizedOperation(FirstUnrecognized(ops).value))
      ensures FirstUnrecognized(ops).None? ==>
        (r.Failure? <==> exists i :: 0 <= i < |ops| && results[i].Failure?) &&
        (r.Failure? ==> r.error == NotFound)
      ensures r.Success? ==> |r.value| == |ops| && forall i :: 0 <= i < |ops| ==> results[i] == Success(r.value[i])
      ensures (forall i :: 0 <= i < |ops| ==> ops[i].DelOp?) ==>
        r == Success(ops) && index == old(index) && stores == old(stores)
    {
      var out: seq<Op<V>> := [];
      var failed := false;
      indexes, states, results, posted := [index], [stores], [], [];
      for i := 0 to |ops|
        invariant Valid()
        invariant Retains(old(index), index) && Extends(old(stores), stores)
        invariant IndexRun(ops, out, failed, indexes, states, results, posted, mapper, old(index), old(stores), index, stores)
        invariant |results| == i
      {
        out, failed, indexes, states, results, posted :=
          ResolveIndexNext(ops, i, out, failed, indexes, states, results, posted, old(index), old(stores));
      }
      TraceOutcomes(ops, indexes, states, results, posted, mapper);
      var bad := FirstUnrecognized(ops);
      if bad.Some? {
        r := Failure(UnrecognizedOperation(bad.value));
      } else if failed {
        r := Failure(NotFound);
      } else {
        assert forall j :: 0 <= j < |ops| ==> results[j].Success?;
        r := Success(out);
      }
      if forall i :: 0 <= i < |ops| ==> ops[i].DelOp? {
        DeletesKeepState(ops, indexes, states, results, posted, mapper, |ops|);
        assert out == ops;
      }
    }

    /** One turn of the loop of `ResolveIndexBatch`: resolves the next
        operation, extends the run, and extends the output or records the
        failed read. */
    method ResolveIndexNext(ops: seq<Op<V>>, i: nat, out: seq<Op<V>>, failed: bool, ghost indexes: seq<Index>,
                            ghost states: seq<Stores<V>>, ghost results: seq<Result<Op<V>, Error>>,
                            ghost posted: seq<seq<string>>, ghost i0: Index, ghost s0: Stores<V>)
      returns (out': seq<Op<V>>, failed': bool, ghost indexes': seq<Index>, ghost states': seq<Stores<V>>,
               ghost results': seq<Result<Op<V>, Error>>, ghost posted': seq<seq<string>>)
      requires Valid() && Retains(i0, index) && Extends(s0, stores)
      requires IndexRun(ops, out, failed, indexes, states, results, posted, mapper, i0, s0, index, stores)
      requires |results| == i < |ops|
      modifies this
      ensures Valid() && Retains(i0, index) && Extends(s0, stores)
      ensures IndexRun(ops, out', failed', indexes', states', results', posted', mapper, i0, s0, index, stores)
      ensures |results'| == i + 1
    {
      ghost var i1, s1 := index, stores;
      var res, p := ResolveIndexOp(ops[i]);
      ExtendsTrans(s0, s1, stores);
      out', failed' := out, failed;
      if res.Success? {
        out' := out + [res.value];
      } else if ops[i].PutOp? {
        failed' := true;
      }
      IndexTraceStep(ops, indexes, states, results, posted, mapper, index, stores, res, p);
      IndexRunStep(ops, out, failed, indexes, states, results, posted, mapper, i0, s0, i1, s1, index, stores,
                   res, p, out', failed');
      indexes', states', results', posted' := indexes + [index], states + [stores], results + [res], posted + [p];
    }

    /** Republishes one operation of a batch seen on a backing store
        (src/index.ts:224-241): a put is filed under its logical key and goes
        out under it; a delete removes the record of its logical key and goes
        out under it, or is dropped when the reverse lookup gives none. */
    method ResolveStoreOp(op: Op<V>) returns (r: Result<Option<Op<V>>, Error>)
      requires Valid()
      modifies this
      ensures Valid()
      ensures StoreOpStep(op, old(index), old(stores), index, stores, r, reverse, mapper)
    {
      match op
      case PutOp(k, v) =>
        var logical := ReversePost(k, v);
        r := Success(Some(PutOp(logical, v)));
      case DelOp(k) =>
        var existing := ReverseDel(k);
        if existing.Some? {
          // The record is deleted a second time, and the key that second
          // deletion reports is the one that goes out.
          ghost var i1, s1 := index, stores;
          var again := ReverseDel(k);
          assert again == existing && again.value !in i1;
          r := Success(Some(DelOp(again.value)));
        } else {
          r := Success(None);
        }
      case OtherOp(kind) =>
        r := Failure(UnrecognizedOperation(kind));
    }

    /** One turn of the loop of `ResolveStoreBatch`: resolves the next
        operation, extends the run, and extends the output when the operation
        produced one. */
    method ResolveStoreNext(ops: seq<Op<V>>, i: nat, out: seq<Op<V>>, ghost indexes: seq<Index>,
                            ghost states: seq<Stores<V>>, ghost results: seq<Result<Option<Op<V>>, Error>>,
                            ghost i0: Index, ghost s0: Stores<V>)
      returns (out': seq<Op<V>>, ghost indexes': seq<Index>, ghost states': seq<Stores<V>>,
               ghost results': seq<Result<Option<Op<V>>, Error>>)
      requires Valid()
      requires StoreRun(ops, out, indexes, states, results, reverse, mapper, i0, s0, index, stores)
      requires |results| == i < |ops|
      modifies this
      ensures Valid()
      ensures StoreRun(ops, out', indexes', states', results', reverse, mapper, i0, s0, index, stores)
      ensures |results'| == i + 1
    {
      ghost var i1, s1 := index, stores;
      var res := ResolveStoreOp(ops[i]);
      out' := out;
      if res.Success? && res.value.Some? {
        out' := out + [res.value.value];
      }
      StoreTraceStep(ops, indexes, states, results, reverse, mapper, index, stores, res);
      StoreRunStep(ops, out, indexes, states, results, reverse, mapper, i0, s0, i1, s1, index, stores, res, out');
      indexes', states', results' := indexes + [index], states + [stores], results + [res];
    }

    /** Republishes a batch seen on a backing store (src/index.ts:221-244).
        Every operation is resolved, in order, as the run `indexes`, `states`,
        `results` records, and dropped deletes are left out; the batch fails
        with the first unrecognised operation if there is one. */
    method ResolveStoreBatch(ops: seq<Op<V>>)
      returns (r: Result<seq<Op<V>>, Error>, ghost indexes: seq<Index>, ghost states: seq<Stores<V>>,
               ghost results: seq<Result<Option<Op<V>>, Error>>)
      requires Valid()
      modifies this
      ensures Valid()
      ensures StoreTrace(ops, indexes, states, results, reverse, mapper) && |results| == |ops|
      ensures indexes[0] == old(index) && states[0] == old(stores)
      ensures indexes[|ops|] == index && states[|ops|] == stores
      ensures FirstUnrecognized(ops).Some? ==> r == Failure(UnrecognizedOperation(FirstUnrecognized(ops).value))
      ensures FirstUnrecognized(ops).None? ==>
        r == Success(Republished(results)) && StoreBatchShape(ops, r.value, reverse)
    {
      var out: seq<Op<V>> := [];
      indexes, states, results := [index], [stores], [];
      for i := 0 to |ops|
        invariant Valid()
        invariant StoreRun(ops, out, indexes, states, results, reverse, mapper, old(index), old(stores), index, stores)
        invariant |results| == i
      {
        out, indexes, states, results := ResolveStoreNext(ops, i, out, indexes, states, results, old(index), old(stores));
      }
      assert ops[..|ops|] == ops;
      var bad := FirstUnrecognized(ops);
      if bad.Some? {
        r := Failure(UnrecognizedOperation(bad.value));
      } else {
        r := Success(out);
      }
    }
  }
}

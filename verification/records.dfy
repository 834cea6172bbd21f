/**
 * Pointer records and backing-store contents (src/index.ts), as values.
 *
 * The pointer index maps each logical key to its pointer record: the ordered
 * list of (store label, physical key) pairs where copies of the value live.
 * Each backing store maps physical keys to values.  This module defines what
 * the engine's operations do to that state, as functions of it, and proves
 * the properties the engine relies on: how a read splits a record into found
 * values and pointers to repair, what a repair and a delete leave behind, and
 * why a write followed by a read gives the written value back.
 */
module Records {
  import opened Outcomes
  import opened Dedup

  /** Where one copy of a value lives (src/index.ts:6-9). */
  datatype Pointer = Pointer(store: string, key: string)

  /** The failures the engine reports. `TypeError` is what the collision
      branch of the source raises as written (see `GetOutcomeAsWritten`). */
  datatype Error = NotFound | TypeError | UnrecognizedOperation(kind: string)

  /** The pointer index: logical key to pointer record. */
  type Index = map<string, seq<Pointer>>

  /** The backing stores: store label to that store's contents. */
  type Stores<V> = map<string, map<string, V>>

  /** Every pointer names a configured store. */
  predicate Known<V>(ptrs: seq<Pointer>, stores: Stores<V>)
  {
    forall i :: 0 <= i < |ptrs| ==> ptrs[i].store in stores
  }

  /** The pointer's store holds the pointer's physical key. */
  predicate Present<V>(p: Pointer, stores: Stores<V>)
  {
    p.store in stores && p.key in stores[p.store]
  }

  /** The values a read finds, in record order: one per pointer whose store
      holds its key (src/index.ts:77-91). */
  function Found<V>(ptrs: seq<Pointer>, stores: Stores<V>): (vs: seq<V>)
    requires Known(ptrs, stores)
    ensures |vs| <= |ptrs|
    ensures forall v :: v in vs ==> exists p :: p in ptrs && Present(p, stores) && stores[p.store][p.key] == v
  {
    if ptrs == [] then []
    else
      var p := ptrs[|ptrs| - 1];
      var vs := Found(ptrs[..|ptrs| - 1], stores);
      assert forall q :: q in ptrs[..|ptrs| - 1] ==> q in ptrs;
      if p.key in stores[p.store] then
        assert Present(p, stores) && p in ptrs;
        vs + [stores[p.store][p.key]]
      else vs
  }

  /** The pointers a read queues for repair, in record order: those whose store
      does not hold their key (src/index.ts:81-85). */
  function Missing<V>(ptrs: seq<Pointer>, stores: Stores<V>): (ms: seq<Pointer>)
    requires Known(ptrs, stores)
    ensures Known(ms, stores)
    ensures |ms| <= |ptrs|
    ensures forall q :: q in ms ==> q in ptrs && !Present(q, stores)
  {
    if ptrs == [] then []
    else
      var p := ptrs[|ptrs| - 1];
      var ms := Missing(ptrs[..|ptrs| - 1], stores);
      assert forall q :: q in ptrs[..|ptrs| - 1] ==> q in ptrs;
      if p.key in stores[p.store] then ms else ms + [p]
  }

  /** A read splits the record: every pointer is either found, and its value
      is among the found values, or queued for repair; nothing else is. */
  lemma {:induction false} FoundMissingSplit<V>(ptrs: seq<Pointer>, stores: Stores<V>)
    requires Known(ptrs, stores)
    ensures |Found(ptrs, stores)| + |Missing(ptrs, stores)| == |ptrs|
    ensures forall p :: p in Missing(ptrs, stores) <==> p in ptrs && !Present(p, stores)
    ensures forall p :: p in ptrs && Present(p, stores) ==> stores[p.store][p.key] in Found(ptrs, stores)
  {
    if ptrs != [] {
      var n := |ptrs| - 1;
      FoundMissingSplit(ptrs[..n], stores);
      assert ptrs == ptrs[..n] + [ptrs[n]];
    }
  }

  /** The repair queue holds exactly the pointers whose store lacks their
      key. */
  lemma MissingExactly<V>(ptrs: seq<Pointer>, stores: Stores<V>)
    requires Known(ptrs, stores)
    ensures forall p :: p in Missing(ptrs, stores) <==> p in ptrs && !Present(p, stores)
  {
    FoundMissingSplit(ptrs, stores);
  }

  /** A read finds nothing exactly when no pointer's store holds its key: the
      case that fails with NotFound although the index has a record
      (src/index.ts:93-94). */
  lemma NothingFound<V>(ptrs: seq<Pointer>, stores: Stores<V>)
    requires Known(ptrs, stores)
    ensures Found(ptrs, stores) == [] <==> forall i :: 0 <= i < |ptrs| ==> !Present(ptrs[i], stores)
  {
    FoundMissingSplit(ptrs, stores);
    if Found(ptrs, stores) == [] {
      forall i | 0 <= i < |ptrs| ensures !Present(ptrs[i], stores) {
        assert ptrs[i] in ptrs;
      }
    } else {
      var v := Found(ptrs, stores)[0];
      assert v in Found(ptrs, stores);
      var p :| p in ptrs && Present(p, stores) && stores[p.store][p.key] == v;
    }
  }

  /** Every pointer of the record finds `v`. */
  ghost predicate Holds<V>(ptrs: seq<Pointer>, stores: Stores<V>, v: V)
  {
    forall i :: 0 <= i < |ptrs| ==> Present(ptrs[i], stores) && stores[ptrs[i].store][ptrs[i].key] == v
  }

  /** The outcome of a read, given the values it found
      (src/index.ts:93-107): NotFound when it found none, otherwise the
      majority value as `unique` orders them. */
  function GetOutcome<V(==,!new)>(found: seq<V>): (r: Result<V, Error>)
    ensures r.Success? <==> found != []
    ensures r.Failure? ==> r.error == NotFound
    ensures r.Success? ==>
      r.value in found && forall v :: v in found ==> CountOf(found, Id, r.value) >= CountOf(found, Id, v)
  {
    if found == [] then Failure(NotFound)
    else
      UniqueMajority(found, Id);
      UniqueKeepsFirst(found, Id);
      Success(UniqueOf(found, Id)[0])
  }

  /** The outcome of a read as src/index.ts:96-107 is written: the collision
      branch calls `post` detached from its object, so as soon as the replicas
      disagree the read fails with a TypeError instead of returning. */
  function GetOutcomeAsWritten<V(==,!new)>(found: seq<V>): (r: Result<V, Error>)
    ensures r.Success? <==> found != [] && forall i :: 0 <= i < |found| ==> found[i] == found[0]
  {
    if found == [] then Failure(NotFound)
    else
      OneDistinctValue(found);
      if |UniqueOf(found, Id)| > 1 then Failure(TypeError)
      else Success(UniqueOf(found, Id)[0])
  }

  /** `unique` returns a single value exactly when all values are equal. */
  lemma OneDistinctValue<V(!new)>(found: seq<V>)
    requires found != []
    ensures |UniqueOf(found, Id)| >= 1
    ensures |UniqueOf(found, Id)| == 1 <==> forall i :: 0 <= i < |found| ==> found[i] == found[0]
  {
    UniqueCoversKeys(found, Id);
    if forall i :: 0 <= i < |found| ==> found[i] == found[0] {
      KeysOfAgreeing(found);
    } else {
      var i :| 0 <= i < |found| && found[i] != found[0];
      KeysOfDisagreeing(found, i);
    }
  }

  /** Agreeing values have a single key. */
  lemma KeysOfAgreeing<V(!new)>(found: seq<V>)
    requires found != [] && forall i :: 0 <= i < |found| ==> found[i] == found[0]
    ensures KeysOf(found, Id) == {found[0]}
  {
    KeysOfMembers(found, Id);
    assert found[0] in KeysOf(found, Id);
  }

  /** Two differing values give at least two keys. */
  lemma KeysOfDisagreeing<V(!new)>(found: seq<V>, i: nat)
    requires i < |found| && found[i] != found[0]
    ensures |KeysOf(found, Id)| >= 2
  {
    KeysOfMembers(found, Id);
    assert found[0] in KeysOf(found, Id) && found[i] in KeysOf(found, Id);
    assert |{found[0], found[i]}| == 2;
    SubsetSize({found[0], found[i]}, KeysOf(found, Id));
  }

  /** A subset is no larger than its superset. */
  lemma SubsetSize<T>(a: set<T>, b: set<T>)
    requires a <= b
    ensures |a| <= |b|
  {
    assert b == a + (b - a);
  }

  /** Whenever two replicas disagree, the read as written fails, while the
      intended read returns the majority value. */
  lemma CollisionDiverges<V(!new)>(found: seq<V>, i: nat, j: nat)
    requires i < |found| && j < |found| && found[i] != found[j]
    ensures GetOutcomeAsWritten(found) == Failure(TypeError)
    ensures GetOutcome(found).Success?
  {
  }

  /** If every found value is `v` and at least one is found, the read returns
      `v` and sees no collision, so it posts nothing. */
  lemma AgreeingReplicas<V(!new)>(ptrs: seq<Pointer>, stores: Stores<V>, v: V)
    requires Known(ptrs, stores)
    requires forall i :: 0 <= i < |ptrs| && Present(ptrs[i], stores) ==> stores[ptrs[i].store][ptrs[i].key] == v
    requires exists i :: 0 <= i < |ptrs| && Present(ptrs[i], stores)
    ensures UniqueOf(Found(ptrs, stores), Id) == [v]
    ensures GetOutcome(Found(ptrs, stores)) == Success(v)
  {
    var found := Found(ptrs, stores);
    FoundMissingSplit(ptrs, stores);
    NothingFound(ptrs, stores);
    forall k | 0 <= k < |found| ensures Id(found[k]) == v {
      assert found[k] in found;
    }
    UniqueSingleKey(found, Id);
  }

  /** Writes `v` under each pointer's key, in its store: the repair step of a
      read (src/index.ts:103-105). */
  function Repair<V>(stores: Stores<V>, ptrs: seq<Pointer>, v: V): (r: Stores<V>)
    requires Known(ptrs, stores)
    ensures r.Keys == stores.Keys
    ensures forall l, k :: l in stores ==> (k in r[l] <==> k in stores[l] || Pointer(l, k) in ptrs)
    ensures forall l, k :: l in stores && k in r[l] ==>
      r[l][k] == if Pointer(l, k) in ptrs then v else stores[l][k]
  {
    if ptrs == [] then stores
    else
      var p := ptrs[|ptrs| - 1];
      var s := Repair(stores, ptrs[..|ptrs| - 1], v);
      assert ptrs == ptrs[..|ptrs| - 1] + [p];
      assert forall q :: q in ptrs <==> q in ptrs[..|ptrs| - 1] || q == p;
      s[p.store := s[p.store][p.key := v]]
  }

  /** Repairing one more pointer extends the repair of a prefix. */
  lemma RepairStep<V>(stores: Stores<V>, ptrs: seq<Pointer>, v: V, i: nat)
    requires Known(ptrs, stores) && i < |ptrs|
    ensures var s := Repair(stores, ptrs[..i], v); var p := ptrs[i];
      Repair(stores, ptrs[..i + 1], v) == s[p.store := s[p.store][p.key := v]]
  {
    assert ptrs[..i + 1][..i] == ptrs[..i];
  }

  /** After a read repairs the pointers it found missing, no pointer of the
      record is missing; if every found copy was `v` and `v` is what the
      repair writes, every pointer now holds `v`. */
  lemma RepairCompletes<V>(ptrs: seq<Pointer>, stores: Stores<V>, v: V)
    requires Known(ptrs, stores)
    ensures Missing(ptrs, Repair(stores, Missing(ptrs, stores), v)) == []
    ensures (forall i :: 0 <= i < |ptrs| && Present(ptrs[i], stores) ==> stores[ptrs[i].store][ptrs[i].key] == v)
      ==> Holds(ptrs, Repair(stores, Missing(ptrs, stores), v), v)
  {
    var ms := Missing(ptrs, stores);
    FoundMissingSplit(ptrs, stores);
    var r := Repair(stores, ms, v);
    forall i | 0 <= i < |ptrs| ensures Present(ptrs[i], r) {
      assert ptrs[i] in ptrs;
    }
    NothingMissing(ptrs, r);
  }

  /** Nothing is missing exactly when every pointer's store holds its key. */
  lemma NothingMissing<V>(ptrs: seq<Pointer>, stores: Stores<V>)
    requires Known(ptrs, stores)
    ensures Missing(ptrs, stores) == [] <==> forall i :: 0 <= i < |ptrs| ==> Present(ptrs[i], stores)
  {
    FoundMissingSplit(ptrs, stores);
    if Missing(ptrs, stores) != [] {
      assert Missing(ptrs, stores)[0] in Missing(ptrs, stores);
    } else {
      forall i | 0 <= i < |ptrs| ensures Present(ptrs[i], stores) {
        assert ptrs[i] in ptrs;
      }
    }
  }

  /** A repair leaves alone every record none of whose pointers it targets. */
  lemma RepairKeepsOthers<V>(stores: Stores<V>, ptrs: seq<Pointer>, v: V, rec: seq<Pointer>, w: V)
    requires Known(ptrs, stores)
    requires Holds(rec, stores, w)
    requires forall q :: q in rec ==> q !in ptrs
    ensures Holds(rec, Repair(stores, ptrs, v), w)
  {
    forall i | 0 <= i < |rec|
      ensures Present(rec[i], Repair(stores, ptrs, v)) && Repair(stores, ptrs, v)[rec[i].store][rec[i].key] == w
    {
      assert rec[i] in rec;
    }
  }

  /** Deletes each pointer's key from its store (src/index.ts:124-127). */
  function RemovePointers<V>(stores: Stores<V>, ptrs: seq<Pointer>): (r: Stores<V>)
    requires Known(ptrs, stores)
    ensures r.Keys == stores.Keys
    ensures forall l, k :: l in stores ==> (k in r[l] <==> k in stores[l] && Pointer(l, k) !in ptrs)
    ensures forall l, k :: l in stores && k in r[l] ==> r[l][k] == stores[l][k]
  {
    if ptrs == [] then stores
    else
      var p := ptrs[|ptrs| - 1];
      var s := RemovePointers(stores, ptrs[..|ptrs| - 1]);
      assert ptrs == ptrs[..|ptrs| - 1] + [p];
      assert forall q :: q in ptrs <==> q in ptrs[..|ptrs| - 1] || q == p;
      s[p.store := s[p.store] - {p.key}]
  }

  /** Removing one more pointer's copy extends the removal of a prefix. */
  lemma RemoveStep<V>(stores: Stores<V>, ptrs: seq<Pointer>, i: nat)
    requires Known(ptrs, stores) && i < |ptrs|
    ensures var s := RemovePointers(stores, ptrs[..i]); var p := ptrs[i];
      RemovePointers(stores, ptrs[..i + 1]) == s[p.store := s[p.store] - {p.key}]
  {
    assert ptrs[..i + 1][..i] == ptrs[..i];
  }

  /** Deleting the same pointers twice leaves what deleting them once does. */
  lemma RemoveIdempotent<V>(stores: Stores<V>, ptrs: seq<Pointer>)
    requires Known(ptrs, stores)
    ensures RemovePointers(RemovePointers(stores, ptrs), ptrs) == RemovePointers(stores, ptrs)
  {
    var once := RemovePointers(stores, ptrs);
    var twice := RemovePointers(once, ptrs);
    forall l | l in once ensures twice[l] == once[l] {
      assert twice[l].Keys == once[l].Keys;
    }
  }

  /** The physical keys of store `l` that some record of the index names. */
  function PointedKeys(index: Index, l: string): set<string>
  {
    set k, i | k in index && 0 <= i < |index[k]| && index[k][i].store == l :: index[k][i].key
  }

  /** Every record of the index names only configured stores. */
  ghost predicate IndexKnown(index: Index, labels: set<string>)
  {
    forall k, i :: k in index && 0 <= i < |index[k]| ==> index[k][i].store in labels
  }

  /** Adding or keeping records never un-names a key. */
  lemma PointedKeysGrow(i0: Index, i1: Index)
    requires forall k :: k in i0 ==> k in i1 && i1[k] == i0[k]
    ensures forall l :: PointedKeys(i0, l) <= PointedKeys(i1, l)
  {
    forall l, pk | pk in PointedKeys(i0, l) ensures pk in PointedKeys(i1, l) {
      var k, i :| k in i0 && 0 <= i < |i0[k]| && i0[k][i].store == l && i0[k][i].key == pk;
      assert k in i1 && i1[k][i] == i0[k][i];
    }
  }

  /** The record's stores are the route, label by label, in order. */
  ghost predicate Routed(ptrs: seq<Pointer>, route: seq<string>)
  {
    |ptrs| == |route| && forall i :: 0 <= i < |ptrs| ==> ptrs[i].store == route[i]
  }

  /** One more pointer into the next store of the route keeps the record in
      route order. */
  lemma RoutedStep(ptrs: seq<Pointer>, route: seq<string>, i: nat, p: Pointer)
    requires i < |route| && Routed(ptrs, route[..i]) && p.store == route[i]
    ensures Routed(ptrs + [p], route[..i + 1])
  {
  }

  /** `s1` keeps every entry of `s0`, and has the same stores. */
  ghost predicate Extends<V>(s0: Stores<V>, s1: Stores<V>)
  {
    s1.Keys == s0.Keys &&
    forall l, k :: l in s0 && k in s0[l] ==> k in s1[l] && s1[l][k] == s0[l][k]
  }

  /** Every record of `i0` is still in `i1`, unchanged. */
  ghost predicate Retains(i0: Index, i1: Index)
  {
    forall k :: k in i0 ==> k in i1 && i1[k] == i0[k]
  }

  /** No pointer names a physical key that some record of the index names. */
  ghost predicate Unnamed(ptrs: seq<Pointer>, index: Index)
  {
    forall i :: 0 <= i < |ptrs| ==> ptrs[i].key !in PointedKeys(index, ptrs[i].store)
  }

  /** The pointers are pairwise different and name physical keys that were
      new to their store and that no record of the index named. */
  ghost predicate FreshFor<V>(ptrs: seq<Pointer>, index: Index, stores: Stores<V>)
  {
    (forall i :: 0 <= i < |ptrs| ==> ptrs[i].store in stores && ptrs[i].key !in stores[ptrs[i].store]) &&
    Unnamed(ptrs, index) &&
    (forall i, j :: 0 <= i < j < |ptrs| ==> ptrs[i] != ptrs[j])
  }

  /** Every entry of `s1` that `s0` lacks is named by a pointer of `ptrs`. */
  ghost predicate OnlyAdds<V>(s0: Stores<V>, s1: Stores<V>, ptrs: seq<Pointer>)
  {
    forall l, k :: l in s1 && k in s1[l] && (l !in s0 || k !in s0[l]) ==> Pointer(l, k) in ptrs
  }

  /** Keeping every entry is transitive. */
  lemma ExtendsTrans<V>(s0: Stores<V>, s1: Stores<V>, s2: Stores<V>)
    requires Extends(s0, s1) && Extends(s1, s2)
    ensures Extends(s0, s2)
  {
  }

  /** One step of a write's fan-out: storing `val` in store `l` under a key `k`
      that store lacks and no record names keeps the fan-out's invariants. */
  lemma FanOutStep<V>(i0: Index, s0: Stores<V>, s: Stores<V>, ptrs: seq<Pointer>, val: V, l: string, k: string)
    requires Holds(ptrs, s, val) && FreshFor(ptrs, i0, s0) && Extends(s0, s) && OnlyAdds(s0, s, ptrs)
    requires l in s && k !in s[l] && k !in PointedKeys(i0, l)
    ensures var s' := s[l := s[l][k := val]];
      var ptrs' := ptrs + [Pointer(l, k)];
      Holds(ptrs', s', val) && FreshFor(ptrs', i0, s0) && Extends(s0, s') && OnlyAdds(s0, s', ptrs')
  {
    var s' := s[l := s[l][k := val]];
    var ptrs' := ptrs + [Pointer(l, k)];
    forall i | 0 <= i < |ptrs| ensures ptrs[i] != Pointer(l, k) {
      assert Present(ptrs[i], s);
    }
    assert forall i :: 0 <= i < |ptrs| ==> ptrs'[i] == ptrs[i];
  }

  /** The state (i1, s1) is what a write of `val` under `key`, routed to
      `route`, makes of (i0, s0) (src/index.ts:110-118): one fresh copy of
      `val` per label of the route, in route order, recorded under `key`;
      the other records and every earlier entry of every store untouched;
      nothing else stored. */
  ghost predicate PutDone<V>(i0: Index, s0: Stores<V>, i1: Index, s1: Stores<V>,
                             key: string, val: V, route: seq<string>)
    ensures PutDone(i0, s0, i1, s1, key, val, route) ==>
      i1.Keys == i0.Keys + {key} && |i1[key]| == |route|
  {
    key in i1 && i1 == i0[key := i1[key]] &&
    Routed(i1[key], route) && Holds(i1[key], s1, val) && FreshFor(i1[key], i0, s0) &&
    Extends(s0, s1) && OnlyAdds(s0, s1, i1[key])
  }

  /** The records under `keys` are new to `i0`, pairwise different, and hold
      `vs` in order, each routed by `mapper` to physical keys that were new
      to their store in `s0` and that no record of `i0` named; the records of
      `i0` are unchanged and no other record is added. */
  ghost predicate PostedAs<V(!new)>(i0: Index, s0: Stores<V>, i1: Index, s1: Stores<V>, keys: seq<string>, vs: seq<V>,
                                    mapper: V -> seq<string>)
  {
    |keys| == |vs| &&
    (forall k :: k in i0 ==> k in i1 && i1[k] == i0[k]) &&
    i1.Keys == i0.Keys + (set k | k in keys) &&
    (forall m :: 0 <= m < |keys| ==>
      keys[m] !in i0 && keys[m] in i1 &&
      Routed(i1[keys[m]], mapper(vs[m])) && Holds(i1[keys[m]], s1, vs[m]) && FreshFor(i1[keys[m]], i0, s0)) &&
    (forall m, n :: 0 <= m < n < |keys| ==> keys[m] != keys[n])
  }

  /** The pointers of the records under `keys`, record after record. */
  function PostedPointers(index: Index, keys: seq<string>): seq<Pointer>
    requires forall m :: 0 <= m < |keys| ==> keys[m] in index
  {
    if keys == [] then []
    else PostedPointers(index, keys[..|keys| - 1]) + index[keys[|keys| - 1]]
  }

  /** The pointers of records that did not change are the same. */
  lemma {:induction false} PostedPointersSame(i: Index, i': Index, keys: seq<string>)
    requires forall m :: 0 <= m < |keys| ==> keys[m] in i && keys[m] in i' && i'[keys[m]] == i[keys[m]]
    ensures PostedPointers(i', keys) == PostedPointers(i, keys)
  {
    if keys != [] {
      PostedPointersSame(i, i', keys[..|keys| - 1]);
    }
  }

  /** One more posted record adds its pointers at the end. */
  lemma PostedPointersGrow(i: Index, i': Index, keys: seq<string>, k: string)
    requires forall m :: 0 <= m < |keys| ==> keys[m] in i && keys[m] in i' && i'[keys[m]] == i[keys[m]]
    requires k in i'
    ensures PostedPointers(i', keys + [k]) == PostedPointers(i, keys) + i'[k]
  {
    assert (keys + [k])[..|keys|] == keys;
    PostedPointersSame(i, i', keys);
  }

  /** Additions compose: what `s1` adds to `s0` is named by `P`, what `s2`
      adds to `s1` by `Q`, so what `s2` adds to `s0` is named by `P + Q`. */
  lemma OnlyAddsTrans<V>(s0: Stores<V>, s1: Stores<V>, s2: Stores<V>, P: seq<Pointer>, Q: seq<Pointer>)
    requires OnlyAdds(s0, s1, P) && OnlyAdds(s1, s2, Q)
    ensures OnlyAdds(s0, s2, P + Q)
  {
    forall l, k | l in s2 && k in s2[l] && (l !in s0 || k !in s0[l]) ensures Pointer(l, k) in P + Q {
      if l in s1 && k in s1[l] {
        assert Pointer(l, k) in P;
      } else {
        assert Pointer(l, k) in Q;
      }
    }
  }

  /** A repair adds entries only under the pointers it repairs. */
  lemma RepairOnlyAdds<V>(s0: Stores<V>, s1: Stores<V>, ptrs: seq<Pointer>, extra: seq<Pointer>, v: V)
    requires Known(ptrs, s1) && OnlyAdds(s0, s1, extra)
    ensures OnlyAdds(s0, Repair(s1, ptrs, v), ptrs + extra)
  {
    var s2 := Repair(s1, ptrs, v);
    forall l, k | l in s2 && k in s2[l] && (l !in s0 || k !in s0[l]) ensures Pointer(l, k) in ptrs + extra {
      if Pointer(l, k) !in ptrs {
        assert k in s1[l];
      }
    }
  }

  /** Pointers that were fresh for a later state were fresh for an earlier
      one that it extends and whose records it retains. */
  lemma FreshForEarlier<V>(ptrs: seq<Pointer>, i0: Index, s0: Stores<V>, i: Index, s: Stores<V>)
    requires FreshFor(ptrs, i, s) && Extends(s0, s) && Retains(i0, i)
    ensures FreshFor(ptrs, i0, s0)
  {
    PointedKeysGrow(i0, i);
  }

  /** Posting one more value under a key new to the index extends what has
      been posted so far. */
  lemma PostStep<V(!new)>(i0: Index, s0: Stores<V>, i: Index, s: Stores<V>, keys: seq<string>, vs: seq<V>,
                          mapper: V -> seq<string>, i': Index, s': Stores<V>, k: string, v: V)
    requires PostedAs(i0, s0, i, s, keys, vs, mapper) && Extends(s0, s)
    requires k !in i && PutDone(i, s, i', s', k, v, mapper(v))
    ensures PostedAs(i0, s0, i', s', keys + [k], vs + [v], mapper)
  {
    FreshForEarlier(i'[k], i0, s0, i, s);
    var keys', vs' := keys + [k], vs + [v];
    forall m | 0 <= m < |keys'|
      ensures keys'[m] !in i0 && keys'[m] in i' &&
        Routed(i'[keys'[m]], mapper(vs'[m])) && Holds(i'[keys'[m]], s', vs'[m]) && FreshFor(i'[keys'[m]], i0, s0)
    {
      if m < |keys| {
        assert keys'[m] == keys[m] && vs'[m] == vs[m];
        assert keys[m] in i && keys[m] != k;
        assert i'[keys[m]] == i[keys[m]];
        var rec := i[keys[m]];
        forall q | 0 <= q < |rec| ensures Present(rec[q], s') && s'[rec[q].store][rec[q].key] == vs[m] {
          var p := rec[q];
          assert Present(p, s) && s[p.store][p.key] == vs[m];
        }
      }
    }
    assert i'.Keys == i.Keys + {k};
    assert (set x | x in keys') == (set x | x in keys) + {k};
  }

  /** Every pointer a read repairs comes from the record it read, so its key
      is one the index already names, and its store lacked that key. */
  lemma MissingIsPointed<V>(i0: Index, s0: Stores<V>, key: string)
    requires key in i0 && Known(i0[key], s0)
    ensures forall q :: q in Missing(i0[key], s0) ==> q.key in PointedKeys(i0, q.store) && !Present(q, s0)
  {
    var ptrs := i0[key];
    MissingExactly(ptrs, s0);
    forall q | q in Missing(ptrs, s0) ensures q.key in PointedKeys(i0, q.store) {
      var i :| 0 <= i < |ptrs| && ptrs[i] == q;
    }
  }

  /** The repair at the end of a read (src/index.ts:103-105) disturbs
      neither the copies that were there before the read nor the records the
      read posted, and leaves `v` under every pointer it repairs. */
  lemma RepairAfterPosts<V(!new)>(i0: Index, s0: Stores<V>, i1: Index, s1: Stores<V>, key: string,
                                  posted: seq<string>, vs: seq<V>, mapper: V -> seq<string>, v: V)
    requires key in i0 && Known(i0[key], s0)
    requires PostedAs(i0, s0, i1, s1, posted, vs, mapper) && Extends(s0, s1)
    ensures var s2 := Repair(s1, Missing(i0[key], s0), v);
      PostedAs(i0, s0, i1, s2, posted, vs, mapper) && Holds(Missing(i0[key], s0), s2, v) && Extends(s0, s2)
  {
    var recreate := Missing(i0[key], s0);
    MissingIsPointed(i0, s0, key);
    var s2 := Repair(s1, recreate, v);
    forall m | 0 <= m < |posted| ensures Holds(i1[posted[m]], s2, vs[m]) {
      var rec := i1[posted[m]];
      assert Unnamed(rec, i0);
      forall q | q in rec ensures q !in recreate {
        var n :| 0 <= n < |rec| && rec[n] == q;
      }
      RepairKeepsOthers(s1, recreate, v, rec, vs[m]);
    }
    assert Extends(s0, s2) by {
      forall l, k | l in s0 && k in s0[l] ensures k in s2[l] && s2[l][k] == s0[l][k] {
        assert Present(Pointer(l, k), s0);
      }
    }
    assert Holds(recreate, s2, v) by {
      forall i | 0 <= i < |recreate| ensures Present(recreate[i], s2) && s2[recreate[i].store][recreate[i].key] == v {
        assert recreate[i] in recreate;
      }
    }
  }

  /** The state (i1, s1) is what a successful read of `key` returning `v`
      makes of (i0, s0) (src/index.ts:74-108): `v` is the majority value of
      the copies found; the outvoted values are posted, in vote order, under
      the new keys `posted`; `v` is written under every pointer whose copy
      was missing; every earlier entry is kept; and the stores gain entries
      only under those pointers and the posted records' pointers. */
  ghost predicate ReadDone<V(!new)>(i0: Index, s0: Stores<V>, i1: Index, s1: Stores<V>, key: string, v: V,
                                    posted: seq<string>, mapper: V -> seq<string>)
  {
    key in i0 && Known(i0[key], s0) &&
    var ptrs := i0[key];
    var u := UniqueOf(Found(ptrs, s0), Id);
    u != [] && v == u[0] &&
    PostedAs(i0, s0, i1, s1, posted, u[1..], mapper) &&
    Holds(Missing(ptrs, s0), s1, v) && Extends(s0, s1) &&
    OnlyAdds(s0, s1, Missing(ptrs, s0) + PostedPointers(i1, posted))
  }

  /** A read leaves every record that was there before it in place, with
      its copies. */
  lemma ReadKeepsRecord<V(!new)>(i0: Index, s0: Stores<V>, i1: Index, s1: Stores<V>, posted: seq<string>,
                                 vs: seq<V>, mapper: V -> seq<string>, key: string, v: V)
    requires PostedAs(i0, s0, i1, s1, posted, vs, mapper) && Extends(s0, s1)
    requires key in i0 && Holds(i0[key], s0, v)
    ensures key in i1 && i1[key] == i0[key] && Holds(i1[key], s1, v)
  {
    var ptrs := i0[key];
    forall i | 0 <= i < |ptrs| ensures Present(ptrs[i], s1) && s1[ptrs[i].store][ptrs[i].key] == v {
      assert Present(ptrs[i], s0);
    }
  }

  /** A record whose copies are all there and all equal `v` reads as `v`
      (src/index.ts:93-107). */
  lemma AgreeingOutcome<V(!new)>(ptrs: seq<Pointer>, s0: Stores<V>, v: V)
    requires ptrs != [] && Holds(ptrs, s0, v)
    ensures Found(ptrs, s0) != [] && forall i :: 0 <= i < |Found(ptrs, s0)| ==> Found(ptrs, s0)[i] == v
    ensures Missing(ptrs, s0) == []
    ensures GetOutcome(Found(ptrs, s0)) == Success(v)
  {
    var found := Found(ptrs, s0);
    FoundMissingSplit(ptrs, s0);
    assert forall q :: q in ptrs ==> Present(q, s0);
    assert forall i :: 0 <= i < |found| ==> found[i] in found;
  }

  /** A read of a record whose copies are all there and agree posts nothing,
      leaves the index as it was and adds no entry to any store
      (src/index.ts:93-107). */
  lemma AgreeingRead<V(!new)>(i0: Index, s0: Stores<V>, i1: Index, s1: Stores<V>, key: string, v: V, r: V,
                              posted: seq<string>, mapper: V -> seq<string>)
    requires key in i0 && i0[key] != [] && Holds(i0[key], s0, v)
    requires ReadDone(i0, s0, i1, s1, key, r, posted, mapper)
    ensures r == v && posted == [] && i1 == i0 && OnlyAdds(s0, s1, [])
  {
    var found := Found(i0[key], s0);
    AgreeingOutcome(i0[key], s0, v);
    OneDistinctValue(found);
    assert i1.Keys == i0.Keys;
  }

  /** When a whole backing store loses its contents, a record with a copy in
      some other store still reads as its value, and the pointers into the
      lost store are the ones a read repairs. */
  lemma StoreLoss<V(!new)>(ptrs: seq<Pointer>, stores: Stores<V>, v: V, l: string)
    requires Holds(ptrs, stores, v) && l in stores
    requires exists i :: 0 <= i < |ptrs| && ptrs[i].store != l
    ensures Known(ptrs, stores[l := map[]])
    ensures GetOutcome(Found(ptrs, stores[l := map[]])) == Success(v)
    ensures forall p :: p in Missing(ptrs, stores[l := map[]]) <==> p in ptrs && p.store == l
  {
    var lost := stores[l := map[]];
    assert Known(ptrs, lost);
    var i :| 0 <= i < |ptrs| && ptrs[i].store != l;
    assert Present(ptrs[i], lost);
    AgreeingReplicas(ptrs, lost, v);
    LostStoreMissing(ptrs, stores, l);
  }

  /** Once store `l` is emptied, the pointers a read finds missing are
      exactly the record's pointers into `l`, when all were present before. */
  lemma LostStoreMissing<V>(ptrs: seq<Pointer>, stores: Stores<V>, l: string)
    requires forall i :: 0 <= i < |ptrs| ==> Present(ptrs[i], stores)
    requires l in stores
    ensures Known(ptrs, stores[l := map[]])
    ensures forall p :: p in Missing(ptrs, stores[l := map[]]) <==> p in ptrs && p.store == l
  {
    var lost := stores[l := map[]];
    assert Known(ptrs, lost);
    MissingExactly(ptrs, lost);
    forall p | p in ptrs ensures Present(p, lost) <==> p.store != l {
      var j :| 0 <= j < |ptrs| && ptrs[j] == p;
      assert Present(ptrs[j], stores);
    }
  }

  /** Round trip: right after a write of `val` with a non-empty route, a read of
      the key finds only `val`, nothing to repair and no collision, and returns
      `val` (src/index.ts:74-118). */
  lemma RoundTrip<V(!new)>(i0: Index, s0: Stores<V>, i1: Index, s1: Stores<V>,
                                key: string, val: V, route: seq<string>)
    requires PutDone(i0, s0, i1, s1, key, val, route)
    requires route != []
    ensures key in i1 && Known(i1[key], s1)
    ensures Missing(i1[key], s1) == []
    ensures UniqueOf(Found(i1[key], s1), Id) == [val]
    ensures GetOutcome(Found(i1[key], s1)) == Success(val)
  {
    var ptrs := i1[key];
    assert Present(ptrs[0], s1);
    NothingMissing(ptrs, s1);
    AgreeingReplicas(ptrs, s1, val);
  }

  /** Self-repair: if a read left `s1` with every earlier entry of `s0` and
      with `v` under every pointer it found missing in `s0`, then every pointer
      of the record now finds a value: its old one if it had one, else `v`
      (src/index.ts:79-85, 103-105). */
  lemma ReadRestores<V>(ptrs: seq<Pointer>, s0: Stores<V>, s1: Stores<V>, v: V)
    requires Known(ptrs, s0)
    requires Extends(s0, s1)
    requires Holds(Missing(ptrs, s0), s1, v)
    ensures forall i :: 0 <= i < |ptrs| ==>
      Present(ptrs[i], s1) &&
      s1[ptrs[i].store][ptrs[i].key] == if Present(ptrs[i], s0) then s0[ptrs[i].store][ptrs[i].key] else v
  {
    var ms := Missing(ptrs, s0);
    forall i | 0 <= i < |ptrs|
      ensures Present(ptrs[i], s1) &&
        s1[ptrs[i].store][ptrs[i].key] == if Present(ptrs[i], s0) then s0[ptrs[i].store][ptrs[i].key] else v
    {
      var p := ptrs[i];
      if Present(p, s0) {
        assert p.store in s0 && p.key in s0[p.store];
      } else {
        MissingHas(ptrs, s0, i);
        var j :| 0 <= j < |ms| && ms[j] == p;
        assert Present(ms[j], s1) && s1[ms[j].store][ms[j].key] == v;
      }
    }
  }

  /** A pointer whose store lacks its key is among those a read repairs. */
  lemma MissingHas<V>(ptrs: seq<Pointer>, stores: Stores<V>, i: nat)
    requires Known(ptrs, stores) && i < |ptrs| && !Present(ptrs[i], stores)
    ensures ptrs[i] in Missing(ptrs, stores)
  {
    var n := |ptrs| - 1;
    if i < n {
      assert ptrs[..n][i] == ptrs[i];
      MissingHas(ptrs[..n], stores, i);
    }
  }
}

/**
 * A client session over the four-store setup of the repository's test suite
 * (src/index.test.ts:6-43): the contracts of the engine compose into the
 * guarantees a caller relies on.
 */
module Scenario {
  import opened Outcomes
  import opened Records
  import opened Multiplexer
  import opened Routing

  /** The session of `ReadBackAndRepair`, with the value "hello123", which
      is copied to stores 1, 2 and 3. */
  method SelfRepair()
  {
    var v := "hello123";
    RoutesHello123(v);
    ReadBackAndRepair(v);
  }

  /** A value written is read back unchanged; after one backing store loses
      its copy, a read still returns the value and writes the copy back. */
  method ReadBackAndRepair(v: string)
    requires Mapper(v) == ["1", "2", "3"]
  {
    var names := ["0", "1", "2", "3"];
    assert (set l | l in names) == Labels;
    MapperRoutable();
    var m := new LevelMultiplexer<string>(names, Mapper, IdentityReverse);
    ghost var ptrs := WriteK1(m, v);
    ReadAgreeing(m, ptrs, v);
    RepairLostCopy(m, ptrs, v);
  }

  /** Writing `v` under "k1" files three copies of it, the first in store "1"
      and the second in store "2". */
  method WriteK1(m: LevelMultiplexer<string>, v: string) returns (ghost ptrs: seq<Pointer>)
    requires m.Valid() && m.mapper == Mapper && Mapper(v) == ["1", "2", "3"]
    modifies m
    ensures m.Valid() && "k1" in m.index && m.index["k1"] == ptrs && Holds(ptrs, m.stores, v)
    ensures |ptrs| == 3 && ptrs[0].store == "1" && ptrs[1].store == "2"
  {
    ghost var i0, s0 := m.index, m.stores;
    m.Put("k1", v);
    RoundTrip(i0, s0, m.index, m.stores, "k1", v, Mapper(v));
    ptrs := m.index["k1"];
  }

  /** A read of "k1", whose copies all hold `v`, returns `v`, posts nothing and
      leaves the record and its copies in place. */
  method ReadAgreeing(m: LevelMultiplexer<string>, ghost ptrs: seq<Pointer>, v: string)
    requires m.Valid() && "k1" in m.index && m.index["k1"] == ptrs && ptrs != [] && Holds(ptrs, m.stores, v)
    modifies m
    ensures m.Valid() && "k1" in m.index && m.index["k1"] == ptrs && Holds(ptrs, m.stores, v)
  {
    ghost var i1, s1 := m.index, m.stores;
    AgreeingOutcome(ptrs, s1, v);
    var r, posted := m.Get("k1");
    assert r == Success(v);
    AgreeingRead(i1, s1, m.index, m.stores, "k1", v, r.value, posted, m.mapper);
    ReadKeepsRecord(i1, s1, m.index, m.stores, posted, [], m.mapper, "k1", v);
  }

  /** After backing store "2" loses its contents, a read of "k1" still
      returns `v` and writes the lost copy back. */
  method RepairLostCopy(m: LevelMultiplexer<string>, ghost ptrs: seq<Pointer>, v: string)
    requires m.Valid() && "2" in m.labels
    requires "k1" in m.index && m.index["k1"] == ptrs && Holds(ptrs, m.stores, v)
    requires |ptrs| == 3 && ptrs[0].store == "1" && ptrs[1].store == "2"
    modifies m
  {
    ghost var s2 := m.stores;
    LoseStore(m, "2");
    ghost var s3 := m.stores;
    StoreLoss(ptrs, s2, v, "2");
    var again, _ := m.Get("k1");
    assert again == Success(v);
    ReadRestores(ptrs, s3, m.stores, v);
    assert !Present(ptrs[1], s3);
    assert Present(ptrs[1], m.stores) && m.stores["2"][ptrs[1].key] == v;
  }

  /** With the shipped reverse lookup, a put seen on a backing store is filed
      and goes out under its own key with its value, a delete goes out under
      its own key and is never dropped, and a whole batch without unrecognised
      operations goes out as it came in. */
  method IdentityLookup(m: LevelMultiplexer<string>, k: string, v: string, ops: seq<Op<string>>)
    requires m.Valid() && m.reverse == IdentityReverse
    modifies m
  {
    var put := m.ResolveStoreOp(PutOp(k, v));
    assert put == Success(Some(PutOp(k, v))) && k in m.index;
    var del := m.ResolveStoreOp(DelOp(k));
    assert del == Success(Some(DelOp(k))) && k !in m.index;
    var batch, _, _, _ := m.ResolveStoreBatch(ops);
    if FirstUnrecognized(ops).None? {
      IdentityRepublishes(ops, batch.value);
      assert batch == Success(ops);
    }
  }

  /** Values without a routing digit go to store "0" alone; "hi2" goes to
      store "2" alone. */
  method Placement()
  {
    var names := ["0", "1", "2", "3"];
    assert (set l | l in names) == Labels;
    MapperRoutable();
    var m := new LevelMultiplexer<string>(names, Mapper, IdentityReverse);
    var hi, hi2 := "hi", "hi2";
    RoutesHi(hi);
    RoutesHi2(hi2);
    m.Put("k2", hi);
    assert |m.index["k2"]| == 1 && m.index["k2"][0].store == "0";
    m.Put("k3", hi2);
    assert |m.index["k3"]| == 1 && m.index["k3"][0].store == "2";
    assert "k2" in m.index;
  }

  /** Deleting a key twice leaves the state the first deletion left, and the
      second deletion is not an error. */
  method DeleteTwice(m: LevelMultiplexer<string>, key: string)
    requires m.Valid()
    modifies m
  {
    m.Del(key);
    ghost var i1, s1 := m.index, m.stores;
    m.Del(key);
    assert m.index == i1 && m.stores == s1;
  }

  /** A backing store loses every key it held, behind the engine's back. */
  method LoseStore(m: LevelMultiplexer<string>, l: string)
    requires m.Valid() && l in m.labels
    modifies m
    ensures m.Valid()
    ensures m.index == old(m.index) && m.stores == old(m.stores)[l := map[]]
  {
    m.stores := m.stores[l := map[]];
  }
}

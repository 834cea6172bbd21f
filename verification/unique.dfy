/**
 * Frequency-ordered deduplication (src/unique.ts).
 *
 * `unique(L, K)` tallies the elements of `L` by the key `K` gives them, keeping
 * the first element seen for each key and how many elements share it, and then
 * lists the kept elements by descending count.  The tally phase is a loop that
 * updates a dictionary in place (method `Unique`); the ordering phase is a
 * stable sort of the tallies (function `SortByCount`).  The declarative
 * reference is `UniqueOf`, and the lemmas at the end state what the source
 * promises about it.
 */
module Dedup {

  /** The identity key: the multiplexer compares values by their serialisation,
      which the model takes to be equality of values. */
  function Id<V>(v: V): V { v }

  /** One entry of the tally: key `k`, the first element `v` seen with that key,
      and the number `c` of elements with that key. */
  datatype Tally<K, V> = Tally(k: K, v: V, c: nat)

  /** The set of keys of the elements of `L`. */
  function KeysOf<V, K>(L: seq<V>, key: V -> K): set<K>
  {
    if L == [] then {} else KeysOf(L[..|L| - 1], key) + {key(L[|L| - 1])}
  }

  /** Number of elements of `L` whose key is `k`. */
  function CountOf<V, K(==,!new)>(L: seq<V>, key: V -> K, k: K): nat
  {
    if L == [] then 0
    else CountOf(L[..|L| - 1], key, k) + (if key(L[|L| - 1]) == k then 1 else 0)
  }

  /** The keys of `L`, each once, in order of first occurrence. */
  function DistinctKeys<V, K(==,!new)>(L: seq<V>, key: V -> K): (ks: seq<K>)
    ensures forall k :: k in ks <==> k in KeysOf(L, key)
    ensures forall i, j :: 0 <= i < j < |ks| ==> ks[i] != ks[j]
  {
    if L == [] then []
    else
      var ks := DistinctKeys(L[..|L| - 1], key);
      if key(L[|L| - 1]) in ks then ks else ks + [key(L[|L| - 1])]
  }

  /** The first element of `L` whose key is `k` (see `FirstWithIsFirst`). */
  function FirstWith<V, K(==,!new)>(L: seq<V>, key: V -> K, k: K): (v: V)
    requires k in KeysOf(L, key)
    ensures key(v) == k
  {
    var n := |L| - 1;
    if k in KeysOf(L[..n], key) then FirstWith(L[..n], key, k) else L[n]
  }

  /** A key is in `KeysOf(L)` exactly when some element of `L` has it. */
  lemma {:induction false} KeysOfMembers<V, K(!new)>(L: seq<V>, key: V -> K)
    ensures forall k :: k in KeysOf(L, key) <==> exists i :: 0 <= i < |L| && key(L[i]) == k
  {
    if L != [] {
      var n := |L| - 1;
      KeysOfMembers(L[..n], key);
      forall k | k in KeysOf(L, key) ensures exists i :: 0 <= i < |L| && key(L[i]) == k {
        if k != key(L[n]) {
          assert k in KeysOf(L[..n], key);
          var i :| 0 <= i < |L[..n]| && key(L[..n][i]) == k;
          assert key(L[i]) == k;
        }
      }
      forall k | exists i :: 0 <= i < |L| && key(L[i]) == k ensures k in KeysOf(L, key) {
        var i :| 0 <= i < |L| && key(L[i]) == k;
        if i < n { assert key(L[..n][i]) == k; }
      }
    }
  }

  /** A key has a positive count exactly when some element has it. */
  lemma {:induction false} CountOfPositive<V, K(!new)>(L: seq<V>, key: V -> K)
    ensures forall k :: CountOf(L, key, k) > 0 <==> k in KeysOf(L, key)
  {
    if L != [] {
      CountOfPositive(L[..|L| - 1], key);
    }
  }

  /** `FirstWith(L, k)` is an element of `L` with key `k`, and no element
      before it has that key. */
  lemma {:induction false} FirstWithIsFirst<V, K(!new)>(L: seq<V>, key: V -> K, k: K)
    requires k in KeysOf(L, key)
    ensures exists i :: 0 <= i < |L| && L[i] == FirstWith(L, key, k) && (forall j :: 0 <= j < i ==> key(L[j]) != k)
  {
    var n := |L| - 1;
    if k in KeysOf(L[..n], key) {
      FirstWithIsFirst(L[..n], key, k);
      var i :| 0 <= i < |L[..n]| && L[..n][i] == FirstWith(L[..n], key, k) &&
        forall j :: 0 <= j < i ==> key(L[..n][j]) != k;
      assert L[i] == FirstWith(L, key, k);
      assert forall j :: 0 <= j < i ==> key(L[j]) == key(L[..n][j]);
    } else {
      KeysOfMembers(L[..n], key);
      assert forall j :: 0 <= j < n ==> key(L[j]) == key(L[..n][j]);
    }
  }

  /** The tally `unique` builds: one entry per distinct key, in order of first
      occurrence, holding the first element with that key and its count. */
  function Tallies<V, K(==,!new)>(L: seq<V>, key: V -> K): (ts: seq<Tally<K, V>>)
  {
    var ks := DistinctKeys(L, key);
    seq(|ks|, i requires 0 <= i < |ks| => Tally(ks[i], FirstWith(L, key, ks[i]), CountOf(L, key, ks[i])))
  }

  /** Counts never increase from left to right. */
  predicate NonIncreasing<K, V>(ts: seq<Tally<K, V>>)
  {
    forall i, j :: 0 <= i < j < |ts| ==> ts[i].c >= ts[j].c
  }

  /** Inserts `t` after every entry whose count is at least its own. */
  function Insert<K, V>(s: seq<Tally<K, V>>, t: Tally<K, V>): (r: seq<Tally<K, V>>)
    requires NonIncreasing(s)
    ensures multiset(r) == multiset(s) + multiset{t}
    ensures NonIncreasing(r)
  {
    if s == [] then [t]
    else if s[0].c >= t.c then
      var rest := Insert(s[1..], t);
      assert s == [s[0]] + s[1..];
      PrependBounded(s[0], rest, s[1..], t);
      [s[0]] + rest
    else
      assert forall j :: 0 <= j < |s| ==> s[j].c <= s[0].c;
      [t] + s
  }

  /** A sequence holding the entries of `s` and `t`, in non-increasing order,
      stays so behind an entry `h` whose count bounds them all. */
  lemma PrependBounded<K, V>(h: Tally<K, V>, r: seq<Tally<K, V>>, s: seq<Tally<K, V>>, t: Tally<K, V>)
    requires multiset(r) == multiset(s) + multiset{t}
    requires NonIncreasing(r)
    requires forall i :: 0 <= i < |s| ==> s[i].c <= h.c
    requires t.c <= h.c
    ensures NonIncreasing([h] + r)
  {
    forall i | 0 <= i < |r| ensures r[i].c <= h.c {
      assert r[i] in multiset(r);
      if r[i] != t {
        assert r[i] in multiset(s);
        var j :| 0 <= j < |s| && s[j] == r[i];
      }
    }
    var hr := [h] + r;
    forall i, j | 0 <= i < j < |hr| ensures hr[i].c >= hr[j].c {
      if i > 0 {
        assert hr[i] == r[i - 1] && hr[j] == r[j - 1];
      } else {
        assert hr[j] == r[j - 1];
      }
    }
  }

  /** The sort of src/unique.ts:13-15: a stable sort by descending count. */
  function SortByCount<K, V>(ts: seq<Tally<K, V>>): (r: seq<Tally<K, V>>)
    ensures multiset(r) == multiset(ts)
    ensures |r| == |ts|
    ensures NonIncreasing(r)
  {
    if ts == [] then []
    else
      var n := |ts| - 1;
      assert ts == ts[..n] + [ts[n]];
      var r := Insert(SortByCount(ts[..n]), ts[n]);
      assert |r| == |multiset(r)|;
      r
  }

  /** The kept element of each tally entry (src/unique.ts:15-17). */
  function Values<K, V>(ts: seq<Tally<K, V>>): (vs: seq<V>)
  {
    seq(|ts|, i requires 0 <= i < |ts| => ts[i].v)
  }

  /** The reference definition of `unique(L, K)`. */
  function UniqueOf<V, K(==,!new)>(L: seq<V>, key: V -> K): (r: seq<V>)
    ensures |r| == |DistinctKeys(L, key)|
    ensures r == [] <==> L == []
  {
    assert L != [] ==> key(L[|L| - 1]) in KeysOf(L, key);
    Values(SortByCount(Tallies(L, key)))
  }

  /** How the tally of a sequence extends that of its prefix. */
  lemma TallyStep<V, K(!new)>(P: seq<V>, key: V -> K)
    requires P != []
    ensures var n := |P| - 1;
      KeysOf(P, key) == KeysOf(P[..n], key) + {key(P[n])} &&
      (forall k :: CountOf(P, key, k) == CountOf(P[..n], key, k) + (if key(P[n]) == k then 1 else 0)) &&
      (forall k :: k in KeysOf(P[..n], key) ==> FirstWith(P, key, k) == FirstWith(P[..n], key, k)) &&
      (key(P[n]) !in KeysOf(P[..n], key) ==> FirstWith(P, key, key(P[n])) == P[n])
  {
  }

  /** `C` is the tally dictionary of `P`: one entry per key, holding the
      first element with that key and the key's count. */
  ghost predicate TallyOf<V, K(!new)>(C: map<K, Tally<K, V>>, P: seq<V>, key: V -> K)
  {
    C.Keys == KeysOf(P, key) &&
    forall k :: k in C ==> C[k] == Tally(k, FirstWith(P, key, k), CountOf(P, key, k))
  }

  /** One step of the counting fold of src/unique.ts:6-11: the entry of the
      new element's key, created with count 0 when the key is new, gets its
      count raised by one; this turns the tally of `Q` into the tally of
      `Q + [x]`. */
  lemma TallyStepKeeps<V, K(!new)>(L: seq<V>, i: nat, key: V -> K, C0: map<K, Tally<K, V>>, t: Tally<K, V>)
    requires i < |L| && TallyOf(C0, L[..i], key)
    requires t == if key(L[i]) in C0 then C0[key(L[i])] else Tally(key(L[i]), L[i], 0)
    ensures TallyOf(C0[key(L[i]) := t.(c := t.c + 1)], L[..i + 1], key)
  {
    var P, Q, x := L[..i + 1], L[..i], L[i];
    assert P[..|Q|] == Q && P[|Q|] == x;
    TallyStep(P, key);
    CountOfPositive(Q, key);
    var k := key(x);
    var C := C0[k := t.(c := t.c + 1)];
    forall k' | k' in C ensures C[k'] == Tally(k', FirstWith(P, key, k'), CountOf(P, key, k')) {
      if k' != k {
        assert k' in C0;
      }
    }
  }

  /** The key order grows by the new element's key exactly when that key is
      new. */
  lemma OrderStep<V, K(!new)>(L: seq<V>, i: nat, key: V -> K, C0: map<K, Tally<K, V>>)
    requires i < |L| && TallyOf(C0, L[..i], key)
    ensures DistinctKeys(L[..i + 1], key) ==
      if key(L[i]) in C0 then DistinctKeys(L[..i], key) else DistinctKeys(L[..i], key) + [key(L[i])]
  {
    assert L[..i + 1][..i] == L[..i];
  }

  /** Reading the tally dictionary in key insertion order gives `Tallies`. */
  lemma TallyInOrder<V, K(!new)>(L: seq<V>, key: V -> K, C: map<K, Tally<K, V>>, order: seq<K>, ts: seq<Tally<K, V>>)
    requires order == DistinctKeys(L, key) && TallyOf(C, L, key)
    requires |ts| == |order| && forall j :: 0 <= j < |order| ==> order[j] in C && ts[j] == C[order[j]]
    ensures ts == Tallies(L, key)
  {
  }

  /** The counting fold of src/unique.ts:6-11: fills the tally dictionary `C`
      and records its keys in insertion order (`order`). */
  method Count<V, K(==,!new)>(L: seq<V>, key: V -> K) returns (C: map<K, Tally<K, V>>, order: seq<K>)
    ensures order == DistinctKeys(L, key) && TallyOf(C, L, key)
  {
    order, C := [], map[];
    for i := 0 to |L|
      invariant order == DistinctKeys(L[..i], key)
      invariant TallyOf(C, L[..i], key)
    {
      var k := key(L[i]);
      OrderStep(L, i, key, C);
      var t := if k in C then C[k] else Tally(k, L[i], 0);
      TallyStepKeeps(L, i, key, C, t);
      if k !in C {
        order := order + [k];
      }
      C := C[k := t.(c := t.c + 1)];
    }
    assert L[..|L|] == L;
  }

  /** `unique` as the source runs it (src/unique.ts:1-18): count, then read
      the tallies in key insertion order, sort them by descending count and
      keep each one's element. */
  method Unique<V, K(==,!new)>(L: seq<V>, key: V -> K) returns (r: seq<V>)
    ensures r == UniqueOf(L, key)
  {
    var C, order := Count(L, key);
    var tallies := seq(|order|, j requires 0 <= j < |order| => C[order[j]]);
    TallyInOrder(L, key, C, order, tallies);
    r := Values(SortByCount(tallies));
  }

  // ---------------------------------------------------------------------------
  // What the source promises about `unique`

  /** Every entry of the sorted tally is a genuine one: a key of `L`, the first
      element of `L` with that key, and that key's count. */
  lemma SortedTalliesGenuine<V, K(!new)>(L: seq<V>, key: V -> K)
    ensures forall t :: t in SortByCount(Tallies(L, key)) ==>
      t.k in KeysOf(L, key) && t.v == FirstWith(L, key, t.k) && t.c == CountOf(L, key, t.k)
  {
    var ts := Tallies(L, key);
    forall t | t in SortByCount(ts)
      ensures t.k in KeysOf(L, key) && t.v == FirstWith(L, key, t.k) && t.c == CountOf(L, key, t.k)
    {
      assert t in multiset(SortByCount(ts));
      assert t in ts;
    }
  }

  /** No two entries share a key. */
  ghost predicate DistinctTallyKeys<K, V>(ts: seq<Tally<K, V>>)
  {
    forall i, j :: 0 <= i < j < |ts| ==> ts[i].k != ts[j].k
  }

  /** Inserting a tally with a new key keeps the keys distinct. */
  lemma {:induction false} InsertKeepsKeysDistinct<K, V>(s: seq<Tally<K, V>>, t: Tally<K, V>)
    requires NonIncreasing(s) && DistinctTallyKeys(s)
    requires forall x :: x in s ==> x.k != t.k
    ensures DistinctTallyKeys(Insert(s, t))
  {
    if s != [] && s[0].c >= t.c {
      InsertKeepsKeysDistinct(s[1..], t);
      var rest := Insert(s[1..], t);
      forall x | x in rest ensures x.k != s[0].k {
        assert x in multiset(s[1..]) + multiset{t};
      }
    }
  }

  /** Sorting keeps the keys distinct. */
  lemma {:induction false} SortKeepsKeysDistinct<K, V>(ts: seq<Tally<K, V>>)
    requires DistinctTallyKeys(ts)
    ensures DistinctTallyKeys(SortByCount(ts))
  {
    if ts != [] {
      var n := |ts| - 1;
      SortKeepsKeysDistinct(ts[..n]);
      forall x | x in SortByCount(ts[..n]) ensures x.k != ts[n].k {
        assert x in multiset(SortByCount(ts[..n]));
        assert x in ts[..n];
      }
      InsertKeepsKeysDistinct(SortByCount(ts[..n]), ts[n]);
    }
  }

  /** No two elements of the output have the same key (src/unique.ts:6-16). */
  lemma UniqueKeysDistinct<V, K(!new)>(L: seq<V>, key: V -> K)
    ensures var r := UniqueOf(L, key);
      forall i, j :: 0 <= i < j < |r| ==> key(r[i]) != key(r[j])
  {
    var ts := Tallies(L, key);
    SortKeepsKeysDistinct(ts);
    SortedTalliesGenuine(L, key);
    var s := SortByCount(ts);
    assert forall i :: 0 <= i < |s| ==> s[i] in s && key(s[i].v) == s[i].k;
  }

  /** There are as many tallies as distinct keys. */
  lemma {:induction false} KeysOfSize<V, K(!new)>(L: seq<V>, key: V -> K)
    ensures |KeysOf(L, key)| == |DistinctKeys(L, key)|
  {
    if L != [] {
      var n := |L| - 1;
      KeysOfSize(L[..n], key);
      var ks := DistinctKeys(L[..n], key);
      if key(L[n]) !in ks {
        assert key(L[n]) !in KeysOf(L[..n], key);
      } else {
        assert KeysOf(L, key) == KeysOf(L[..n], key);
      }
    }
  }

  /** Every tally entry survives the sort at some position. */
  lemma TallySorted<V, K(!new)>(L: seq<V>, key: V -> K, j: nat)
    requires j < |Tallies(L, key)|
    ensures exists i :: 0 <= i < |SortByCount(Tallies(L, key))| && SortByCount(Tallies(L, key))[i] == Tallies(L, key)[j]
  {
    var ts := Tallies(L, key);
    assert ts[j] in multiset(ts);
    assert ts[j] in SortByCount(ts);
  }

  /** Every key of the input is the key of some output element. */
  lemma UniqueHasEveryKey<V, K(!new)>(L: seq<V>, key: V -> K)
    ensures var r := UniqueOf(L, key);
      forall k :: k in KeysOf(L, key) ==> exists i :: 0 <= i < |r| && key(r[i]) == k
  {
    var ts := Tallies(L, key);
    var s := SortByCount(ts);
    var r := UniqueOf(L, key);
    SortedTalliesGenuine(L, key);
    forall k | k in KeysOf(L, key) ensures exists i :: 0 <= i < |r| && key(r[i]) == k {
      var ks := DistinctKeys(L, key);
      var j :| 0 <= j < |ks| && ks[j] == k;
      TallySorted(L, key, j);
      var i :| 0 <= i < |s| && s[i] == ts[j];
      assert s[i] in s;
      assert key(r[i]) == k;
    }
  }

  /** The output has exactly one element per distinct key of the input, and
      every key of the input is the key of some output element and conversely
      (src/unique.ts:6-16). */
  lemma UniqueCoversKeys<V, K(!new)>(L: seq<V>, key: V -> K)
    ensures var r := UniqueOf(L, key);
      |r| == |KeysOf(L, key)| &&
      forall k :: k in KeysOf(L, key) <==> exists i :: 0 <= i < |r| && key(r[i]) == k
  {
    var r := UniqueOf(L, key);
    KeysOfSize(L, key);
    UniqueHasEveryKey(L, key);
    UniqueKeepsFirst(L, key);
    forall k | exists i :: 0 <= i < |r| && key(r[i]) == k ensures k in KeysOf(L, key) {
      var i :| 0 <= i < |r| && key(r[i]) == k;
    }
  }

  /** Each output element is the first element of the input with its key, and
      so is a member of the input (src/unique.ts:7-8). */
  lemma UniqueKeepsFirst<V, K(!new)>(L: seq<V>, key: V -> K)
    ensures var r := UniqueOf(L, key);
      forall i :: 0 <= i < |r| ==>
        key(r[i]) in KeysOf(L, key) && r[i] == FirstWith(L, key, key(r[i])) && r[i] in L
  {
    SortedTalliesGenuine(L, key);
    var s := SortByCount(Tallies(L, key));
    var r := UniqueOf(L, key);
    forall i | 0 <= i < |r|
      ensures key(r[i]) in KeysOf(L, key) && r[i] == FirstWith(L, key, key(r[i])) && r[i] in L
    {
      assert s[i] in s;
      FirstWithIsFirst(L, key, key(r[i]));
    }
  }

  /** Output elements come by non-increasing occurrence count
      (src/unique.ts:13-15). */
  lemma UniqueByDescendingCount<V, K(!new)>(L: seq<V>, key: V -> K)
    ensures var r := UniqueOf(L, key);
      forall i, j :: 0 <= i < j < |r| ==> CountOf(L, key, key(r[i])) >= CountOf(L, key, key(r[j]))
  {
    SortedTalliesGenuine(L, key);
    var s := SortByCount(Tallies(L, key));
    var r := UniqueOf(L, key);
    forall i, j | 0 <= i < j < |r|
      ensures CountOf(L, key, key(r[i])) >= CountOf(L, key, key(r[j]))
    {
      assert s[i] in s && s[j] in s;
      assert key(r[i]) == s[i].k && key(r[j]) == s[j].k;
    }
  }

  /** The first output element is a most frequent one: no key of the input
      occurs more often than its key. */
  lemma UniqueMajority<V, K(!new)>(L: seq<V>, key: V -> K)
    requires L != []
    ensures var r := UniqueOf(L, key);
      r != [] && forall v :: v in L ==> CountOf(L, key, key(r[0])) >= CountOf(L, key, key(v))
  {
    var r := UniqueOf(L, key);
    UniqueEmpty(L, key);
    UniqueCoversKeys(L, key);
    UniqueByDescendingCount(L, key);
    KeysOfMembers(L, key);
    forall v | v in L ensures CountOf(L, key, key(r[0])) >= CountOf(L, key, key(v)) {
      var m :| 0 <= m < |L| && L[m] == v;
      assert key(v) in KeysOf(L, key);
      var i :| 0 <= i < |r| && key(r[i]) == key(v);
    }
  }

  /** Empty input gives empty output, and only empty input does. */
  lemma UniqueEmpty<V, K(!new)>(L: seq<V>, key: V -> K)
    ensures UniqueOf(L, key) == [] <==> L == []
  {
    UniqueCoversKeys(L, key);
    if L != [] {
      assert key(L[|L| - 1]) in KeysOf(L, key);
    }
  }

  /** If every element has the key of the first, the output is exactly the
      first element: the case the multiplexer's read relies on when all
      replicas agree. */
  lemma UniqueSingleKey<V, K(!new)>(L: seq<V>, key: V -> K)
    requires L != []
    requires forall i :: 0 <= i < |L| ==> key(L[i]) == key(L[0])
    ensures UniqueOf(L, key) == [L[0]]
  {
    var r := UniqueOf(L, key);
    UniqueCoversKeys(L, key);
    UniqueKeepsFirst(L, key);
    KeysOfMembers(L, key);
    assert KeysOf(L, key) == {key(L[0])};
    assert |r| == 1;
    FirstWithIsFirst(L, key, key(L[0]));
    var i :| 0 <= i < |L| && L[i] == FirstWith(L, key, key(L[0])) && (forall j :: 0 <= j < i ==> key(L[j]) != key(L[0]));
    assert i == 0;
    assert r[0] == FirstWith(L, key, key(r[0]));
  }

  /** Keys and counts of the input of the example in src/unique.test.ts:4-21. */
  lemma ExampleCounts()
    ensures var L := ["c", "a", "b", "a", "c", "a"];
      KeysOf(L, Id<string>) == {"a", "b", "c"} &&
      CountOf(L, Id<string>, "a") == 3 && CountOf(L, Id<string>, "b") == 1 && CountOf(L, Id<string>, "c") == 2
  {
    var L := ["c", "a", "b", "a", "c", "a"];
    var key := Id<string>;
    assert L[..5] == ["c", "a", "b", "a", "c"];
    assert L[..5][..4] == ["c", "a", "b", "a"];
    assert L[..5][..4][..3] == ["c", "a", "b"];
    assert L[..5][..4][..3][..2] == ["c", "a"];
    assert L[..5][..4][..3][..2][..1] == ["c"];
    assert ["c"][..0] == [];
    assert KeysOf(["c"], key) == {"c"};
    assert KeysOf(["c", "a"], key) == {"c", "a"};
    assert KeysOf(["c", "a", "b"], key) == {"c", "a", "b"};
    assert CountOf(["c"], key, "a") == 0 && CountOf(["c"], key, "b") == 0 && CountOf(["c"], key, "c") == 1;
    assert CountOf(["c", "a"], key, "a") == 1 && CountOf(["c", "a"], key, "b") == 0 && CountOf(["c", "a"], key, "c") == 1;
    assert CountOf(["c", "a", "b"], key, "a") == 1 && CountOf(["c", "a", "b"], key, "b") == 1;
    assert CountOf(["c", "a", "b"], key, "c") == 1;
    assert CountOf(["c", "a", "b", "a"], key, "a") == 2 && CountOf(["c", "a", "b", "a"], key, "b") == 1;
    assert CountOf(["c", "a", "b", "a"], key, "c") == 1;
    assert CountOf(["c", "a", "b", "a", "c"], key, "a") == 2 && CountOf(["c", "a", "b", "a", "c"], key, "b") == 1;
    assert CountOf(["c", "a", "b", "a", "c"], key, "c") == 2;
  }

  /** The example of src/unique.test.ts:4-21: 'a' occurs three times, 'c'
      twice and 'b' once. */
  lemma UniqueExample(L: seq<string>)
    requires L == ["c", "a", "b", "a", "c", "a"]
    ensures UniqueOf(L, Id<string>) == ["a", "c", "b"]
  {
    var r := UniqueOf(L, Id<string>);
    ExampleMembers(L);
    ExampleOrder(L);
    assert r[0] == "a";
    assert r[1] == "c" && r[2] == "b";
    assert r == [r[0], r[1], r[2]];
  }

  /** The example's output has three elements, one per letter. */
  lemma ExampleMembers(L: seq<string>)
    requires L == ["c", "a", "b", "a", "c", "a"]
    ensures var r := UniqueOf(L, Id<string>);
      |r| == 3 && r[0] in {"a", "b", "c"} && r[1] in {"a", "b", "c"} && r[2] in {"a", "b", "c"} &&
      r[0] != r[1] && r[1] != r[2] && r[0] != r[2]
  {
    var key := Id<string>;
    var r := UniqueOf(L, key);
    assert KeysOf(L, key) == {"a", "b", "c"} by {
      ExampleCounts();
    }
    assert |r| == 3 && forall i :: 0 <= i < 3 ==> r[i] in KeysOf(L, key) by {
      UniqueCoversKeys(L, key);
      assert forall i :: 0 <= i < |r| ==> key(r[i]) == r[i];
    }
    assert forall i, j :: 0 <= i < j < 3 ==> r[i] != r[j] by {
      UniqueKeysDistinct(L, key);
    }
  }

  /** The example's output is ordered by the letters' counts 3, 2 and 1. */
  lemma ExampleOrder(L: seq<string>)
    requires L == ["c", "a", "b", "a", "c", "a"]
    requires |UniqueOf(L, Id<string>)| == 3
    ensures var r := UniqueOf(L, Id<string>);
      CountOf(L, Id<string>, r[0]) >= CountOf(L, Id<string>, r[1]) >= CountOf(L, Id<string>, r[2]) &&
      CountOf(L, Id<string>, "a") == 3 && CountOf(L, Id<string>, "b") == 1 && CountOf(L, Id<string>, "c") == 2
  {
    ExampleCounts();
    UniqueByDescendingCount(L, Id<string>);
  }
}

# easier-level-multiplexer, modelled in Dafny

This project models the engine of the level multiplexer: one logical
key-value store laid over a **pointer index** and a set of labelled
**backing stores**.

- **Write.** `put(key, val)` asks the routing function (`mapper`) which stores get a copy of `val`. It posts a copy into each of them, and each store assigns its own physical key. The list of `(store, physical key)` pointers becomes the record of `key` in the index.
- **Read.** `get(key)` fetches the copy behind every pointer of the record. It settles disagreeing copies by majority vote (the `unique` helper). It re-files every outvoted value as a new record (a *collision*). It writes the majority value back wherever a copy was missing (*self-repair*).
- **Delete.** `del(key)` removes the record and every copy it points to. Deleting an absent key is not an error.
- **Post.** `post(val)` writes under a new logical key.
- **Reverse lookup.** `_reverse`, `_del` and `_post` map a physical key seen on a backing store's change feed back to a logical key.
- **Change feeds.** The per-operation translation of the `changes()` batches republishes index and store batches as logical batches.

Files:

- `outcomes.dfy`: `Option` and `Result`.
- `unique.dfy` (module `Dedup`): the frequency-ordered deduplication of `src/unique.ts`.
  - `UniqueOf` is the reference definition: tallies in first-occurrence order, a stable sort by descending count, the first element of each key.
  - `Unique` is the source's counting loop. It is proved equal to `UniqueOf`.
  - Lemmas state what the output means.
- `records.dfy` (module `Records`): pointers, records and stores as values, plus the specification functions and lemmas the engine is proved against:
  - `Found`, `Missing`, `GetOutcome`, `Repair`, `RemovePointers`;
  - the write postcondition `PutDone`;
  - round trip, self-repair and record preservation.
- `multiplexer.dfy` (module `Multiplexer`): the class `LevelMultiplexer`.
  - Its fields `index` and `stores` are updated in place by `Put`, `Get`, `Del`, `Post`, `ReverseDel` and `ReversePost`.
  - It also holds the batch translators. Each records its run as ghost sequences of intermediate states and per-operation results, and each step is related to the contract of the single-operation translator.
  - `Valid()` is the class invariant: every label the routing function can produce, and every store an index pointer names, is a configured store.
- `routing.dfy` (module `Routing`): the routing function of the test suite, and the three routing examples it documents.
- `scenario.dfy` (module `Scenario`): client sessions over the four-store setup of the test suite.
  - With the identity reverse lookup, a store put and delete go out under their own keys, and a store batch goes out as it came in.
  - `"hello123"` is written, read back, loses its copy in store `"2"`, and is read back again with that copy restored.
  - `"hi"` and `"hi2"` land in stores `"0"` and `"2"` alone.
  - A key deleted twice leaves the state one deletion left.

Values are compared with Dafny equality. The source compares their JSON
serialisations, and the model uses the identity key `Dedup.Id` for that.
Errors are the datatype `Records.Error`:

- `NotFound`;
- `TypeError`, the failure of the collision branch as written;
- `UnrecognizedOperation(kind)`.

A store's own `post` and the engine's `uuidv4` are both modelled by
`Multiplexer.FreshKey`. It returns a key outside a given set:

- for a store, the keys the store holds plus every key an index pointer names in that store;
- for the engine, the keys of the index.

Two places where the model departs from the code:

- The collision branch at src/index.ts:100 is modelled as intended, not as written. See "## Findings".
- The batched delete at src/index.ts:232-236 calls `_del` twice and publishes the key the second call returns. The model does exactly that. The second deletion finds no record and changes nothing; `ResolveStoreOp` proves it.

## Model

| member | source | states |
|---|---|---|
| Dedup.Unique | src/unique.ts:1-18 | counting, then sorting the tallies by descending count and keeping each one's element, returns exactly the reference result `UniqueOf` |
| Dedup.DistinctKeys | src/unique.ts:6-11 | the keys of the tally in insertion order are exactly the keys of the input elements, each once |
| Dedup.FirstWith | src/unique.ts:7-8 | the element kept for a key has that key |
| Dedup.FirstWithIsFirst | src/unique.ts:7-8 | the element kept for a key is the first element of the input with that key |
| Dedup.KeysOfMembers | src/unique.ts:6-11 | a key is tallied iff some input element has it |
| Dedup.CountOfPositive | src/unique.ts:6-11 | a key's count is positive iff the key occurs in the input |
| Dedup.TallyStep | src/unique.ts:6-11 | one more element adds its key, raises that key's count by one, leaves the other counts and kept elements alone, and is kept itself when its key is new |
| Dedup.TallyStepKeeps | src/unique.ts:6-11 | raising the count of the new element's key, from a fresh entry holding that element when the key is new, turns the tally of a prefix into the tally of the prefix one longer |
| Dedup.OrderStep | src/unique.ts:6-11 | the insertion order of keys grows by the new element's key exactly when that key has no entry yet |
| Dedup.Count | src/unique.ts:6-11 | the loop leaves in `C` every key of the input mapped to its first element and its number of occurrences, and no other key, and returns the keys in first-occurrence order |
| Dedup.TallyInOrder | src/unique.ts:13 | reading the filled dictionary in key insertion order gives the reference tallies |
| Dedup.Insert | src/unique.ts:13-15 | inserting a tally into a sequence ordered by descending count keeps it ordered and adds exactly that tally |
| Dedup.PrependBounded | src/unique.ts:13-15 | an ordered result of insertion stays ordered behind an entry whose count bounds every entry |
| Dedup.SortByCount | src/unique.ts:13-15 | the sort is a permutation of the tallies, ordered by non-increasing count |
| Dedup.SortedTalliesGenuine | src/unique.ts:6-15 | every sorted tally carries a key of the input, the first element with that key and that key's count |
| Dedup.InsertKeepsKeysDistinct | src/unique.ts:13-15 | inserting a tally with a new key keeps the keys of the sorted tallies distinct |
| Dedup.SortKeepsKeysDistinct | src/unique.ts:13-15 | sorting keeps the keys of the tallies distinct |
| Dedup.UniqueKeysDistinct | src/unique.ts:6-16 | no two output elements have the same key |
| Dedup.KeysOfSize | src/unique.ts:6-11 | there are as many tallies as distinct keys |
| Dedup.TallySorted | src/unique.ts:13-15 | every tally survives the sort |
| Dedup.UniqueHasEveryKey | src/unique.ts:6-16 | every key of the input is the key of some output element |
| Dedup.UniqueCoversKeys | src/unique.ts:6-16 | the output has one element per distinct key, and every input key is the key of an output element and conversely |
| Dedup.UniqueOf | src/unique.ts:6-17 | the reference result has exactly one element per distinct key of the input, and is empty iff the input is |
| Dedup.UniqueKeepsFirst | src/unique.ts:7-16 | each output element is the first input element with its key, and is a member of the input |
| Dedup.UniqueByDescendingCount | src/unique.ts:13-15 | output elements are ordered by non-increasing occurrence count of their keys |
| Dedup.UniqueMajority | src/unique.ts:13-16 | on a non-empty input the first output element's key occurs at least as often as any input element's key |
| Dedup.UniqueEmpty | src/unique.ts:6-17 | the output is empty iff the input is |
| Dedup.UniqueSingleKey | src/unique.ts:6-17 | when every element shares the first one's key, the output is exactly the first element |
| Dedup.ExampleCounts | src/unique.test.ts:4-21 | in `c a b a c a`, `a` occurs three times, `c` twice, `b` once |
| Dedup.ExampleMembers | src/unique.test.ts:4-21 | the output for `c a b a c a` has three elements, holding `a`, `b` and `c` |
| Dedup.ExampleOrder | src/unique.test.ts:4-21 | those three elements come in the order `a`, `c`, `b` |
| Dedup.UniqueExample | src/unique.test.ts:4-21 | `unique(['c','a','b','a','c','a'])` is `['a','c','b']` |
| Records.FoundMissingSplit | src/index.ts:77-91 | every pointer of a record either yields its value (kept, in record order) or is queued for repair, never both; the queue holds exactly the pointers whose store lacks their key |
| Records.Found | src/index.ts:77-91 | no more values than the record has pointers, and each found value is the copy held under some pointer of the record whose store has its key |
| Records.Missing | src/index.ts:79-85 | no more pointers than the record has, each one a pointer of the record whose store lacks its key |
| Records.MissingHas | src/index.ts:79-85 | every pointer of the record whose store lacks its key is queued for repair |
| Records.MissingExactly | src/index.ts:79-85 | a pointer is queued for repair iff it belongs to the record and its store lacks its key |
| Records.NothingFound | src/index.ts:77-94 | no value is found iff no pointer's store holds its key |
| Records.NothingMissing | src/index.ts:79-85 | nothing is queued for repair iff every pointer's store holds its key |
| Records.GetOutcome | src/index.ts:93-107 | a read fails with NotFound iff no copy was found; otherwise it returns a found value whose count is the largest among the found values |
| Records.GetOutcomeAsWritten | src/index.ts:93-101 | as written, a read succeeds iff copies were found and all of them agree |
| Records.OneDistinctValue | src/index.ts:96-98 | there is exactly one distinct found value iff all found values agree, so the collision branch runs iff two copies disagree |
| Records.KeysOfAgreeing | src/index.ts:96-98 | agreeing found values have a single distinct value |
| Records.KeysOfDisagreeing | src/index.ts:96-98 | two differing found values give at least two distinct values |
| Records.CollisionDiverges | src/index.ts:96-101 | when two found copies differ, the read as written fails with a TypeError while the intended read succeeds |
| Records.AgreeingReplicas | src/index.ts:77-107 | when every surviving copy holds `v` and one survives, the majority vote yields just `v` and the read returns `v` |
| Records.Repair | src/index.ts:103-105 | repair writes `v` under exactly the queued pointers, adds no other key and changes no other entry |
| Records.RepairOnlyAdds | src/index.ts:103-105 | repair adds store entries only under the queued pointers, on top of whatever was added before |
| Records.RepairCompletes | src/index.ts:103-105 | after repair nothing of the record is missing, and when all copies agreed every pointer now holds `v` |
| Records.RepairStep | src/index.ts:103-105 | repairing one more pointer writes `v` under it on top of the repair of the earlier ones |
| Records.RepairKeepsOthers | src/index.ts:98-105 | repair leaves every record none of whose pointers is queued holding its value |
| Records.RemovePointers | src/index.ts:121-130 | deleting the copies removes exactly the physical keys the record names and changes no other entry |
| Records.RemoveStep | src/index.ts:124-127 | removing one more pointer's copy deletes its key on top of the removal of the earlier ones |
| Records.RemoveIdempotent | src/index.ts:121-136 | removing the same copies twice leaves what removing them once left |
| Records.PointedKeysGrow | src/index.ts:110-118 | an index that keeps every old record names every physical key the old index named |
| Records.ExtendsTrans | src/index.ts:74-119 | keeping every existing store entry is transitive across successive writes |
| Records.PutDone | src/index.ts:110-118 | a completed write adds exactly `key` to the index, and its record has one pointer per routed label |
| Records.RoutedStep | src/index.ts:112-117 | a pointer into the next routed store keeps the record in route order |
| Records.FanOutStep | src/index.ts:112-117 | one more posted copy under a fresh key keeps the fan-out invariant: earlier copies still hold the value, the new pointers are distinct and unnamed by the index, and the only store change is a fresh insertion |
| Records.PostStep | src/index.ts:98-101 | posting one more outvoted value under a key new to the index extends the set of posted records and keeps the earlier ones; the new record's physical keys were new to their stores and named by no record before the read began |
| Records.MissingIsPointed | src/index.ts:79-85 | every queued pointer names a key the index already names, and its store lacked it |
| Records.RepairAfterPosts | src/index.ts:98-105 | the repair at the end of a read keeps the entries that were there before the read and the records it posted, and leaves `v` under every queued pointer |
| Records.ReadKeepsRecord | src/index.ts:74-108 | a read keeps every record that was there before it, with its copies |
| Records.AgreeingOutcome | src/index.ts:93-107 | a record whose copies are all there and all hold `v` has no pointer to repair, and its read returns `v` |
| Records.AgreeingRead | src/index.ts:93-107 | a read of such a record returns `v`, posts no record, leaves the index as it was and adds no store entry |
| Records.StoreLoss | src/index.ts:77-107 | when one store loses everything, a record with a copy elsewhere still reads as its value, and the queued pointers are exactly those into the lost store |
| Records.LostStoreMissing | src/index.ts:79-85 | once a store is emptied, the queued pointers of a fully present record are exactly its pointers into that store |
| Records.RoundTrip | src/index.ts:74-119 | right after `put(key, val)` with a non-empty route, nothing is missing, the vote yields only `val` and the read returns `val` |
| Records.ReadRestores | src/index.ts:79-105 | after a successful read every pointer of the record holds a copy; copies that were there are unchanged and repaired ones hold the returned value |
| Multiplexer.FreshKey | src/index.ts:150-152 | the generated key is outside the keys to avoid |
| Multiplexer.FirstUnrecognized | src/index.ts:197-203 | names the first operation of a batch that is neither put nor del, or none iff there is no such operation |
| Multiplexer.UnrecognizedPrefix | src/index.ts:190-203 | a batch has no unrecognised operation iff its prefix has none and its last operation is a put or a del |
| Multiplexer.ReadOutcome | src/index.ts:74-107 | a read fails only with NotFound, and succeeds iff the key has a record and some copy was found |
| Multiplexer.IdentityRepublishes | src/index.ts:221-244 | with the reverse lookup the source ships (src/index.ts:156-159), a store batch without unrecognised operations goes out exactly as it came in: every put under its own key with its value, and no delete dropped |
| Multiplexer.TraceOutcomes | src/index.ts:190-203 | in a run of an index batch a delete always goes out as it is, an unrecognised operation fails as such, and a put fails only with NotFound |
| Multiplexer.IndexOutStep | src/index.ts:190-207 | the failure flag is set exactly when some put's read failed, and while every step succeeded the output is the step results in order |
| Multiplexer.DeletesKeepState | src/index.ts:196-200 | a run of deletes leaves the pointer index and the stores as they were |
| Multiplexer.StoreShapeStep | src/index.ts:224-242 | one more resolved put or delete extends the output the way the batch calls for |
| Multiplexer.LevelMultiplexer.constructor | src/index.ts:43-52 | one empty store per configured label, an empty index, and the class invariant holds |
| Multiplexer.LevelMultiplexer.Put | src/index.ts:110-119 | afterwards `key`'s record has one pointer per routed label, in route order; each names a fresh physical key that now holds `val`; other records are untouched; the only store changes are those insertions |
| Multiplexer.LevelMultiplexer.FanOut | src/index.ts:112-117 | copies `val` into each routed store under a fresh key and returns the pointers, changing nothing but those insertions |
| Multiplexer.LevelMultiplexer.Post | src/index.ts:150-154 | returns a key that was not in the index, and the state is that of `put(key, val)` |
| Multiplexer.LevelMultiplexer.Del | src/index.ts:121-136 | the record is gone and every physical key it named is gone from its store; an absent key changes nothing |
| Multiplexer.LevelMultiplexer.PostEach | src/index.ts:98-101 | each outvoted value is posted as a new record under a distinct key new to the index, routed and holding that value, whose physical keys were new to their stores and named by no old record; old records and store entries are kept, and the stores gain entries only under the posted records' pointers |
| Multiplexer.LevelMultiplexer.Recreate | src/index.ts:103-105 | the stores become `Repair` of the old stores: the value is written under every queued pointer |
| Multiplexer.LevelMultiplexer.Fetch | src/index.ts:77-91 | returns the found values and the pointers to repair |
| Multiplexer.LevelMultiplexer.Get | src/index.ts:74-108 | fails with NotFound iff there is no record or no copy, and then changes nothing; otherwise returns the first value `unique` gives for the found copies (the majority), posts each other value as a new record, writes the returned value under every missing pointer, keeps every existing entry, and adds store entries only under the missing pointers and the posted records' pointers |
| Multiplexer.LevelMultiplexer.ReverseDel | src/index.ts:161-166 | returns the reverse lookup of the physical key and deletes that logical record if there is one, otherwise changes nothing |
| Multiplexer.LevelMultiplexer.ReversePost | src/index.ts:168-176 | writes under the looked-up logical key, or under a key new to the index when the lookup gives none, and returns it |
| Multiplexer.LevelMultiplexer.ResolveIndexOp | src/index.ts:190-204 | an index put goes out under its key with exactly the value a read of that key returns, and leaves the state that read leaves, repair and posted records included; when the read fails, NotFound and no change; a del goes out as it is and an unrecognised operation is an UnrecognizedOperation error, both with no change |
| Multiplexer.LevelMultiplexer.ResolveIndexNext | src/index.ts:190-204 | resolving one more operation extends the run of the batch by one step as `ResolveIndexOp` promises, keeps the failure flag equal to "some put's read failed", and keeps the output equal to the step results while every step succeeded |
| Multiplexer.LevelMultiplexer.ResolveIndexBatch | src/index.ts:187-207 | every operation runs in order, each step as `ResolveIndexOp` promises, from the old state to the new; the batch fails with the first unrecognised operation if there is one, otherwise it fails, with NotFound, iff some step failed; on success it has one operation per input, each the result of its step, so every put carries exactly the value its read returned; a batch of deletes goes out unchanged and changes nothing |
| Multiplexer.LevelMultiplexer.ResolveStoreOp | src/index.ts:224-241 | a store put is written under the logical key the lookup gives, or under one new to the index, and goes out under it with its value, in the state a write leaves; a store del removes the logical record and goes out under its logical key, or is dropped with no change when the lookup gives none; anything else is an UnrecognizedOperation error with no change |
| Multiplexer.LevelMultiplexer.ResolveStoreNext | src/index.ts:224-242 | resolving one more operation extends the run of the batch by one step as `ResolveStoreOp` promises, and keeps the output equal to what the steps produced and shaped as the batch so far calls for |
| Multiplexer.LevelMultiplexer.ResolveStoreBatch | src/index.ts:221-244 | every operation runs in order, each step as `ResolveStoreOp` promises, from the old state to the new; the batch fails with the first unrecognised operation if there is one; otherwise it is the operations the steps produced, in order, dropped deletes left out, each put with its value under its logical key and each delete under its logical key |
| Routing.DigitLabel | src/index.test.ts:37-40 | a one-character label of a digit 1, 2 or 3 is a configured store other than "0" |
| Routing.Digits | src/index.test.ts:37 | every label is one character among 1, 2, 3 taken from the value; every such character of the value gives a label; the labels are empty iff the value has none |
| Routing.DigitsOfChar | src/index.test.ts:37 | a single character gives its own label iff it is 1, 2 or 3 |
| Routing.DigitsAppend | src/index.test.ts:37 | the labels of a concatenation are the labels of each part in order, so order and repeats are kept |
| Routing.Mapper | src/index.test.ts:35-41 | never empty; every label is one of "0" to "3"; `["0"]` exactly when the value has none of 1, 2, 3, and otherwise those characters in order |
| Routing.MapperRoutable | src/index.test.ts:28-41 | every label the routing function produces is one of the four configured stores |
| Routing.HelloHasNoDigits | src/index.test.ts:32 | "hello" has no routing character |
| Routing.DigitsOf123 | src/index.test.ts:32 | "123" gives the labels 1, 2, 3 |
| Routing.RoutesHello123 | src/index.test.ts:32 | "hello123" goes to stores 1, 2 and 3 |
| Routing.RoutesHi | src/index.test.ts:33 | "hi" goes to store 0 |
| Routing.RoutesHi2 | src/index.test.ts:34 | "hi2" goes to store 2 |
| Scenario.WriteK1 | src/index.ts:110-118 | writing a value the routing function sends to stores 1, 2 and 3 files three copies of it, the first in store "1" and the second in store "2" |
| Scenario.ReadAgreeing | src/index.ts:74-108 | reading a record whose copies agree keeps the record and its copies in place |

## Left out

- `open` and `close` (src/index.ts:54-72): opening and closing external adapters.
- `iterator` (src/index.ts:138-148): an async generator over an external index iterator whose range options the model cannot see. Each item is a `get`, which is modelled.
- The `changes()` subscription wiring (src/index.ts:178-249) and the single-event `onPut`/`onDel` handlers are left out. These are emitter and callback plumbing. The per-operation translation of batches is modelled.
- The adapter wrapping in the constructor and the default `expose(...)` export (src/index.ts:43-52, 252-254) are foreign calls. The constructor keeps only the label-to-store table, with empty stores.
- `uuidv4` and a store's `post` are modelled by `FreshKey`, a key outside a given set. Randomness and global uniqueness are not modelled.
- The JSON encoding of pointer records and the JSON-string comparison of values: records are a datatype and values compare by Dafny equality.
- `console.warn` on a collision (src/index.ts:99).
- Errors other than NotFound raised by a backing store or the index (src/index.ts:86-88, 131-134) are left out. The stores are in-memory maps that cannot fail.
- `Promise.all` concurrency: fan-outs, fetches, repairs, posts and batch operations run in sequence, in array order. Interleaving with other calls is not modelled.
- Multiplexer.LevelMultiplexer.ResolveIndexBatch does not model which error wins in time. When several operations of a batch fail, it reports the first unrecognised operation, else NotFound, as the error that rejects first (unrecognised operations reject before any read completes).
- Dedup.Unique: the tally is a plain object literal, so a key naming an inherited member of `Object.prototype` (`constructor`, `toString`, `valueOf`, `hasOwnProperty`, `__proto__` and the like) finds that member instead of `undefined` (src/unique.ts:7-9). For example, `unique(['constructor'])` returns `[]` in the source and `['constructor']` in the model. `get` never passes such a key: its keys are JSON texts (src/index.ts:96), and none of them is such a name.
- Dedup.Unique: the default key function `String(v)` (src/unique.ts:3) is not modelled. Callers pass the key function explicitly.
- Dedup.Unique: for ties in count, `Object.keys` puts integer-like keys before the others, and then keeps insertion order (src/unique.ts:13). The model keeps first-occurrence order for every key.
- An unknown store label is left out: an index pointer or routed label naming no configured store (src/index.ts:80, 115) would crash the source. The model makes this impossible through the class invariant `Valid()`.
- Backing stores are empty at construction. Keys written into a store behind the engine's back are modelled only through a direct update of `stores`, as `Scenario.LoseStore` does.
- Orphaned copies: an overwriting `put` leaves the old copies in their stores, and the model keeps them too. Nothing reclaims them.
- The reverse lookup is a parameter. The model proves `_del` and `_post` for any lookup `string -> Option<string>`, and ships the identity lookup the source uses.

## Findings

| source | as written | input that shows it | evidently intended | confidence | as-written member | corrected member |
|---|---|---|---|---|---|---|
| src/index.ts:100 | `unique_vals.slice(1).map(this.post)` passes `post` without its object, so `this.put` inside `post` is not the engine's and the call throws a TypeError; `get` then rejects whenever two copies disagree | a record whose two copies hold `"a"` and `"b"`: found values `["a", "b"]` | post each outvoted value as a new record and return the majority value | not executed | Records.GetOutcomeAsWritten, Records.CollisionDiverges | Records.GetOutcome, Multiplexer.LevelMultiplexer.Get |

# BookHashTable in Dafny

A model of `BookHashTable`: a hash table from `String` keys to `Book` records. It uses chained buckets, and its buckets are an array of lazily created `ArrayList<Node>`. Keys are compared with `equalsIgnoreCase` and placed by `Math.abs(key.hashCode()) % capacity`.

The table grows to `2 * capacity + 1` slots at the start of every `insert` when `numKeys / table.length` has reached the load factor threshold. It then re-inserts every stored book through `insert` and undoes each count with `numKeys--`.

## Files

- `books.dfy` (module `Books`): Java's nullable reference as `Option`. The three checked exceptions become `Error`, carried by `Result` and `Outcome`. `Book` is an opaque record that knows its own key.
- `chains.dfy` (module `Chains`): the table as a value, `Table = seq<Option<seq<Node>>>`, where `None` is a null bucket. It defines:
  - ASCII case folding and `EqualsIgnoreCase`;
  - the slot of a key, and the first case-insensitive match in a bucket;
  - `Entries` (every stored node, slot by slot), `Present` and `Lookup`;
  - `Append` (a successful insert) and `Delete` (a remove);
  - `WellFormed`: every node sits in its key's slot, and no two nodes of a bucket match.

  The lemmas relate these definitions to each other.
- `resizing.dfy` (module `Resizing`): the growth rule `ShouldResize` and the rehash as a value. `Reinsert` is one re-insertion through `insert`, including the exceptions it swallows. It also defines `Rehash` and `AfterCapacityCheck`, with the lemmas about counts and contents across a resize.
- `keys.dfy` (module `KeyDiscipline`): the key discipline under which the count stays exact. Every node is stored under its book's own key, and no two keys anywhere in the table are equal ignoring case. The lemmas show that the capacity check, the append of a fresh key and remove all keep it. It also defines `CheckedInsert`, the insert that refuses a key already in the table wherever it sits (see Findings).
- `book_hash_table.dfy` (module `BookHashTables`): the class `BookHashTable`.
  - State: the Java fields `capacity`, `loadFactorThreshold`, `numKeys` and `table`, with `table` an `array<Option<seq<Node>>>`.
  - Methods: one per Java operation, with the scanning loops of the source.
  - Contracts: each operation is proved against the value-level definitions above.
- `scenarios.dfy`: the example runs of the JUnit suite, on a table of capacity 2 and threshold 0.49. Module `Scenarios` drives the class, including the insert-many loop. Module `ExampleTables` holds the value-level facts those runs need.

`String.hashCode` is a parameter of the model: the constant `hashCode` of the class, given to the constructor. Its type `HashCode` excludes `Integer.MIN_VALUE`, whose `Math.abs` is negative in Java.

### Class invariants
- `Shaped()`:
  - `capacity == table.Length`;
  - every node sits in its key's slot;
  - no bucket holds two case-insensitively equal keys.
- `Valid()`: `Shaped()`, and `numKeys` is at least the number of stored nodes.
- `Counted()`: `numKeys` equals the number of stored nodes. It is a separate predicate because the rehash of the source can lose nodes while keeping `numKeys` (see `RehashCanDrop`).
- `Keyed()`: every node is stored under its book's own key, and no two stored keys are equal ignoring case. `Insert` of a book under its own key, when that key matches no stored key, keeps it and keeps `Counted()`. `Remove` always keeps it.

## Model

| member | source | states |
|---|---|---|
| BookHashTables.BookHashTable.constructor | BookHashTable.java:99-104 | a new table has `capacity` slots, all null, no keys, the given threshold; it is valid and counted |
| BookHashTables.BookHashTable.Default | BookHashTable.java:87-89 | the default constructor builds 101 null slots with threshold 0.75 |
| BookHashTables.BookHashTable.HashFunction | BookHashTable.java:112-116 | the index lies in `[0, capacity)` and equals `hashCode(key) % capacity` when the hash code is non-negative |
| BookHashTables.BookHashTable.PlaceEntry | BookHashTable.java:143-172 | scanning key's bucket: the result is Pass exactly when no case-insensitive match is present. On Pass the table becomes `Append` (node added at the end of the bucket, a null bucket created) and `numKeys` grows by one; otherwise nothing changes |
| BookHashTables.BookHashTable.CheckCapacity | BookHashTable.java:294-325 | when `numKeys / length >= threshold` the array is replaced by a fresh one of `2 * capacity + 1` slots holding the rehash of the old contents; otherwise table and capacity are unchanged; `numKeys` is never changed and the invariant is kept |
| BookHashTables.BookHashTable.Resize | BookHashTable.java:298-324 | the outer loop over the old array leaves exactly `Rehash(old table, 2 * capacity + 1)` in a fresh array, with `numKeys` restored; the load factor at the new capacity stays below the threshold throughout |
| BookHashTables.BookHashTable.ReinsertBucket | BookHashTable.java:310-321 | re-inserting one old bucket node by node (insert under `value.getKey()`, then `numKeys--`) yields `ReinsertAll` of that bucket and leaves `numKeys` as it was |
| BookHashTables.BookHashTable.Insert | BookHashTable.java:132-173 | a null key fails with IllegalNullKey and changes nothing. Otherwise the capacity check runs first, then the key is refused as a duplicate (table = checked table, count kept) exactly when a case-insensitive match is present in its bucket, else it is appended, counted, and found by get. A book inserted under its own key that matches no stored key is accepted, and `Keyed()` and `Counted()` are kept |
| BookHashTables.BookHashTable.Remove | BookHashTable.java:182-215 | a null key fails with IllegalNullKey; otherwise the answer is whether a match was present, the table becomes `Delete` (first match cut out of its bucket), `numKeys` drops by one exactly when true, the key is no longer found, and `Counted()` and `Keyed()` are kept |
| BookHashTables.BookHashTable.Get | BookHashTable.java:225-258 | a null key fails with IllegalNullKey; otherwise the result is the value of the first case-insensitive match in key's bucket, or KeyNotFound when the bucket is null or has none; nothing changes |
| BookHashTables.BookHashTable.NumKeys | BookHashTable.java:266-268 | the count is at least the number of stored nodes, and equal to it on a counted table |
| BookHashTables.BookHashTable.GetCapacity | BookHashTable.java:286-288 | `table.length` equals the `capacity` that the hash function uses, and is positive |
| BookHashTables.BookHashTable.GetCollisionResolutionScheme | BookHashTable.java:333-335 | the scheme code lies in 1..9 |
| Chains.Folded | BookHashTable.java:162 | case folding keeps the length of the key |
| Chains.Slot | BookHashTable.java:112-116 | a slot lies in `[0, capacity)` and is `hash % capacity` for a non-negative hash |
| Chains.FirstMatch | BookHashTable.java:161-165 | the index found is a case-insensitive match with no match before it; None means no node of the bucket matches |
| Chains.FirstMatchAt | BookHashTable.java:204-208 | a loop that stops at the first match has found `FirstMatch` |
| Chains.FirstMatchNone | BookHashTable.java:249-257 | a loop that runs through the bucket without a match has found none |
| Chains.EntriesUpdate | BookHashTable.java:169-170 | replacing one bucket changes the stored nodes by exactly the old bucket out and the new bucket in |
| Chains.EntriesMember | BookHashTable.java:41 | a node is stored exactly when some bucket holds it |
| Chains.AppendEntries | BookHashTable.java:151-172 | a successful insert adds exactly one node `Node(key, value)` to the stored nodes |
| Chains.AppendWellFormed | BookHashTable.java:146-170 | appending an absent key keeps every node in its slot and every bucket free of matching keys |
| Chains.LookupAppend | BookHashTable.java:146-172 | after inserting an absent key, get returns the new value for every key that matches it in the same slot, and what it returned before for every other key |
| Chains.DeleteEntries | BookHashTable.java:204-208 | remove takes out at most one stored node, exactly one when the key was present |
| Chains.DeleteWellFormed | BookHashTable.java:204-207 | cutting a node out of its bucket keeps placement and in-bucket distinctness |
| Chains.DeleteAt | BookHashTable.java:204-207 | the node cut at the first matching position is what `Delete` removes, and the key was present |
| Chains.DeleteFacts | BookHashTable.java:195-214 | on a well-formed table remove keeps it well-formed, drops the count of nodes by one exactly when present, and leaves the key absent |
| Chains.LookupDelete | BookHashTable.java:204-208 | after remove, get finds nothing for keys matching the removed key in its slot, and the same as before for every other key |
| Chains.RemovedMatchLeavesNone | BookHashTable.java:204-207 | in a bucket without duplicate keys, cutting out the match leaves no other match |
| Chains.RemovedMatchKeepsOthers | BookHashTable.java:204-207 | cutting out a node that does not match a key keeps that key's first match, shifted by one when it came after the cut |
| Chains.InsertRemoveRoundTrip | BookHashTable.java:146-214 | inserting an absent key and then removing it restores the table, except that a null bucket is left as an empty list |
| Chains.LookupFindsEntries | BookHashTable.java:239-252 | on a well-formed table, get finds every stored node under its key |
| Chains.CaseVariantsCoexist | BookHashTable.java:161-165 | duplicate detection is per bucket: "ABC" and "abc" hashed to different slots are both stored and both found |
| Resizing.EmptyTable | BookHashTable.java:103 | a new bucket array has the requested length and only null slots |
| Resizing.ReinsertAll | BookHashTable.java:308-321 | re-inserting a sequence of nodes never changes the number of slots |
| Resizing.Rehash | BookHashTable.java:299-302 | the rehashed table has the new capacity |
| Resizing.ReinsertAllConcat | BookHashTable.java:308-321 | re-inserting `es` and then `fs` is re-inserting `es + fs`, so bucket-by-bucket order is the order of `Entries` |
| Resizing.RehashSlotStep | BookHashTable.java:308-321 | one more old slot processed by the outer loop is one more slot's nodes re-inserted |
| Resizing.AfterCapacityCheckGrows | BookHashTable.java:297-302 | at or above the threshold, the checked table is the rehash into `2 * length + 1` slots and holds no more nodes than before |
| Resizing.AfterCapacityCheckStays | BookHashTable.java:297 | below the threshold the table is untouched |
| Resizing.EmptyTableWellFormed | BookHashTable.java:103 | an all-null array is well-formed and stores nothing |
| Resizing.ReinsertAllWellFormed | BookHashTable.java:308-321 | re-inserting through insert keeps the table well-formed and adds at most one node per re-insertion |
| Resizing.ReinsertWellFormed | BookHashTable.java:311-320 | one re-insertion (kept, or dropped on a null key or a duplicate) keeps the table well-formed and adds at most one node |
| Resizing.RehashWellFormed | BookHashTable.java:297-323 | the rehash has the new capacity, is well-formed, and holds at most as many nodes as the old table |
| Resizing.ReinsertAllKeepsAll | BookHashTable.java:308-321 | when every node is stored under its book's own key and no two keys match, re-inserting them loses none: same nodes |
| Resizing.RehashKeepsAll | BookHashTable.java:297-323 | under the same condition the rehash keeps exactly the old nodes and get still finds every one |
| Resizing.RehashKeepsCount | BookHashTable.java:308-323 | under the same condition the rehash keeps the number of nodes, so `numKeys` stays right |
| Resizing.CapacityCheckKeepsCount | BookHashTable.java:294-325 | under the same condition the capacity check keeps the number of nodes |
| Resizing.InsertKeepsCount | BookHashTable.java:132-173 | under the same condition a counted table stays counted through insert: the check keeps the count and an accepted key adds exactly one |
| Resizing.RehashCanDrop | BookHashTable.java:311-320 | a well-formed two-node table ("ABC" and "abc" in different slots) rehashed into 5 slots where both keys share a slot keeps only one node: the swallowed DuplicateKeyException loses an entry while `numKeys` is kept |
| KeyDiscipline.KeysOfPart | BookHashTable.java:26 | any part of a table's nodes (a sub-multiset) keeps the key discipline |
| KeyDiscipline.NoMatchOfPart | BookHashTable.java:161-165 | a key matching no node matches no node of any part of them |
| KeyDiscipline.NoMatchAdd | BookHashTable.java:169-170 | a key matching neither the nodes nor the added node matches none of the nodes after the add |
| KeyDiscipline.ExtendKeys | BookHashTable.java:169 | one more node under its book's own key and matching no node keeps the discipline |
| KeyDiscipline.RehashKeepsKeys | BookHashTable.java:297-323 | under the discipline, the rehash keeps exactly the nodes and the discipline |
| KeyDiscipline.CheckKeepsKeys | BookHashTable.java:294-325 | under the discipline, the capacity check keeps the nodes, their number and the discipline, and a key matching no node is absent from its bucket after it |
| KeyDiscipline.AppendKeepsKeys | BookHashTable.java:166-172 | appending a book under its own key that matches no node keeps the discipline |
| KeyDiscipline.DeleteKeepsKeys | BookHashTable.java:204-208 | remove keeps the discipline |
| KeyDiscipline.InsertKeepsKeys | BookHashTable.java:132-173 | under the discipline, insert of a book under its own fresh key passes the duplicate test, adds exactly its node and keeps the discipline |
| KeyDiscipline.CheckedInsertKeepsKeys | BookHashTable.java:129 | the insert that checks the whole table refuses exactly the keys already in the table ignoring case, adds exactly one node otherwise, and keeps the discipline for every book inserted under its own key |
| Scenarios.OneBook | BookHashTableTest.java:104-110 | on the capacity-2, threshold-0.49 table the first insert passes, keeps capacity 2 and counts one key |
| Scenarios.TwoBooks | BookHashTableTest.java:118-126 | a second key not matching the first passes after the table has grown to 5 slots; two keys |
| Scenarios.ResizeScenario | BookHashTableTest.java:118-126 | capacity is 2 after one insert and 5 after two, both keys are counted and both books are found |
| Scenarios.NullKeyScenario | BookHashTableTest.java:174-183 | a null key fails with IllegalNullKey on insert, get and remove, and the count is unchanged |
| Scenarios.DuplicateScenario | BookHashTableTest.java:190-226 | a second insert under the first key fails with DuplicateKey, the count stays 1 and get still returns the first book |
| Scenarios.RemoveScenario | BookHashTableTest.java:268-284 | after two inserts, removing the first key answers true, get then fails with KeyNotFound, and removing it again answers false |
| Scenarios.LaterKeysFree | BookHashTableTest.java:66-71 | after inserting book i, the keys of the books after it are still absent |
| Scenarios.InsertNext | BookHashTableTest.java:68-70 | one round of the insert-many loop: the next book is accepted and the loop state (counted, keyed, load factor bounded, later keys absent) moves on by one |
| Scenarios.InsertMany | BookHashTableTest.java:163-166 | books with distinct keys inserted one by one into the capacity-2, threshold-0.49 table are all accepted, and `numKeys` equals their number, however often the table grows |
| ExampleTables.GrowthSettles | BookHashTable.java:297-302 | at threshold 0.49, capacity at least 2 and fewer than `0.49 * capacity + 1` keys, a resize settles in one step, and one more key keeps that bound after the check |
| ExampleTables.RatioBelow | BookHashTable.java:297 | the load factor reaches the threshold exactly when `numKeys >= threshold * length` |
| ExampleTables.EmptyStays | BookHashTableTest.java:118-121 | no resize on the first insert into the empty capacity-2 table |
| ExampleTables.EmptyLacks | BookHashTableTest.java:91-94 | an empty table holds no key |
| ExampleTables.FirstEntries | BookHashTableTest.java:104-110 | after one insert exactly one node is stored |
| ExampleTables.FirstLookup | BookHashTableTest.java:148-153 | after one insert get returns the inserted book |
| ExampleTables.SecondInsertGrows | BookHashTableTest.java:118-126 | load factor 1/2 reaches 0.49, and 1/5 does not, so the grown table does not grow again |
| ExampleTables.RehashKeepsFirst | BookHashTableTest.java:118-126 | the resize before the second insert keeps the first book findable |
| ExampleTables.SecondInsert | BookHashTableTest.java:268-275 | a second, non-matching key is absent after the resize, and inserting it keeps the first book findable |

## Left out

- I/O: `BookParser`, `books.csv` and the fields of `Book` are not modelled. A book is an opaque record with its own nullable key. The `System.out.println("Error")` in the rehash's catch blocks is modelled only as the entry not being re-inserted.
- `String.hashCode` is a parameter of the model, with 32-bit values except `Integer.MIN_VALUE`. Java's actual string hash is not modelled, so no concrete bucket layout of real keys is derived.
- `equalsIgnoreCase` is modelled with ASCII case folding only. Java's Unicode case mapping is not modelled.
- The load factor test uses exact `real` division. IEEE double rounding is not modelled.
- Integer overflow of `numKeys`, of `capacity * 2 + 1` and of the array length is not modelled. All are unbounded integers.
- BookHashTables.BookHashTable.constructor: requires `initialCapacity > 0`. With a negative capacity, Java's `new ArrayList[this.capacity]` at line 103 throws `NegativeArraySizeException`. With capacity 0, the array is empty and `hashFunction` later divides by zero. The model reproduces neither exception.
- BookHashTables.BookHashTable.Insert: requires `ResizeSettles()` for a non-null key: if the table grows, the grown table is below the threshold. Java's rehash calls `insert`, which runs `checkCapacity` again. A nested resize inside a resize is therefore possible for small thresholds, and the model does not cover it. The requirement also excludes a threshold at or below 0, where even the first insert into an empty table resizes. Java does that without a nested resize, since the old array holds nothing to re-insert, but the model does not cover those inserts either (for example `new BookHashTable(2, 0.0)` followed by an insert).
- BookHashTables.BookHashTable.CheckCapacity: requires `ResizeSettles()` for the same reason as `Insert`, since a resize that triggers another one inside its own re-insertions is not modelled.
- BookHashTables.BookHashTable.Resize and ReinsertBucket: each requires that the load factor at the new capacity is below the threshold, which is what `ResizeSettles()` gives them. They are the loops of `checkCapacity` and are only called from it.
- BookHashTables.BookHashTable.Insert: the exact count is promised only under `Keyed()` and for a book inserted under its own key that matches no stored key. Without that, the rehash can lose nodes while keeping `numKeys` (see Findings), and `Valid()` only bounds `numKeys` from below.
- Null book values: the class documentation at line 27 allows a null value, but the model's `Book` is never null. In Java, `insert(k, null)` stores the node and `get(k)` returns null. The next resize, however, calls `temp.getKey()` on that null value at line 313. The `NullPointerException` is caught by neither catch block, so it escapes `insert`. By then the array has been replaced (lines 301-302) and only partly refilled, so the nodes not yet re-inserted are lost while `numKeys` is kept. None of this is modelled.
- The `catch (Exception e)` paths of `get` and `remove` are not modelled. They could only be reached through an out-of-range index, which the hash function's range rules out.
- `ArrayList.add` and `ArrayList.remove(i)` on a bucket are modelled by assigning a new sequence to the array slot. No two slots share a bucket object, so aliasing between buckets is not modelled.
- `Resize` and `ReinsertBucket` are the outer and inner loops of `checkCapacity`, split into two methods. The inner call to `insert` is modelled by `PlaceEntry`, which is `insert` after its null check and capacity check. The capacity check is a no-op there under `ResizeSettles()`.
- `loadFactorThreshold` and the hash code are `const` fields, since nothing assigns them after construction.
- `getLoadFactorThreshold` is modelled as `GetLoadFactorThreshold`. It returns the field and carries no further contract.
- `getCollisionResolutionScheme` is modelled by the constant 4. Its contract states only the range 1..9 that the test suite checks.
- The commented-out ISBN hash in `hashFunction` is dead code and is not modelled.

## Findings

| source | as written | input that shows it | evidently intended | confidence | as-written member | corrected member |
|---|---|---|---|---|---|---|
| BookHashTable.java:161-165 | `insert` looks for a case-insensitive duplicate only in the key's own bucket, while line 26 calls the key a unique identifier and line 129 promises `DuplicateKeyException` for a key already in the hashtable. The rehash at lines 311-320 re-inserts every book through `insert` and swallows both exceptions, so once two case variants share a bucket one of them is lost and `numKeys` still counts it | `new BookHashTable(165, 0.01)`; insert "ABC" (hash 64578, slot 63) and "abc" (hash 96354, slot 159): both are accepted. A third insert finds 2/165 >= 0.01 and resizes to 331 slots, where both keys hash to slot 33. The second re-insert throws the swallowed `DuplicateKeyException`, so one node is lost while `numKeys` still counts it | a key equal ignoring case to any stored key is refused, so no rehash loses a node and `numKeys` stays exact | not executed | Chains.CaseVariantsCoexist, Resizing.RehashCanDrop | KeyDiscipline.CheckedInsertKeepsKeys |

The class models the code as written. Under the discipline that the checked insert keeps (`Keyed()`), the rehash loses nothing (`Resizing.RehashKeepsAll`, `Resizing.RehashKeepsCount`), and the class's `Insert` accepts a book whose key matches no stored key and keeps `Keyed()` and `Counted()`, as `CheckedInsert` does.

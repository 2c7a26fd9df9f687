/** Client runs of the table that mirror its test suite: a fresh table of
    capacity 2 and load factor threshold 0.49, filled through the public
    operations. */
module Scenarios {
  import opened Books
  import opened Chains
  import opened Resizing
  import opened BookHashTables
  import opened KeyDiscipline
  import opened ExampleTables

  /** A fresh table of capacity 2 and threshold 0.49 after one insert:
      nothing is resized, the insert passes and the book is stored. */
  method OneBook(hash: HashCode, b1: Book) returns (table: BookHashTable, r1: Outcome)
    requires b1.key.Some?
    ensures fresh(table) && fresh(table.table) && table.Valid()
    ensures table.hashCode == hash && table.loadFactorThreshold == 0.49
    ensures r1 == Pass && table.capacity == 2 && table.numKeys == 1
    ensures table.table[..] == Append(EmptyTable(2), hash, b1.key.value, b1)
  {
    table := new BookHashTable(2, 0.49, hash);
    EmptyStays(hash);
    EmptyLacks(hash, b1.key.value);
    r1 := table.Insert(b1.key, b1);
  }

  /** The same table after a second insert under a key that does not match
      the first: the load factor 1/2 has reached 0.49, so the table first
      grows to 5 slots, then the second book is appended. */
  method TwoBooks(hash: HashCode, b1: Book, b2: Book)
    returns (table: BookHashTable, cap1: int, r2: Outcome)
    requires b1.key.Some? && b2.key.Some? && !EqualsIgnoreCase(b1.key.value, b2.key.value)
    ensures fresh(table) && fresh(table.table) && table.Valid()
    ensures table.hashCode == hash && table.loadFactorThreshold == 0.49
    ensures cap1 == 2 && r2 == Pass && table.capacity == 5 && table.numKeys == 2
    ensures var g := Rehash(Append(EmptyTable(2), hash, b1.key.value, b1), hash, 5);
      table.table[..] == Append(g, hash, b2.key.value, b2)
  {
    var r1;
    table, r1 := OneBook(hash, b1);
    cap1 := table.GetCapacity();
    SecondInsertGrows();
    SecondInsert(hash, b1.key.value, b1, b2.key.value, b2);
    FirstKeys(hash, b1.key.value, b1);
    r2 := table.Insert(b2.key, b2);
  }

  /** The resize example: the capacity is 2 after the first insert and 5
      after the second, both books are counted and both are found. */
  method ResizeScenario(hash: HashCode, b1: Book, b2: Book)
    returns (cap1: int, cap2: int, size: int, g1: Result<Book>, g2: Result<Book>)
    requires b1.key.Some? && b2.key.Some? && !EqualsIgnoreCase(b1.key.value, b2.key.value)
    ensures cap1 == 2 && cap2 == 5 && size == 2
    ensures g1 == Success(b1) && g2 == Success(b2)
  {
    var table, r2;
    table, cap1, r2 := TwoBooks(hash, b1, b2);
    SecondInsert(hash, b1.key.value, b1, b2.key.value, b2);
    LookupAppend(Rehash(Append(EmptyTable(2), hash, b1.key.value, b1), hash, 5),
                 hash, b2.key.value, b2, b2.key.value);
    cap2 := table.GetCapacity();
    size := table.NumKeys();
    g1 := table.Get(b1.key);
    g2 := table.Get(b2.key);
  }

  /** The null-key examples: a null key is refused by insert, get and
      remove alike, and the table is left as it was. */
  method NullKeyScenario(hash: HashCode, b1: Book)
    returns (n: Outcome, gn: Result<Book>, rn: Result<bool>, size: int)
    requires b1.key.Some?
    ensures n == Fail(IllegalNullKey) && gn == Failure(IllegalNullKey) && rn == Failure(IllegalNullKey)
    ensures size == 1
  {
    var table, r1 := OneBook(hash, b1);
    n := table.Insert(None, b1);
    gn := table.Get(None);
    rn := table.Remove(None);
    size := table.NumKeys();
  }

  /** The duplicate-key example: a second book under the first one's key is
      refused (after the capacity check has grown the table), and the count
      and the stored book stay as they were. */
  method DuplicateScenario(hash: HashCode, b1: Book, b2: Book)
    returns (d: Outcome, size: int, g: Result<Book>)
    requires b1.key.Some?
    ensures d == Fail(DuplicateKey) && size == 1 && g == Success(b1)
  {
    var table, r1 := OneBook(hash, b1);
    SecondInsertGrows();
    RehashKeepsFirst(hash, b1.key.value, b1);
    d := table.Insert(b1.key, b2);
    size := table.NumKeys();
    g := table.Get(b1.key);
  }

  /** The removal examples: after two inserts and the removal of the first
      key, get no longer finds it, and removing it again answers false. */
  method RemoveScenario(hash: HashCode, b1: Book, b2: Book)
    returns (removed: Result<bool>, g: Result<Book>, again: Result<bool>)
    requires b1.key.Some? && b2.key.Some? && !EqualsIgnoreCase(b1.key.value, b2.key.value)
    ensures removed == Success(true) && g == Failure(KeyNotFound) && again == Success(false)
  {
    var table, cap1, r2 := TwoBooks(hash, b1, b2);
    SecondInsert(hash, b1.key.value, b1, b2.key.value, b2);
    removed := table.Remove(b1.key);
    g := table.Get(b1.key);
    again := table.Remove(b1.key);
  }

  /** Books whose keys are all present and pairwise unequal ignoring case. */
  ghost predicate DistinctKeys(books: seq<Book>)
  {
    (forall i :: 0 <= i < |books| ==> books[i].key.Some?) &&
    forall i, j :: 0 <= i < j < |books| && books[i].key.Some? && books[j].key.Some? ==>
      !EqualsIgnoreCase(books[i].key.value, books[j].key.value)
  }

  /** The state of the insert-many loop after its first i books: all of
      them counted, the key discipline kept, the load factor bounded so the
      next resize settles, and no later book's key stored yet. */
  ghost predicate Filled(table: BookHashTable, hash: HashCode, books: seq<Book>, i: nat)
    reads table, table.table
  {
    i <= |books| &&
    table.Valid() && table.Counted() && table.Keyed() &&
    table.hashCode == hash && table.loadFactorThreshold == 0.49 &&
    table.numKeys == i && table.capacity >= 2 &&
    (i as real) < 0.49 * (table.capacity as real) + 1.0 &&
    forall k :: i <= k < |books| ==>
      books[k].key.Some? && NoKeyMatches(Entries(table.table[..]), books[k].key.value)
  }

  /** Adding one more book with its own key keeps every later book's key
      absent. */
  lemma LaterKeysFree(before: seq<Node>, after: seq<Node>, books: seq<Book>, i: nat)
    requires DistinctKeys(books) && i < |books|
    requires multiset(after) == multiset(before) + multiset{Node(books[i].key.value, books[i])}
    requires forall k :: i + 1 <= k < |books| ==> NoKeyMatches(before, books[k].key.value)
    ensures forall k :: i + 1 <= k < |books| ==> NoKeyMatches(after, books[k].key.value)
  {
    forall k | i + 1 <= k < |books|
      ensures NoKeyMatches(after, books[k].key.value)
    {
      NoMatchAdd(before, after, Node(books[i].key.value, books[i]), books[k].key.value);
    }
  }

  /** One round of the insert-many loop: the next book is accepted and the
      loop state moves on by one. */
  method InsertNext(table: BookHashTable, ghost hash: HashCode, books: seq<Book>, i: nat)
    returns (r: Outcome)
    requires DistinctKeys(books) && i < |books| && Filled(table, hash, books, i)
    modifies table, table.table
    ensures r == Pass && Filled(table, hash, books, i + 1)
    ensures table.table == old(table.table) || fresh(table.table)
  {
    ghost var t, c := table.table[..], table.capacity;
    GrowthSettles(i, c);
    r := table.Insert(books[i].key, books[i]);
    InsertKeepsKeys(t, hash, i, 0.49, books[i].key.value, books[i]);
    LaterKeysFree(Entries(t), Entries(table.table[..]), books, i);
  }

  /** The insert-many example: books with distinct keys, inserted one after
      another under their own keys into a fresh table of capacity 2 and
      threshold 0.49, are all accepted and all counted, however often the
      table grows on the way. */
  method InsertMany(hash: HashCode, books: seq<Book>) returns (results: seq<Outcome>, size: int)
    requires DistinctKeys(books)
    ensures |results| == |books| && forall i :: 0 <= i < |books| ==> results[i] == Pass
    ensures size == |books|
  {
    var table := new BookHashTable(2, 0.49, hash);
    results := [];
    var i := 0;
    while i < |books|
      invariant 0 <= i <= |books| && |results| == i
      invariant forall k :: 0 <= k < i ==> results[k] == Pass
      invariant fresh(table) && fresh(table.table)
      invariant Filled(table, hash, books, i)
    {
      var r := InsertNext(table, hash, books, i);
      results := results + [r];
      i := i + 1;
    }
    size := table.NumKeys();
  }
}

/** The tables the scenarios pass through, on values: an empty 2-slot table,
    the same after one insert, and its rehash into 5 slots. */
module ExampleTables {
  import opened Books
  import opened Chains
  import opened Resizing

  /** A table with no keys is not resized by its first insert. */
  lemma EmptyStays(hash: HashCode)
    ensures AfterCapacityCheck(EmptyTable(2), hash, 0, 0.49) == EmptyTable(2)
  {
    AfterCapacityCheckStays(EmptyTable(2), hash, 0, 0.49);
  }

  /** No key is present in an empty table. */
  lemma EmptyLacks(hash: HashCode, key: string)
    ensures !Present(EmptyTable(2), hash, key)
  {
    assert FirstMatch(BucketAt(EmptyTable(2), Slot(hash, key, 2)), key) == None;
  }

  /** The first insert leaves exactly one entry in the table. */
  lemma FirstEntries(hash: HashCode, key: string, b: Book)
    ensures Entries(Append(EmptyTable(2), hash, key, b)) == [Node(key, b)]
  {
    AppendEntries(EmptyTable(2), hash, key, b);
    var es := Entries(Append(EmptyTable(2), hash, key, b));
    assert |es| == 1 && es[0] in multiset(es);
  }

  /** The one entry after the first insert is stored under its book's own
      key, so no two entries share a key. */
  lemma FirstKeys(hash: HashCode, key: string, b: Book)
    requires b.key == Some(key)
    ensures KeysOwn(Entries(Append(EmptyTable(2), hash, key, b)))
    ensures KeysDistinct(Entries(Append(EmptyTable(2), hash, key, b)))
  {
    FirstEntries(hash, key, b);
    assert KeyAt(Entries(Append(EmptyTable(2), hash, key, b)), 0) == key;
  }

  /** After the first insert, get finds the book under its key. */
  lemma FirstLookup(hash: HashCode, key: string, b: Book)
    ensures Lookup(Append(EmptyTable(2), hash, key, b), hash, key) == Some(b)
  {
    FirstEntries(hash, key, b);
    EmptyTableWellFormed(2, hash);
    EmptyLacks(hash, key);
    AppendWellFormed(EmptyTable(2), hash, key, b);
    LookupFindsEntries(Append(EmptyTable(2), hash, key, b), hash, Node(key, b));
  }

  /** One key in 2 slots reaches the threshold 0.49; in 5 slots it does not. */
  lemma SecondInsertGrows()
    ensures ShouldResize(1, 2, 0.49) && !ShouldResize(1, 5, 0.49)
  {
  }

  /** The rehash of the one-entry table into 5 slots keeps the first book,
      which it re-inserts under the book's own key. */
  lemma RehashKeepsFirst(hash: HashCode, key: string, b: Book)
    requires b.key == Some(key)
    ensures var g := Rehash(Append(EmptyTable(2), hash, key, b), hash, 5);
      multiset(Entries(g)) == multiset([Node(key, b)]) && Lookup(g, hash, key) == Some(b)
  {
    var t1 := Append(EmptyTable(2), hash, key, b);
    FirstEntries(hash, key, b);
    assert KeyAt(Entries(t1), 0) == key;
    RehashKeepsAll(t1, hash, 5);
  }

  /** The second key, which does not match the first, is absent from the
      rehashed table, and inserting it keeps the first book reachable. */
  lemma SecondInsert(hash: HashCode, k1: string, b1: Book, k2: string, b2: Book)
    requires b1.key == Some(k1) && !EqualsIgnoreCase(k1, k2)
    ensures var g := Rehash(Append(EmptyTable(2), hash, k1, b1), hash, 5);
      !Present(g, hash, k2) && Lookup(Append(g, hash, k2, b2), hash, k1) == Some(b1)
  {
    var g := Rehash(Append(EmptyTable(2), hash, k1, b1), hash, 5);
    RehashKeepsFirst(hash, k1, b1);
    NoMatchYet(g, hash, [Node(k1, b1)], k2);
    LookupAppend(g, hash, k2, b2, k1);
  }

  /** With capacity at least 2 and fewer than 0.49 * capacity + 1 keys, a
      resize at threshold 0.49 settles in one step, and one more key keeps
      the bound at the capacity after the check. */
  lemma GrowthSettles(n: int, c: int)
    requires c >= 2 && (n as real) < 0.49 * (c as real) + 1.0
    ensures ShouldResize(n, c, 0.49) ==> !ShouldResize(n, 2 * c + 1, 0.49)
    ensures ShouldResize(n, c, 0.49) ==> ((n + 1) as real) < 0.49 * ((2 * c + 1) as real) + 1.0
    ensures !ShouldResize(n, c, 0.49) ==> ((n + 1) as real) < 0.49 * (c as real) + 1.0
  {
    RatioBelow(n, c, 0.49);
    RatioBelow(n, 2 * c + 1, 0.49);
  }

  /** The load factor reaches the threshold exactly when numKeys reaches
      threshold * capacity. */
  lemma RatioBelow(n: int, c: int, th: real)
    requires c > 0
    ensures ShouldResize(n, c, th) <==> (n as real) >= th * (c as real)
  {
    var q := n as real / c as real;
    assert q * (c as real) == n as real;
  }
}

/** BookHashTable: a hash table from String keys to books, an array of
    lazily created buckets (chained collision resolution) that grows by a
    full rehash once the load factor reaches a threshold. */
module BookHashTables {
  import opened Books
  import opened Chains
  import opened Resizing
  import opened KeyDiscipline

  /** Capacity and load factor threshold of the default constructor. */
  const DefaultCapacity: int := 101
  const DefaultLoadFactorThreshold: real := 0.75

  class BookHashTable {
    var capacity: int
    const loadFactorThreshold: real
    /** Number of keys in the table. */
    var numKeys: int
    /** The buckets; None is a bucket not yet created. */
    var table: array<Option<seq<Node>>>
    /** String.hashCode, as the hash function sees it. */
    const hashCode: HashCode

    /** The structure every operation keeps: capacity is the array's length,
        every node sits in the bucket its key hashes to, and no bucket holds
        two keys equal ignoring case. */
    ghost predicate Shaped()
      reads this, table
    {
      capacity == table.Length && WellFormed(table[..], hashCode)
    }

    /** Shaped, and numKeys never counts fewer keys than the buckets hold
        (a rehash that drops an entry leaves numKeys as it was). */
    ghost predicate Valid()
      reads this, table
    {
      Shaped() && |Entries(table[..])| <= numKeys
    }

    /** numKeys is exactly the number of entries in the buckets. */
    ghost predicate Counted()
      reads this, table
    {
      numKeys == |Entries(table[..])|
    }

    /** Every entry is stored under its book's own key, and no two entries
        have keys equal ignoring case anywhere in the table. */
    ghost predicate Keyed()
      reads this, table
    {
      KeysOwn(Entries(table[..])) && KeysDistinct(Entries(table[..]))
    }

    /** A resize triggered now would not trigger a second one when the rehash
        re-inserts the entries through insert. */
    ghost predicate ResizeSettles()
      reads this
    {
      capacity > 0 &&
      (ShouldResize(numKeys, capacity, loadFactorThreshold) ==>
         !ShouldResize(numKeys, 2 * capacity + 1, loadFactorThreshold))
    }

    /** An empty table with the given capacity and load factor threshold. */
    constructor (initialCapacity: int, loadFactorThreshold: real, hashCode: HashCode)
      requires initialCapacity > 0
      ensures Valid() && Counted() && fresh(table)
      ensures capacity == initialCapacity && numKeys == 0
      ensures this.loadFactorThreshold == loadFactorThreshold && this.hashCode == hashCode
      ensures table[..] == EmptyTable(initialCapacity)
    {
      this.loadFactorThreshold := loadFactorThreshold;
      this.hashCode := hashCode;
      capacity := initialCapacity;
      numKeys := 0;
      table := new Option<seq<Node>>[initialCapacity](_ => None);
      new;
      FreshTable(table[..], hashCode);
    }

    /** An empty table with capacity 101 and load factor threshold 0.75. */
    constructor Default(hashCode: HashCode)
      ensures Valid() && Counted() && fresh(table)
      ensures capacity == DefaultCapacity && numKeys == 0
      ensures loadFactorThreshold == DefaultLoadFactorThreshold && this.hashCode == hashCode
      ensures table[..] == EmptyTable(DefaultCapacity)
    {
      loadFactorThreshold := DefaultLoadFactorThreshold;
      this.hashCode := hashCode;
      capacity := DefaultCapacity;
      numKeys := 0;
      table := new Option<seq<Node>>[DefaultCapacity](_ => None);
      new;
      FreshTable(table[..], hashCode);
    }

    /** The index of key's bucket under the current capacity. */
    function HashFunction(key: string): (index: nat)
      reads this
      requires capacity > 0
      ensures index < capacity
      ensures hashCode(key) >= 0 ==> index == hashCode(key) % capacity
    {
      Slot(hashCode, key, capacity)
    }

    /** The tail of insert, after the capacity check: scan key's bucket for a
        case-insensitive match (DuplicateKeyException), otherwise append the
        new node, creating the bucket if needed, and count it. */
    method PlaceEntry(key: string, value: Book) returns (r: Outcome)
      requires Shaped()
      modifies this`numKeys, table
      ensures Shaped()
      ensures r == Pass || r == Fail(DuplicateKey)
      ensures r == Pass <==> !Present(old(table[..]), hashCode, key)
      ensures table[..] == if r == Pass then Append(old(table[..]), hashCode, key, value)
                           else old(table[..])
      ensures numKeys == old(numKeys) + (if r == Pass then 1 else 0)
    {
      ghost var t := table[..];
      var index := HashFunction(key);
      // a null bucket is created empty
      var bucket: seq<Node> := [];
      if table[index].Some? {
        bucket := table[index].value;
        var i := 0;
        while i < |bucket|
          invariant 0 <= i <= |bucket|
          invariant forall k :: 0 <= k < i ==> !EqualsIgnoreCase(bucket[k].key, key)
        {
          if EqualsIgnoreCase(bucket[i].key, key) {
            FirstMatchAt(bucket, key, i);
            assert bucket == BucketAt(t, Slot(hashCode, key, |t|));
            return Fail(DuplicateKey);
          }
          i := i + 1;
        }
      }
      assert bucket == BucketAt(t, Slot(hashCode, key, |t|));
      FirstMatchNone(bucket, key);
      table[index] := Some(bucket + [Node(key, value)]);
      assert table[..] == Append(t, hashCode, key, value);
      numKeys := numKeys + 1;
      AppendWellFormed(t, hashCode, key, value);
      r := Pass;
    }

    /** checkCapacity: when numKeys / table.length has reached the threshold,
        the table is resized and rehashed; otherwise nothing changes. */
    method CheckCapacity()
      requires Valid() && ResizeSettles()
      modifies this
      ensures Valid()
      ensures numKeys == old(numKeys)
      ensures table[..] == AfterCapacityCheck(old(table[..]), hashCode, old(numKeys), loadFactorThreshold)
      ensures if ShouldResize(old(numKeys), old(capacity), loadFactorThreshold)
              then fresh(table) && capacity == 2 * old(capacity) + 1
              else table == old(table) && capacity == old(capacity)
    {
      ghost var t := table[..];
      if ShouldResize(numKeys, table.Length, loadFactorThreshold) {
        Resize();
        AfterCapacityCheckGrows(t, hashCode, numKeys, loadFactorThreshold);
      } else {
        AfterCapacityCheckStays(t, hashCode, numKeys, loadFactorThreshold);
      }
    }

    /** The resizing branch of checkCapacity: the old array is kept aside, a
        new one of 2 * capacity + 1 null buckets replaces it, and every entry
        of the old array is re-inserted through insert, slot by slot; the
        capacity check of those inserts must not fire again. */
    method Resize()
      requires Shaped() && capacity > 0
      requires !ShouldResize(numKeys, 2 * capacity + 1, loadFactorThreshold)
      modifies this
      ensures Shaped() && fresh(table)
      ensures capacity == 2 * old(capacity) + 1 && numKeys == old(numKeys)
      ensures table[..] == Rehash(old(table[..]), hashCode, capacity)
    {
      ghost var t := table[..];
      var tempTable := table;
      table := new Option<seq<Node>>[capacity * 2 + 1](_ => None);
      capacity := capacity * 2 + 1;
      assert !ShouldResize(numKeys, capacity, loadFactorThreshold);
      ghost var empty := table[..];
      FreshTable(empty, hashCode);
      assert t[..0] == [];
      var i := 0;
      while i < tempTable.Length
        invariant 0 <= i <= tempTable.Length
        invariant tempTable[..] == t && fresh(table)
        invariant capacity == 2 * old(capacity) + 1 && numKeys == old(numKeys)
        invariant !ShouldResize(numKeys, capacity, loadFactorThreshold)
        invariant Shaped()
        invariant table[..] == ReinsertAll(empty, hashCode, Entries(t[..i]))
      {
        RehashSlotStep(empty, hashCode, t, i);
        ghost var done := table[..];
        if tempTable[i] != None {
          ReinsertBucket(tempTable[i].value);
        } else {
          assert ReinsertAll(done, hashCode, BucketAt(t, i)) == done;
        }
        assert table[..] == ReinsertAll(done, hashCode, BucketAt(t, i));
        i := i + 1;
      }
      assert t[..i] == t;
    }

    /** The inner loop of the rehash: each node of one old bucket re-inserted
        through insert, whose IllegalNullKeyException and DuplicateKeyException
        are caught; its count is undone, since the rehash adds no keys. The
        capacity check of those inserts finds the load factor below the
        threshold and does nothing. */
    method ReinsertBucket(bucket: seq<Node>)
      requires Shaped() && !ShouldResize(numKeys, capacity, loadFactorThreshold)
      modifies this`numKeys, table
      ensures Shaped() && numKeys == old(numKeys)
      ensures table[..] == ReinsertAll(old(table[..]), hashCode, bucket)
    {
      assert bucket[..0] == [];
      var j := 0;
      while j < |bucket|
        invariant 0 <= j <= |bucket|
        invariant Shaped() && numKeys == old(numKeys)
        invariant table[..] == ReinsertAll(old(table[..]), hashCode, bucket[..j])
      {
        var temp := bucket[j].value;
        assert bucket[..j + 1][..j] == bucket[..j];
        if temp.key.Some? {
          var r := PlaceEntry(temp.key.value, temp);
          if r == Pass {
            numKeys := numKeys - 1;
          }
        }
        j := j + 1;
      }
      assert bucket[..|bucket|] == bucket;
    }

    /** insert: a null key throws IllegalNullKeyException before anything
        else; then the capacity check runs (and may resize); then the key is
        rejected as a duplicate when its bucket under the new capacity holds
        a case-insensitive match, or else appended and counted. */
    method Insert(key: Option<string>, value: Book) returns (r: Outcome)
      requires Valid()
      requires key.Some? ==> ResizeSettles()
      modifies this, table
      ensures Valid() && (table == old(table) || fresh(table))
      ensures key == None ==>
        r == Fail(IllegalNullKey) && unchanged(this) && unchanged(table)
      ensures key.Some? ==>
        var grown := AfterCapacityCheck(old(table[..]), hashCode, old(numKeys), loadFactorThreshold);
        capacity == |grown| &&
        capacity == (if ShouldResize(old(numKeys), old(capacity), loadFactorThreshold)
                     then 2 * old(capacity) + 1 else old(capacity)) &&
        (r == Pass <==> !Present(grown, hashCode, key.value)) &&
        (r != Pass ==> r == Fail(DuplicateKey) && table[..] == grown && numKeys == old(numKeys)) &&
        (r == Pass ==> table[..] == Append(grown, hashCode, key.value, value) &&
                       numKeys == old(numKeys) + 1)
      ensures key.Some? && r == Pass ==> Lookup(table[..], hashCode, key.value) == Some(value)
      ensures (key.Some? && value.key == key && old(Keyed()) &&
               NoKeyMatches(Entries(old(table[..])), key.value)) ==>
        r == Pass && Keyed() && (old(Counted()) ==> Counted())
    {
      if key.None? {
        return Fail(IllegalNullKey);
      }
      ghost var t, n := table[..], numKeys;
      CheckCapacity();
      ghost var grown := table[..];
      r := PlaceEntry(key.value, value);
      if r == Pass {
        AppendEntries(grown, hashCode, key.value, value);
        LookupAppend(grown, hashCode, key.value, value, key.value);
      }
      if value.key == key && old(Keyed()) && NoKeyMatches(Entries(t), key.value) {
        InsertKeepsKeys(t, hashCode, n, loadFactorThreshold, key.value, value);
        assert grown == AfterCapacityCheck(t, hashCode, n, loadFactorThreshold);
        assert r == Pass && table[..] == Append(grown, hashCode, key.value, value);
      }
    }

    /** remove: a null key throws IllegalNullKeyException; otherwise the
        first case-insensitive match in key's bucket is taken out, numKeys
        goes down and the answer is true, or nothing changes and the answer is
        false. */
    method Remove(key: Option<string>) returns (r: Result<bool>)
      requires Valid()
      modifies this`numKeys, table
      ensures Valid()
      ensures key == None ==>
        r == Failure(IllegalNullKey) && numKeys == old(numKeys) && table[..] == old(table[..])
      ensures key.Some? ==>
        r == Success(Present(old(table[..]), hashCode, key.value)) &&
        table[..] == Delete(old(table[..]), hashCode, key.value) &&
        numKeys == old(numKeys) - (if r.value then 1 else 0)
      ensures key.Some? ==> Lookup(table[..], hashCode, key.value) == None
      ensures old(Counted()) ==> Counted()
      ensures old(Keyed()) ==> Keyed()
    {
      if key.None? {
        return Failure(IllegalNullKey);
      }
      ghost var t := table[..];
      var index := HashFunction(key.value);
      // a null bucket holds no match
      var b: seq<Node> := [];
      if table[index].Some? {
        b := table[index].value;
        var i := 0;
        while i < |b|
          invariant 0 <= i <= |b|
          invariant forall k :: 0 <= k < i ==> !EqualsIgnoreCase(b[k].key, key.value)
        {
          if EqualsIgnoreCase(b[i].key, key.value) {
            assert b == BucketAt(t, index);
            DeleteAt(t, hashCode, key.value, i);
            table[index] := Some(b[..i] + b[i + 1..]);
            assert table[..] == t[index := Some(b[..i] + b[i + 1..])];
            DeleteFacts(t, hashCode, key.value);
            if old(Keyed()) {
              DeleteKeepsKeys(t, hashCode, key.value);
            }
            numKeys := numKeys - 1;
            return Success(true);
          }
          i := i + 1;
        }
      }
      assert b == BucketAt(t, Slot(hashCode, key.value, |t|));
      FirstMatchNone(b, key.value);
      DeleteFacts(t, hashCode, key.value);
      return Success(false);
    }

    /** get: a null key throws IllegalNullKeyException; otherwise the value of
        the first case-insensitive match in key's bucket, or
        KeyNotFoundException when the bucket is absent or has no match. */
    method Get(key: Option<string>) returns (r: Result<Book>)
      requires Valid()
      ensures key == None ==> r == Failure(IllegalNullKey)
      ensures key.Some? ==>
        match Lookup(table[..], hashCode, key.value)
        case Some(b) => r == Success(b)
        case None => r == Failure(KeyNotFound)
    {
      if key.None? {
        return Failure(IllegalNullKey);
      }
      var index := HashFunction(key.value);
      var bucket := table[index];
      if bucket.None? {
        return Failure(KeyNotFound);
      }
      var b := bucket.value;
      var i := 0;
      while i < |b|
        invariant 0 <= i <= |b|
        invariant forall k :: 0 <= k < i ==> !EqualsIgnoreCase(b[k].key, key.value)
      {
        if EqualsIgnoreCase(b[i].key, key.value) {
          FirstMatchAt(b, key.value, i);
          return Success(b[i].value);
        }
        i := i + 1;
      }
      FirstMatchNone(b, key.value);
      return Failure(KeyNotFound);
    }

    /** numKeys(): never fewer than the entries the buckets hold, and exactly
        that many while the count is exact. */
    function NumKeys(): (n: int)
      reads this, table
      requires Valid()
      ensures n >= |Entries(table[..])|
      ensures Counted() ==> n == |Entries(table[..])|
    {
      numKeys
    }

    function GetLoadFactorThreshold(): real
    {
      loadFactorThreshold
    }

    /** getCapacity() answers table.length, which is the capacity the hash
        function reduces by. */
    function GetCapacity(): (c: int)
      reads this, table
      requires Valid()
      ensures c == capacity && c > 0
    {
      table.Length
    }

    /** The collision resolution scheme, as a code in 1..9: 4 is an array of
        lists. */
    function GetCollisionResolutionScheme(): (scheme: int)
      ensures 1 <= scheme <= 9
    {
      4
    }
  }
}

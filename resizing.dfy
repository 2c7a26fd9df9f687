/** The capacity check that runs at the start of every insert and the full
    rehash it triggers, as functions on table values, with what a rehash keeps
    and what it can lose. */
module Resizing {
  import opened Books
  import opened Chains

  /** The growth test: (double) numKeys / table.length >= loadFactorThreshold. */
  predicate ShouldResize(numKeys: int, length: int, threshold: real)
    requires length > 0
  {
    numKeys as real / length as real >= threshold
  }

  /** A freshly allocated bucket array: every slot null. */
  function EmptyTable(n: nat): (t: Table)
    ensures |t| == n && forall i :: 0 <= i < n ==> t[i] == None
  {
    seq(n, _ => None)
  }

  /** What one re-insertion of the rehash, insert(value.getKey(), value),
      does to the new table. A null key (IllegalNullKeyException) and a key
      already matched in its new bucket (DuplicateKeyException) are caught,
      so in both cases the entry is dropped. */
  ghost function Reinsert(t: Table, hash: HashCode, n: Node): Table
    requires |t| > 0
  {
    match n.value.key
    case None => t
    case Some(k) => if Present(t, hash, k) then t else Append(t, hash, k, n.value)
  }

  /** The entries es re-inserted one after the other, in order. */
  ghost function ReinsertAll(t: Table, hash: HashCode, es: seq<Node>): (r: Table)
    requires |t| > 0
    ensures |r| == |t|
  {
    if es == [] then t
    else Reinsert(ReinsertAll(t, hash, es[..|es| - 1]), hash, es[|es| - 1])
  }

  /** Re-inserting es and then fs is re-inserting es + fs. */
  lemma {:induction false} ReinsertAllConcat(t: Table, hash: HashCode, es: seq<Node>, fs: seq<Node>)
    requires |t| > 0
    ensures ReinsertAll(ReinsertAll(t, hash, es), hash, fs) == ReinsertAll(t, hash, es + fs)
  {
    if fs == [] {
      assert es + fs == es;
    } else {
      var m := |fs| - 1;
      ReinsertAllConcat(t, hash, es, fs[..m]);
      assert (es + fs)[..|es| + m] == es + fs[..m];
    }
  }

  /** The rehash: a new array of the given capacity into which every entry of
      the old one is re-inserted, slot by slot and bucket by bucket. */
  ghost function Rehash(t: Table, hash: HashCode, capacity: nat): (r: Table)
    requires capacity > 0
    ensures |r| == capacity
  {
    ReinsertAll(EmptyTable(capacity), hash, Entries(t))
  }

  /** The table as checkCapacity leaves it: rehashed into 2 * length + 1
      slots when the load factor has reached the threshold, untouched
      otherwise. */
  ghost function AfterCapacityCheck(t: Table, hash: HashCode, numKeys: int, threshold: real): Table
    requires |t| > 0
  {
    if ShouldResize(numKeys, |t|, threshold) then Rehash(t, hash, 2 * |t| + 1) else t
  }

  /** The rehash loop re-inserts the old table slot by slot: one more
      slot's bucket extends the entries re-inserted so far. */
  lemma RehashSlotStep(empty: Table, hash: HashCode, t: Table, i: nat)
    requires |empty| > 0 && i < |t|
    ensures ReinsertAll(ReinsertAll(empty, hash, Entries(t[..i])), hash, BucketAt(t, i)) ==
            ReinsertAll(empty, hash, Entries(t[..i + 1]))
  {
    ReinsertAllConcat(empty, hash, Entries(t[..i]), BucketAt(t, i));
    EntriesSnoc(t, i);
  }

  /** The capacity check rehashes into 2 * length + 1 slots once the
      threshold is reached, and the result holds no more entries than the
      table did. */
  lemma AfterCapacityCheckGrows(t: Table, hash: HashCode, numKeys: int, threshold: real)
    requires |t| > 0 && ShouldResize(numKeys, |t|, threshold)
    ensures AfterCapacityCheck(t, hash, numKeys, threshold) == Rehash(t, hash, 2 * |t| + 1)
    ensures |Entries(AfterCapacityCheck(t, hash, numKeys, threshold))| <= |Entries(t)|
  {
    RehashWellFormed(t, hash, 2 * |t| + 1);
  }

  /** The capacity check leaves a table below the threshold as it is. */
  lemma AfterCapacityCheckStays(t: Table, hash: HashCode, numKeys: int, threshold: real)
    requires |t| > 0 && !ShouldResize(numKeys, |t|, threshold)
    ensures AfterCapacityCheck(t, hash, numKeys, threshold) == t
  {
  }

  /** The key entry p of es is stored under. The two predicates below are
      triggered on it only, so that they are consulted where a proof names
      an entry's key and not at every index of a sequence of entries. */
  ghost function KeyAt(es: seq<Node>, p: nat): string
    requires p < |es|
  {
    es[p].key
  }

  /** Every entry is stored under its book's own key. */
  ghost predicate KeysOwn(es: seq<Node>)
  {
    forall p {:trigger KeyAt(es, p)} :: 0 <= p < |es| ==> es[p].value.key == Some(KeyAt(es, p))
  }

  /** No two entries have keys equal ignoring case. */
  ghost predicate KeysDistinct(es: seq<Node>)
  {
    forall p, q {:trigger KeyAt(es, p), KeyAt(es, q)} :: 0 <= p < q < |es| ==>
      !EqualsIgnoreCase(KeyAt(es, p), KeyAt(es, q))
  }

  // ---------------------------------------------------------------------

  lemma {:induction false} EmptyTableWellFormed(n: nat, hash: HashCode)
    requires n > 0
    ensures WellFormed(EmptyTable(n), hash) && Entries(EmptyTable(n)) == []
  {
    EntriesOfEmpty(EmptyTable(n));
  }

  /** A table whose every slot is null is the freshly allocated one: well
      formed and without entries. */
  lemma FreshTable(e: Table, hash: HashCode)
    requires |e| > 0 && forall i :: 0 <= i < |e| ==> e[i] == None
    ensures e == EmptyTable(|e|) && WellFormed(e, hash) && Entries(e) == []
  {
    EntriesOfEmpty(e);
  }

  lemma {:induction false} EntriesOfEmpty(t: Table)
    requires forall i :: 0 <= i < |t| ==> t[i] == None
    ensures Entries(t) == []
  {
    if t != [] {
      EntriesOfEmpty(t[..|t| - 1]);
    }
  }

  /** Re-inserting keeps a table well formed, and never adds more entries
      than it re-inserts. */
  lemma {:induction false} ReinsertAllWellFormed(t: Table, hash: HashCode, es: seq<Node>)
    requires WellFormed(t, hash)
    ensures WellFormed(ReinsertAll(t, hash, es), hash)
    ensures |Entries(ReinsertAll(t, hash, es))| <= |Entries(t)| + |es|
  {
    if es != [] {
      var r := ReinsertAll(t, hash, es[..|es| - 1]);
      ReinsertAllWellFormed(t, hash, es[..|es| - 1]);
      var e := es[|es| - 1];
      assert ReinsertAll(t, hash, es) == Reinsert(r, hash, e);
      ReinsertWellFormed(r, hash, e);
    }
  }

  /** One re-insertion keeps a table well formed and adds at most one entry. */
  lemma ReinsertWellFormed(t: Table, hash: HashCode, e: Node)
    requires WellFormed(t, hash)
    ensures WellFormed(Reinsert(t, hash, e), hash)
    ensures |Entries(Reinsert(t, hash, e))| <= |Entries(t)| + 1
  {
    match e.value.key
    case None =>
      assert Reinsert(t, hash, e) == t;
    case Some(k) =>
      if Present(t, hash, k) {
        assert Reinsert(t, hash, e) == t;
      } else {
        assert Reinsert(t, hash, e) == Append(t, hash, k, e.value);
        AppendWellFormed(t, hash, k, e.value);
        AppendEntries(t, hash, k, e.value);
      }
  }

  /** The rehash yields a well-formed table of the new capacity that holds at
      most the entries of the old one. */
  lemma RehashWellFormed(t: Table, hash: HashCode, capacity: nat)
    requires capacity > 0
    ensures |Rehash(t, hash, capacity)| == capacity
    ensures WellFormed(Rehash(t, hash, capacity), hash)
    ensures |Entries(Rehash(t, hash, capacity))| <= |Entries(t)|
  {
    EmptyTableWellFormed(capacity, hash);
    ReinsertAllWellFormed(EmptyTable(capacity), hash, Entries(t));
  }

  /** When every entry is stored under its book's key and no two keys match
      ignoring case, re-inserting into an empty table loses nothing. */
  lemma {:induction false} ReinsertAllKeepsAll(n: nat, hash: HashCode, es: seq<Node>)
    requires n > 0 && KeysOwn(es) && KeysDistinct(es)
    ensures multiset(Entries(ReinsertAll(EmptyTable(n), hash, es))) == multiset(es)
  {
    EmptyTableWellFormed(n, hash);
    if es != [] {
      var m := |es| - 1;
      var front, e := es[..m], es[m];
      assert es == front + [e];
      forall p | 0 <= p < |front|
        ensures KeyAt(front, p) == KeyAt(es, p)
        ensures front[p].value.key == Some(KeyAt(front, p))
        ensures !EqualsIgnoreCase(front[p].key, e.key)
      {
        assert KeyAt(es, p) == front[p].key && KeyAt(es, m) == e.key;
      }
      assert KeysOwn(front) && KeysDistinct(front);
      ReinsertAllKeepsAll(n, hash, front);
      var r := ReinsertAll(EmptyTable(n), hash, front);
      assert ReinsertAll(EmptyTable(n), hash, es) == Reinsert(r, hash, e);
      assert KeyAt(es, m) == e.key;
      NoMatchYet(r, hash, front, e.key);
      assert Reinsert(r, hash, e) == Append(r, hash, e.key, e.value);
      assert e == Node(e.key, e.value);
      AppendEntries(r, hash, e.key, e.value);
    }
  }

  /** A key that matches none of the entries re-inserted so far is not yet
      present in the table being filled. */
  lemma NoMatchYet(r: Table, hash: HashCode, front: seq<Node>, key: string)
    requires |r| > 0 && multiset(Entries(r)) == multiset(front)
    requires forall p :: 0 <= p < |front| ==> !EqualsIgnoreCase(front[p].key, key)
    ensures !Present(r, hash, key)
  {
    var b := BucketAt(r, Slot(hash, key, |r|));
    forall j | 0 <= j < |b|
      ensures !EqualsIgnoreCase(b[j].key, key)
    {
      EntriesMember(r, b[j]);
      assert b[j] in multiset(front);
      var p :| 0 <= p < |front| && front[p] == b[j];
    }
    FirstMatchNone(b, key);
  }

  /** Under the same conditions the rehash keeps exactly the old entries,
      and get finds each of them under its key in the new table. */
  lemma RehashKeepsAll(t: Table, hash: HashCode, capacity: nat)
    requires capacity > 0 && KeysOwn(Entries(t)) && KeysDistinct(Entries(t))
    ensures multiset(Entries(Rehash(t, hash, capacity))) == multiset(Entries(t))
    ensures forall x :: x in Entries(t) ==>
      Lookup(Rehash(t, hash, capacity), hash, x.key) == Some(x.value)
  {
    ReinsertAllKeepsAll(capacity, hash, Entries(t));
    RehashWellFormed(t, hash, capacity);
    forall x | x in Entries(t)
      ensures Lookup(Rehash(t, hash, capacity), hash, x.key) == Some(x.value)
    {
      assert x in multiset(Entries(Rehash(t, hash, capacity)));
      LookupFindsEntries(Rehash(t, hash, capacity), hash, x);
    }
  }

  /** Under the same conditions the rehash and so the capacity check keep
      the number of entries. */
  lemma RehashKeepsCount(t: Table, hash: HashCode, capacity: nat)
    requires capacity > 0 && KeysOwn(Entries(t)) && KeysDistinct(Entries(t))
    ensures |Entries(Rehash(t, hash, capacity))| == |Entries(t)|
  {
    ReinsertAllKeepsAll(capacity, hash, Entries(t));
    SameLength(Entries(Rehash(t, hash, capacity)), Entries(t));
  }

  lemma CapacityCheckKeepsCount(t: Table, hash: HashCode, numKeys: int, threshold: real)
    requires |t| > 0 && KeysOwn(Entries(t)) && KeysDistinct(Entries(t))
    ensures |Entries(AfterCapacityCheck(t, hash, numKeys, threshold))| == |Entries(t)|
  {
    if ShouldResize(numKeys, |t|, threshold) {
      RehashKeepsCount(t, hash, 2 * |t| + 1);
    }
  }

  /** insert keeps numKeys equal to the number of stored entries, as long as
      every entry is stored under its book's own key and no two keys match:
      the capacity check keeps every entry, and a key that is then absent
      adds exactly one. */
  lemma InsertKeepsCount(t: Table, hash: HashCode, numKeys: int, threshold: real,
                         key: string, value: Book)
    requires |t| > 0 && numKeys == |Entries(t)|
    requires KeysOwn(Entries(t)) && KeysDistinct(Entries(t))
    ensures var g := AfterCapacityCheck(t, hash, numKeys, threshold);
      numKeys == |Entries(g)| &&
      (!Present(g, hash, key) ==> numKeys + 1 == |Entries(Append(g, hash, key, value))|)
  {
    var g := AfterCapacityCheck(t, hash, numKeys, threshold);
    CapacityCheckKeepsCount(t, hash, numKeys, threshold);
    AppendEntries(g, hash, key, value);
  }

  /** Sequences with the same elements have the same length. */
  lemma SameLength<T>(a: seq<T>, b: seq<T>)
    requires multiset(a) == multiset(b)
    ensures |a| == |b|
  {
    assert |multiset(a)| == |a|;
  }

  /** Without those conditions a rehash can drop an entry: "ABC" and "abc",
      stored in different buckets of a 2-slot table, meet in one bucket of
      the 5-slot table and the second is rejected as a duplicate. */
  lemma RehashCanDrop(b1: Book, b2: Book)
    requires b1.key == Some("ABC") && b2.key == Some("abc")
    ensures var t: Table := [Some([Node("ABC", b1)]), Some([Node("abc", b2)])];
      WellFormed(t, SplitHash) && |Entries(t)| == 2 &&
      |Entries(Rehash(t, SplitHash, 5))| == 1
  {
    SplitTable(b1, b2);
    var r1 := SplitRehash(b1, b2);
    EntriesOnlyFirst(r1, [Node("ABC", b1)]);
  }

  /** The 2-slot table of RehashCanDrop is well formed and holds both. */
  lemma SplitTable(b1: Book, b2: Book)
    ensures var t: Table := [Some([Node("ABC", b1)]), Some([Node("abc", b2)])];
      WellFormed(t, SplitHash) && Entries(t) == [Node("ABC", b1), Node("abc", b2)]
  {
    var n1, n2 := Node("ABC", b1), Node("abc", b2);
    var t: Table := [Some([n1]), Some([n2])];
    SplitHashSlots();
    EntriesOfTwo([n1], [n2]);
    assert BucketAt(t, 0) == [n1] && BucketAt(t, 1) == [n2];
  }

  /** The two re-insertions of the rehash in RehashCanDrop, one at a time. */
  lemma SplitRehash(b1: Book, b2: Book) returns (r1: Table)
    requires b1.key == Some("ABC") && b2.key == Some("abc")
    ensures r1 == EmptyTable(5)[0 := Some([Node("ABC", b1)])]
    ensures ReinsertAll(EmptyTable(5), SplitHash, [Node("ABC", b1), Node("abc", b2)]) == r1
  {
    var n1, n2 := Node("ABC", b1), Node("abc", b2);
    SplitHashSlots();
    var e := EmptyTable(5);
    assert FirstMatch([], "ABC") == None;
    r1 := Append(e, SplitHash, "ABC", b1);
    assert ReinsertAll(e, SplitHash, [n1]) == r1 by {
      assert [n1][..0] == [];
    }
    assert r1 == e[0 := Some([n1])] by {
      assert BucketAt(e, 0) == [] && [] + [n1] == [n1];
    }
    assert BucketAt(r1, 0) == [n1];
    assert FirstMatch([n1], "abc") == Some(0);
    assert [n1, n2][..1] == [n1];
  }

  /** The entries of a table whose only bucket is in slot 0. */
  lemma {:induction false} EntriesOnlyFirst(t: Table, b: seq<Node>)
    requires |t| > 0 && t[0] == Some(b)
    requires forall i :: 1 <= i < |t| ==> t[i] == None
    ensures Entries(t) == b
  {
    if |t| == 1 {
      assert t[..0] == [];
    } else {
      EntriesOnlyFirst(t[..|t| - 1], b);
    }
  }
}

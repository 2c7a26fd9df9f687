/** The key discipline under which the table's count stays exact: every
    entry is stored under its book's own key and no two entries have keys
    equal ignoring case. Insert of a fresh key, the rehash and remove all
    keep it, so the exact count carries over any sequence of operations. */
module KeyDiscipline {
  import opened Books
  import opened Chains
  import opened Resizing

  /** No stored entry has a key equal to key ignoring case. */
  ghost predicate NoKeyMatches(es: seq<Node>, key: string)
  {
    forall p {:trigger KeyAt(es, p)} :: 0 <= p < |es| ==> !EqualsIgnoreCase(KeyAt(es, p), key)
  }

  /** A value occurring twice in b occurs twice in a. */
  lemma AtTwo<T>(b: seq<T>, p: nat, q: nat)
    requires p < q < |b| && b[p] == b[q]
    ensures multiset(b)[b[p]] >= 2
  {
    assert b == b[..q] + [b[q]] + b[q + 1..];
    assert b[..q][p] == b[p];
    assert b[p] in multiset(b[..q]);
  }

  /** A value counted twice sits at two positions. */
  lemma {:induction false} TwoPositions<T>(a: seq<T>, x: T)
    requires multiset(a)[x] >= 2
    ensures exists i, j :: 0 <= i < j < |a| && a[i] == x && a[j] == x
  {
    assert a != [];
    assert a == [a[0]] + a[1..];
    if a[0] == x {
      assert x in multiset(a[1..]);
      var j :| 0 <= j < |a[1..]| && a[1..][j] == x;
      assert a[j + 1] == x;
    } else {
      TwoPositions(a[1..], x);
      var i, j :| 0 <= i < j < |a[1..]| && a[1..][i] == x && a[1..][j] == x;
      assert a[i + 1] == x && a[j + 1] == x;
    }
  }

  /** Two positions of a sub-multiset b are matched by two distinct
      positions of a holding the same values. */
  lemma PairIn<T>(a: seq<T>, b: seq<T>, p: nat, q: nat)
    requires multiset(b) <= multiset(a) && p < q < |b|
    ensures exists i, j :: 0 <= i < |a| && 0 <= j < |a| && i != j && a[i] == b[p] && a[j] == b[q]
  {
    assert b[p] in multiset(b) && b[q] in multiset(b);
    assert b[p] in multiset(a) && b[q] in multiset(a);
    if b[p] == b[q] {
      AtTwo(b, p, q);
      TwoPositions(a, b[p]);
    } else {
      var i :| 0 <= i < |a| && a[i] == b[p];
      var j :| 0 <= j < |a| && a[j] == b[q];
    }
  }

  /** Any sub-multiset of the entries keeps the key discipline. */
  lemma KeysOfPart(a: seq<Node>, b: seq<Node>)
    requires multiset(b) <= multiset(a) && KeysOwn(a) && KeysDistinct(a)
    ensures KeysOwn(b) && KeysDistinct(b)
  {
    forall p | 0 <= p < |b|
      ensures b[p].value.key == Some(KeyAt(b, p))
    {
      assert b[p] in multiset(b);
      assert b[p] in multiset(a);
      var i :| 0 <= i < |a| && a[i] == b[p];
      assert KeyAt(a, i) == a[i].key;
    }
    forall p, q | 0 <= p < q < |b|
      ensures !EqualsIgnoreCase(KeyAt(b, p), KeyAt(b, q))
    {
      PairIn(a, b, p, q);
      var i, j :| 0 <= i < |a| && 0 <= j < |a| && i != j && a[i] == b[p] && a[j] == b[q];
      if i < j {
        assert !EqualsIgnoreCase(KeyAt(a, i), KeyAt(a, j));
      } else {
        assert !EqualsIgnoreCase(KeyAt(a, j), KeyAt(a, i));
      }
    }
  }

  /** A key matching no entry of a matches no entry of a sub-multiset. */
  lemma NoMatchOfPart(a: seq<Node>, b: seq<Node>, key: string)
    requires multiset(b) <= multiset(a) && NoKeyMatches(a, key)
    ensures NoKeyMatches(b, key)
  {
    forall p | 0 <= p < |b|
      ensures !EqualsIgnoreCase(KeyAt(b, p), key)
    {
      assert b[p] in multiset(b);
      assert b[p] in multiset(a);
      var i :| 0 <= i < |a| && a[i] == b[p];
      assert KeyAt(a, i) == a[i].key;
    }
  }

  /** A key that matches neither the entries of a nor the node n matches no
      entry once n is added. */
  lemma NoMatchAdd(a: seq<Node>, b: seq<Node>, n: Node, key: string)
    requires multiset(b) == multiset(a) + multiset{n}
    requires NoKeyMatches(a, key) && !EqualsIgnoreCase(n.key, key)
    ensures NoKeyMatches(b, key)
  {
    var ext := a + [n];
    forall p | 0 <= p < |ext|
      ensures !EqualsIgnoreCase(KeyAt(ext, p), key)
    {
      if p < |a| {
        assert KeyAt(a, p) == ext[p].key;
      }
    }
    NoMatchOfPart(ext, b, key);
  }

  /** The rehash keeps the entries and the key discipline. */
  lemma RehashKeepsKeys(t: Table, hash: HashCode, capacity: nat)
    requires capacity > 0 && KeysOwn(Entries(t)) && KeysDistinct(Entries(t))
    ensures multiset(Entries(Rehash(t, hash, capacity))) == multiset(Entries(t))
    ensures KeysOwn(Entries(Rehash(t, hash, capacity)))
    ensures KeysDistinct(Entries(Rehash(t, hash, capacity)))
  {
    RehashKeepsAll(t, hash, capacity);
    KeysOfPart(Entries(t), Entries(Rehash(t, hash, capacity)));
  }

  /** One more node under its book's own key, matching no entry, keeps the
      discipline of a sequence of entries. */
  lemma ExtendKeys(es: seq<Node>, n: Node)
    requires KeysOwn(es) && KeysDistinct(es)
    requires n.value.key == Some(n.key) && NoKeyMatches(es, n.key)
    ensures KeysOwn(es + [n]) && KeysDistinct(es + [n])
  {
    var ext := es + [n];
    forall p | 0 <= p < |ext|
      ensures ext[p].value.key == Some(KeyAt(ext, p))
    {
      if p < |es| {
        assert KeyAt(es, p) == ext[p].key;
      }
    }
    forall p, q | 0 <= p < q < |ext|
      ensures !EqualsIgnoreCase(KeyAt(ext, p), KeyAt(ext, q))
    {
      assert KeyAt(es, p) == ext[p].key;
      if q < |es| {
        assert KeyAt(es, q) == ext[q].key;
      }
    }
  }

  /** Appending a book under its own key, when that key matches no entry,
      keeps the key discipline. */
  lemma AppendKeepsKeys(t: Table, hash: HashCode, key: string, value: Book)
    requires |t| > 0 && KeysOwn(Entries(t)) && KeysDistinct(Entries(t))
    requires value.key == Some(key) && NoKeyMatches(Entries(t), key)
    ensures KeysOwn(Entries(Append(t, hash, key, value)))
    ensures KeysDistinct(Entries(Append(t, hash, key, value)))
  {
    ExtendKeys(Entries(t), Node(key, value));
    AppendEntries(t, hash, key, value);
    KeysOfPart(Entries(t) + [Node(key, value)], Entries(Append(t, hash, key, value)));
  }

  /** remove keeps the key discipline. */
  lemma DeleteKeepsKeys(t: Table, hash: HashCode, key: string)
    requires |t| > 0 && KeysOwn(Entries(t)) && KeysDistinct(Entries(t))
    ensures KeysOwn(Entries(Delete(t, hash, key)))
    ensures KeysDistinct(Entries(Delete(t, hash, key)))
  {
    DeleteEntries(t, hash, key);
    KeysOfPart(Entries(t), Entries(Delete(t, hash, key)));
  }

  /** The capacity check keeps the entries and the key discipline, and a key
      matching no entry before it is absent after it. */
  lemma CheckKeepsKeys(t: Table, hash: HashCode, numKeys: int, threshold: real, key: string)
    requires |t| > 0 && KeysOwn(Entries(t)) && KeysDistinct(Entries(t))
    requires NoKeyMatches(Entries(t), key)
    ensures var g := AfterCapacityCheck(t, hash, numKeys, threshold);
      multiset(Entries(g)) == multiset(Entries(t)) && |Entries(g)| == |Entries(t)| &&
      KeysOwn(Entries(g)) && KeysDistinct(Entries(g)) && !Present(g, hash, key)
  {
    var g := AfterCapacityCheck(t, hash, numKeys, threshold);
    if ShouldResize(numKeys, |t|, threshold) {
      RehashKeepsKeys(t, hash, 2 * |t| + 1);
    }
    assert multiset(Entries(g)) == multiset(Entries(t));
    SameLength(Entries(g), Entries(t));
    forall p | 0 <= p < |Entries(t)|
      ensures !EqualsIgnoreCase(Entries(t)[p].key, key)
    {
      assert KeyAt(Entries(t), p) == Entries(t)[p].key;
    }
    NoMatchYet(g, hash, Entries(t), key);
  }

  /** insert of a book under its own key, when the key matches no stored
      entry and the table keeps the discipline: the capacity check keeps the
      entries, the key is then absent, and the append adds exactly its node
      and keeps the discipline. */
  lemma InsertKeepsKeys(t: Table, hash: HashCode, numKeys: int, threshold: real,
                        key: string, value: Book)
    requires |t| > 0 && KeysOwn(Entries(t)) && KeysDistinct(Entries(t))
    requires value.key == Some(key) && NoKeyMatches(Entries(t), key)
    ensures var g := AfterCapacityCheck(t, hash, numKeys, threshold);
      var u := Append(g, hash, key, value);
      !Present(g, hash, key) &&
      multiset(Entries(u)) == multiset(Entries(t)) + multiset{Node(key, value)} &&
      |Entries(u)| == |Entries(t)| + 1 &&
      KeysOwn(Entries(u)) && KeysDistinct(Entries(u))
  {
    var g := AfterCapacityCheck(t, hash, numKeys, threshold);
    CheckKeepsKeys(t, hash, numKeys, threshold, key);
    NoMatchOfPart(Entries(t), Entries(g), key);
    AppendEntries(g, hash, key, value);
    AppendKeepsKeys(g, hash, key, value);
  }

  /** insert as its documentation describes it (a key already in the
      hashtable is refused): after the capacity check, a key matching any
      stored key ignoring case is a duplicate wherever that key sits, not
      only in its own bucket. */
  ghost function CheckedInsert(t: Table, hash: HashCode, numKeys: int, threshold: real,
                               key: string, value: Book): (Table, Outcome)
    requires |t| > 0
  {
    var g := AfterCapacityCheck(t, hash, numKeys, threshold);
    if NoKeyMatches(Entries(g), key) then (Append(g, hash, key, value), Pass)
    else (g, Fail(DuplicateKey))
  }

  /** The checked insert keeps the key discipline and the count for every
      book inserted under its own key: it refuses exactly the keys matching a
      stored key, and an accepted key adds exactly one entry. */
  lemma CheckedInsertKeepsKeys(t: Table, hash: HashCode, numKeys: int, threshold: real,
                               key: string, value: Book)
    requires |t| > 0 && KeysOwn(Entries(t)) && KeysDistinct(Entries(t))
    requires value.key == Some(key)
    ensures var (u, o) := CheckedInsert(t, hash, numKeys, threshold, key, value);
      (o == Pass <==> NoKeyMatches(Entries(t), key)) &&
      (o != Pass ==> o == Fail(DuplicateKey)) &&
      |Entries(u)| == |Entries(t)| + (if o == Pass then 1 else 0) &&
      KeysOwn(Entries(u)) && KeysDistinct(Entries(u))
  {
    var g := AfterCapacityCheck(t, hash, numKeys, threshold);
    if NoKeyMatches(Entries(t), key) {
      CheckKeepsKeys(t, hash, numKeys, threshold, key);
      NoMatchOfPart(Entries(t), Entries(g), key);
      InsertKeepsKeys(t, hash, numKeys, threshold, key, value);
    } else {
      if ShouldResize(numKeys, |t|, threshold) {
        RehashKeepsKeys(t, hash, 2 * |t| + 1);
      }
      assert multiset(Entries(g)) == multiset(Entries(t));
      SameLength(Entries(g), Entries(t));
      if NoKeyMatches(Entries(g), key) {
        NoMatchOfPart(Entries(g), Entries(t), key);
      }
    }
  }
}

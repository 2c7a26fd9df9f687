/** The bucket array of BookHashTable as a value: slot placement, the
    per-bucket case-insensitive scan, and what insert, get and remove do to
    the buckets, with the lemmas that relate them. */
module Chains {
  import opened Books

  /** One entry of a bucket (BookHashTable.Node): the key it was inserted
      under and the book. */
  datatype Node = Node(key: string, value: Book)

  /** The slots of a table; None is a slot whose bucket was never created. */
  type Table = seq<Option<seq<Node>>>

  /** String.hashCode. The table never depends on how it is computed, only on
      its being a fixed function into the 32-bit range; Integer.MIN_VALUE is
      excluded, because Math.abs leaves it negative. */
  type HashCode = f: string -> int | forall s :: -0x7fff_ffff <= f(s) <= 0x7fff_ffff
    witness (s: string) => 0

  /** Upper-case folding of one character (ASCII letters only). */
  function ToUpper(c: char): char
  {
    if 'a' <= c <= 'z' then (c as int - 32) as char else c
  }

  /** A string with every character folded to upper case. */
  function Folded(s: string): (f: string)
    ensures |f| == |s|
  {
    if s == [] then [] else [ToUpper(s[0])] + Folded(s[1..])
  }

  /** String.equalsIgnoreCase: character by character equal after folding
      (so also of the same length). */
  predicate EqualsIgnoreCase(a: string, b: string)
  {
    Folded(a) == Folded(b)
  }

  function Abs(x: int): nat
  {
    if x < 0 then -x else x
  }

  /** hashFunction: Math.abs(key.hashCode()) % capacity. */
  function Slot(hash: HashCode, key: string, capacity: nat): (index: nat)
    requires capacity > 0
    ensures index < capacity
    ensures 0 <= hash(key) ==> index == hash(key) % capacity
  {
    Abs(hash(key)) % capacity
  }

  /** The bucket in slot i, an absent bucket read as empty. */
  function BucketAt(t: Table, i: nat): seq<Node>
    requires i < |t|
  {
    if t[i].Some? then t[i].value else []
  }

  /** Every entry of the table, slot by slot, each bucket in order. */
  ghost function Entries(t: Table): seq<Node>
  {
    if t == [] then [] else Entries(t[..|t| - 1]) + BucketAt(t, |t| - 1)
  }

  /** The index of the first node of b whose key equals key ignoring case:
      the scan insert, get and remove make of one bucket. */
  function FirstMatch(b: seq<Node>, key: string): (r: Option<nat>)
    ensures r.Some? ==> r.value < |b| && EqualsIgnoreCase(b[r.value].key, key)
    ensures r.Some? ==> forall j :: 0 <= j < r.value ==> !EqualsIgnoreCase(b[j].key, key)
    ensures r.None? ==> forall j :: 0 <= j < |b| ==> !EqualsIgnoreCase(b[j].key, key)
  {
    if b == [] then None
    else if EqualsIgnoreCase(b[0].key, key) then Some(0)
    else match FirstMatch(b[1..], key)
      case None => None
      case Some(i) => Some(i + 1)
  }

  /** The bucket key hashes to already holds a case-insensitive match. */
  ghost predicate Present(t: Table, hash: HashCode, key: string)
    requires |t| > 0
  {
    FirstMatch(BucketAt(t, Slot(hash, key, |t|)), key).Some?
  }

  /** What get finds: the value of the first match in key's bucket. */
  ghost function Lookup(t: Table, hash: HashCode, key: string): Option<Book>
    requires |t| > 0
  {
    var b := BucketAt(t, Slot(hash, key, |t|));
    match FirstMatch(b, key)
    case None => None
    case Some(i) => Some(b[i].value)
  }

  /** A successful insert: the node goes to the end of key's bucket, which is
      created if it was absent. */
  ghost function Append(t: Table, hash: HashCode, key: string, value: Book): Table
    requires |t| > 0
  {
    var s := Slot(hash, key, |t|);
    t[s := Some(BucketAt(t, s) + [Node(key, value)])]
  }

  /** remove: the first match in key's bucket is taken out; without a match
      the table is left as it was (an absent bucket stays absent). */
  ghost function Delete(t: Table, hash: HashCode, key: string): Table
    requires |t| > 0
  {
    var s := Slot(hash, key, |t|);
    var b := BucketAt(t, s);
    match FirstMatch(b, key)
    case None => t
    case Some(i) => t[s := Some(b[..i] + b[i + 1..])]
  }

  /** Every node sits in the slot its own key hashes to. */
  ghost predicate WellPlaced(t: Table, hash: HashCode)
  {
    forall i, j :: 0 <= i < |t| && 0 <= j < |BucketAt(t, i)| ==>
      Slot(hash, BucketAt(t, i)[j].key, |t|) == i
  }

  /** No two nodes of one bucket have keys equal ignoring case. */
  ghost predicate BucketsDistinct(t: Table)
  {
    forall i, j, k :: 0 <= i < |t| && 0 <= j < k < |BucketAt(t, i)| ==>
      !EqualsIgnoreCase(BucketAt(t, i)[j].key, BucketAt(t, i)[k].key)
  }

  ghost predicate WellFormed(t: Table, hash: HashCode)
  {
    |t| > 0 && WellPlaced(t, hash) && BucketsDistinct(t)
  }

  // ---------------------------------------------------------------------
  // Entries of a table

  /** Replacing one bucket replaces its nodes among the entries. */
  lemma {:induction false} EntriesUpdate(t: Table, i: nat, b: seq<Node>)
    requires i < |t|
    ensures multiset(Entries(t[i := Some(b)])) + multiset(BucketAt(t, i))
         == multiset(Entries(t)) + multiset(b)
  {
    var u := t[i := Some(b)];
    var m := |t| - 1;
    assert Entries(u) == Entries(u[..m]) + BucketAt(u, m);
    assert Entries(t) == Entries(t[..m]) + BucketAt(t, m);
    if i == m {
      assert u[..m] == t[..m];
      MultisetSwapLast(Entries(t[..m]), b, BucketAt(t, m));
    } else {
      assert u[..m] == t[..m][i := Some(b)];
      assert BucketAt(t[..m], i) == BucketAt(t, i);
      EntriesUpdate(t[..m], i, b);
      MultisetExtend(Entries(u[..m]), Entries(t[..m]), BucketAt(t, m), b, BucketAt(t, i));
    }
  }

  lemma MultisetSwapLast<T>(e: seq<T>, b: seq<T>, c: seq<T>)
    ensures multiset(e + b) + multiset(c) == multiset(e + c) + multiset(b)
  {
    calc {
      multiset(e + b) + multiset(c);
      multiset(e) + multiset(b) + multiset(c);
      multiset(e) + multiset(c) + multiset(b);
      multiset(e + c) + multiset(b);
    }
  }

  lemma MultisetExtend<T>(f: seq<T>, e: seq<T>, y: seq<T>, b: seq<T>, c: seq<T>)
    requires multiset(f) + multiset(c) == multiset(e) + multiset(b)
    ensures multiset(f + y) + multiset(c) == multiset(e + y) + multiset(b)
  {
    calc {
      multiset(f + y) + multiset(c);
      multiset(f) + multiset(y) + multiset(c);
      multiset(f) + multiset(c) + multiset(y);
      multiset(e) + multiset(b) + multiset(y);
      multiset(e + y) + multiset(b);
    }
  }

  lemma MultisetCancel<T>(a: multiset<T>, b: multiset<T>, c: multiset<T>)
    requires a + b == c + b
    ensures a == c
  {
    assert forall x :: a[x] == (a + b)[x] - b[x];
  }

  /** Entries of a prefix of the slots, one slot longer. */
  lemma EntriesSnoc(t: Table, i: nat)
    requires i < |t|
    ensures Entries(t[..i + 1]) == Entries(t[..i]) + BucketAt(t, i)
  {
    assert t[..i + 1][..i] == t[..i];
  }

  /** A node is an entry exactly when some bucket holds it. */
  lemma {:induction false} EntriesMember(t: Table, x: Node)
    ensures x in Entries(t) <==> exists i :: 0 <= i < |t| && x in BucketAt(t, i)
  {
    if t != [] {
      var m := |t| - 1;
      EntriesMember(t[..m], x);
      forall i | 0 <= i < m
        ensures BucketAt(t[..m], i) == BucketAt(t, i)
      {
      }
    }
  }

  // ---------------------------------------------------------------------
  // The bucket scan

  /** The scan stops at m when m matches and nothing before it does. */
  lemma {:induction false} FirstMatchAt(b: seq<Node>, key: string, m: nat)
    requires m < |b| && EqualsIgnoreCase(b[m].key, key)
    requires forall j :: 0 <= j < m ==> !EqualsIgnoreCase(b[j].key, key)
    ensures FirstMatch(b, key) == Some(m)
  {
    if m > 0 {
      assert !EqualsIgnoreCase(b[0].key, key);
      FirstMatchAt(b[1..], key, m - 1);
    }
  }

  /** The scan finds nothing when no node matches. */
  lemma {:induction false} FirstMatchNone(b: seq<Node>, key: string)
    requires forall j :: 0 <= j < |b| ==> !EqualsIgnoreCase(b[j].key, key)
    ensures FirstMatch(b, key) == None
  {
    if b != [] {
      assert !EqualsIgnoreCase(b[0].key, key);
      FirstMatchNone(b[1..], key);
    }
  }

  // ---------------------------------------------------------------------
  // Insert

  /** A successful insert adds exactly its own node to the entries. */
  lemma AppendEntries(t: Table, hash: HashCode, key: string, value: Book)
    requires |t| > 0
    ensures multiset(Entries(Append(t, hash, key, value)))
         == multiset(Entries(t)) + multiset{Node(key, value)}
    ensures |Entries(Append(t, hash, key, value))| == |Entries(t)| + 1
  {
    var s := Slot(hash, key, |t|);
    var b := BucketAt(t, s);
    var n := Node(key, value);
    var a := multiset(Entries(Append(t, hash, key, value)));
    EntriesUpdate(t, s, b + [n]);
    assert multiset(b + [n]) == multiset(b) + multiset{n};
    assert a + multiset(b) == multiset(Entries(t)) + multiset{n} + multiset(b);
    MultisetCancel(a, multiset(b), multiset(Entries(t)) + multiset{n});
    assert |a| == |multiset(Entries(t)) + multiset{n}| == |Entries(t)| + 1;
  }

  /** An insert that passed the duplicate check keeps every node in its slot
      and every bucket free of case-insensitive duplicates. */
  lemma AppendWellFormed(t: Table, hash: HashCode, key: string, value: Book)
    requires WellFormed(t, hash) && !Present(t, hash, key)
    ensures WellFormed(Append(t, hash, key, value), hash)
  {
    var s := Slot(hash, key, |t|);
    var u := Append(t, hash, key, value);
    var b := BucketAt(t, s);
    var c := b + [Node(key, value)];
    assert BucketAt(u, s) == c;
    forall i, j | 0 <= i < |u| && 0 <= j < |BucketAt(u, i)|
      ensures Slot(hash, BucketAt(u, i)[j].key, |u|) == i
    {
      if i == s {
        if j < |b| {
          assert c[j] == b[j];
        }
      } else {
        assert BucketAt(u, i) == BucketAt(t, i);
      }
    }
    forall i, j, k | 0 <= i < |u| && 0 <= j < k < |BucketAt(u, i)|
      ensures !EqualsIgnoreCase(BucketAt(u, i)[j].key, BucketAt(u, i)[k].key)
    {
      if i == s {
        assert c[j] == b[j];
        if k < |b| {
          assert c[k] == b[k];
        } else {
          assert !EqualsIgnoreCase(b[j].key, key);
        }
      } else {
        assert BucketAt(u, i) == BucketAt(t, i);
      }
    }
  }

  /** After an insert of key, get returns the new value for key and for every
      key that matches it in the same bucket, and what it returned before for
      every other key. */
  lemma LookupAppend(t: Table, hash: HashCode, key: string, value: Book, other: string)
    requires |t| > 0 && !Present(t, hash, key)
    ensures Lookup(Append(t, hash, key, value), hash, other)
         == if EqualsIgnoreCase(other, key) && Slot(hash, other, |t|) == Slot(hash, key, |t|)
            then Some(value) else Lookup(t, hash, other)
  {
    var s := Slot(hash, key, |t|);
    var b := BucketAt(t, s);
    var u := Append(t, hash, key, value);
    if Slot(hash, other, |t|) == s {
      var c := b + [Node(key, value)];
      assert BucketAt(u, s) == c;
      assert forall j :: 0 <= j < |b| ==> c[j] == b[j];
      if EqualsIgnoreCase(other, key) {
        FirstMatchAt(c, other, |b|);
      } else {
        match FirstMatch(b, other)
        case None =>
          FirstMatchNone(c, other);
        case Some(m) =>
          FirstMatchAt(c, other, m);
      }
    } else {
      assert BucketAt(u, Slot(hash, other, |t|)) == BucketAt(t, Slot(hash, other, |t|));
    }
  }

  // ---------------------------------------------------------------------
  // Remove

  /** Remove takes out exactly one entry when the key is present and none
      otherwise. */
  lemma DeleteEntries(t: Table, hash: HashCode, key: string)
    requires |t| > 0
    ensures multiset(Entries(Delete(t, hash, key))) <= multiset(Entries(t))
    ensures |Entries(Delete(t, hash, key))|
         == |Entries(t)| - (if Present(t, hash, key) then 1 else 0)
  {
    var s := Slot(hash, key, |t|);
    var b := BucketAt(t, s);
    match FirstMatch(b, key)
    case None =>
    case Some(i) =>
      var c := b[..i] + b[i + 1..];
      EntriesUpdate(t, s, c);
      MultisetRemoveOne(multiset(Entries(Delete(t, hash, key))), multiset(Entries(t)), b, i);
  }

  /** Taking element i out of b on one side of a balance of multisets. */
  lemma MultisetRemoveOne<T>(a: multiset<T>, e: multiset<T>, b: seq<T>, i: nat)
    requires i < |b|
    requires a + multiset(b) == e + multiset(b[..i] + b[i + 1..])
    ensures a <= e && |a| + 1 == |e|
  {
    var c := b[..i] + b[i + 1..];
    assert b == b[..i] + [b[i]] + b[i + 1..];
    assert multiset(b) == multiset(c) + multiset{b[i]};
    MultisetCancel(a + multiset{b[i]}, multiset(c), e);
  }

  /** Removing a node keeps the others in their slots and distinct. */
  lemma DeleteWellFormed(t: Table, hash: HashCode, key: string)
    requires WellFormed(t, hash)
    ensures WellFormed(Delete(t, hash, key), hash)
  {
    var s := Slot(hash, key, |t|);
    match FirstMatch(BucketAt(t, s), key)
    case None =>
    case Some(m) =>
      CutPlaced(t, hash, s, m);
      CutDistinct(t, s, m);
  }

  /** Taking node m out of bucket s keeps every node in its own slot. */
  lemma CutPlaced(t: Table, hash: HashCode, s: nat, m: nat)
    requires WellPlaced(t, hash) && s < |t| && m < |BucketAt(t, s)|
    ensures var b := BucketAt(t, s); WellPlaced(t[s := Some(b[..m] + b[m + 1..])], hash)
  {
    var b := BucketAt(t, s);
    var c := b[..m] + b[m + 1..];
    var u := t[s := Some(c)];
    forall i, j | 0 <= i < |u| && 0 <= j < |BucketAt(u, i)|
      ensures Slot(hash, BucketAt(u, i)[j].key, |u|) == i
    {
      if i == s {
        assert c[j] == b[if j < m then j else j + 1];
      } else {
        assert BucketAt(u, i) == BucketAt(t, i);
      }
    }
  }

  /** Taking node m out of bucket s keeps every bucket free of matches. */
  lemma CutDistinct(t: Table, s: nat, m: nat)
    requires BucketsDistinct(t) && s < |t| && m < |BucketAt(t, s)|
    ensures var b := BucketAt(t, s); BucketsDistinct(t[s := Some(b[..m] + b[m + 1..])])
  {
    var b := BucketAt(t, s);
    var c := b[..m] + b[m + 1..];
    var u := t[s := Some(c)];
    forall i, j, k | 0 <= i < |u| && 0 <= j < k < |BucketAt(u, i)|
      ensures !EqualsIgnoreCase(BucketAt(u, i)[j].key, BucketAt(u, i)[k].key)
    {
      if i == s {
        assert c[j] == b[if j < m then j else j + 1];
        assert c[k] == b[if k < m then k else k + 1];
      } else {
        assert BucketAt(u, i) == BucketAt(t, i);
      }
    }
  }

  /** Delete when the scan of key's bucket first matches at m. */
  lemma DeleteAt(t: Table, hash: HashCode, key: string, m: nat)
    requires |t| > 0
    requires var b := BucketAt(t, Slot(hash, key, |t|));
      m < |b| && EqualsIgnoreCase(b[m].key, key) &&
      forall j :: 0 <= j < m ==> !EqualsIgnoreCase(b[j].key, key)
    ensures var s := Slot(hash, key, |t|); var b := BucketAt(t, s);
      Present(t, hash, key) && Delete(t, hash, key) == t[s := Some(b[..m] + b[m + 1..])]
  {
    FirstMatchAt(BucketAt(t, Slot(hash, key, |t|)), key, m);
  }

  /** What remove relies on: the table stays well formed, loses exactly the
      entry it finds, and no longer holds a match for the key. */
  lemma DeleteFacts(t: Table, hash: HashCode, key: string)
    requires WellFormed(t, hash)
    ensures WellFormed(Delete(t, hash, key), hash)
    ensures |Entries(Delete(t, hash, key))| == |Entries(t)| - (if Present(t, hash, key) then 1 else 0)
    ensures Lookup(Delete(t, hash, key), hash, key) == None
  {
    DeleteWellFormed(t, hash, key);
    DeleteEntries(t, hash, key);
    LookupDelete(t, hash, key, key);
  }

  /** After remove(key), get finds nothing for key nor for any key that
      matches it in the same bucket, and other keys are unaffected. */
  lemma LookupDelete(t: Table, hash: HashCode, key: string, other: string)
    requires WellFormed(t, hash)
    ensures Lookup(Delete(t, hash, key), hash, other)
         == if EqualsIgnoreCase(other, key) && Slot(hash, other, |t|) == Slot(hash, key, |t|)
            then None else Lookup(t, hash, other)
  {
    var s := Slot(hash, key, |t|);
    var b := BucketAt(t, s);
    var so := Slot(hash, other, |t|);
    match FirstMatch(b, key)
    case None =>
      if EqualsIgnoreCase(other, key) && so == s {
        FirstMatchNone(b, other);
      }
    case Some(m) =>
      var u := Delete(t, hash, key);
      var c := b[..m] + b[m + 1..];
      assert BucketAt(u, s) == c;
      if so == s {
        if EqualsIgnoreCase(other, key) {
          RemovedMatchLeavesNone(t, s, m, other);
        } else {
          RemovedMatchKeepsOthers(b, m, other);
        }
      } else {
        assert BucketAt(u, so) == BucketAt(t, so);
      }
  }

  /** In a bucket free of duplicates, once its match for key is taken out
      nothing left matches key. */
  lemma RemovedMatchLeavesNone(t: Table, s: nat, m: nat, key: string)
    requires s < |t| && BucketsDistinct(t)
    requires m < |BucketAt(t, s)| && EqualsIgnoreCase(BucketAt(t, s)[m].key, key)
    ensures var b := BucketAt(t, s); FirstMatch(b[..m] + b[m + 1..], key) == None
  {
    var b := BucketAt(t, s);
    var c := b[..m] + b[m + 1..];
    forall j | 0 <= j < |c|
      ensures !EqualsIgnoreCase(c[j].key, key)
    {
      if j < m {
        assert c[j] == b[j];
        assert !EqualsIgnoreCase(b[j].key, b[m].key);
      } else {
        assert c[j] == b[j + 1];
        assert !EqualsIgnoreCase(b[m].key, b[j + 1].key);
      }
    }
    FirstMatchNone(c, key);
  }

  /** Taking out a node that does not match key leaves the scan for key
      finding the same node. */
  lemma RemovedMatchKeepsOthers(b: seq<Node>, m: nat, key: string)
    requires m < |b| && !EqualsIgnoreCase(b[m].key, key)
    ensures var c := b[..m] + b[m + 1..];
      match FirstMatch(b, key)
      case None => FirstMatch(c, key) == None
      case Some(k) => FirstMatch(c, key) == Some(if k < m then k else k - 1) && c[FirstMatch(c, key).value] == b[k]
  {
    var c := b[..m] + b[m + 1..];
    assert forall j :: 0 <= j < |c| ==> c[j] == b[if j < m then j else j + 1];
    match FirstMatch(b, key)
    case None =>
      FirstMatchNone(c, key);
    case Some(k) =>
      FirstMatchAt(c, key, if k < m then k else k - 1);
  }

  /** Inserting a new key and removing it again leaves the table as it was,
      except that the key's bucket now exists (possibly empty). */
  lemma InsertRemoveRoundTrip(t: Table, hash: HashCode, key: string, value: Book)
    requires |t| > 0 && !Present(t, hash, key)
    ensures var s := Slot(hash, key, |t|);
      Delete(Append(t, hash, key, value), hash, key) == t[s := Some(BucketAt(t, s))]
  {
    var s := Slot(hash, key, |t|);
    var b := BucketAt(t, s);
    var c := b + [Node(key, value)];
    var u := Append(t, hash, key, value);
    assert BucketAt(u, s) == c;
    assert forall j :: 0 <= j < |b| ==> c[j] == b[j];
    DeleteAt(u, hash, key, |b|);
    assert c[..|b|] + c[|b| + 1..] == b;
  }

  // ---------------------------------------------------------------------
  // Get

  /** In a well-formed table get finds every entry under its own key. */
  lemma LookupFindsEntries(t: Table, hash: HashCode, x: Node)
    requires WellFormed(t, hash) && x in Entries(t)
    ensures Lookup(t, hash, x.key) == Some(x.value)
  {
    EntriesMember(t, x);
    var i :| 0 <= i < |t| && x in BucketAt(t, i);
    var b := BucketAt(t, i);
    var j :| 0 <= j < |b| && b[j] == x;
    assert Slot(hash, x.key, |t|) == i;
    forall k | 0 <= k < j
      ensures !EqualsIgnoreCase(b[k].key, x.key)
    {
      assert !EqualsIgnoreCase(b[k].key, b[j].key);
    }
    FirstMatchAt(b, x.key, j);
  }

  /** A hash code under which "ABC" and "abc" share no slot of a 2-slot
      table but share slot 0 of a 5-slot one. */
  const SplitHash: HashCode := s => if s == "ABC" then 0 else 5

  lemma SplitHashSlots()
    ensures "abc" != "ABC" && EqualsIgnoreCase("ABC", "abc")
    ensures Slot(SplitHash, "ABC", 2) == 0 && Slot(SplitHash, "abc", 2) == 1
    ensures Slot(SplitHash, "ABC", 5) == 0 && Slot(SplitHash, "abc", 5) == 0
  {
    assert "abc"[0] != "ABC"[0];
    assert Folded("c") == "C" && Folded("C") == "C";
    assert Folded("bc") == "BC" && Folded("BC") == "BC";
  }

  /** The entries of a 2-slot table whose buckets both exist. */
  lemma EntriesOfTwo(a: seq<Node>, b: seq<Node>)
    ensures Entries([Some(a), Some(b)]) == a + b
  {
    var t: Table := [Some(a), Some(b)];
    assert t[..1] == [Some(a)] && t[..1][..0] == [];
    assert Entries(t[..1]) == [] + a;
  }

  /** Uniqueness is per bucket only: two keys that differ only in case can
      both be stored when they hash to different slots. */
  lemma CaseVariantsCoexist(b1: Book, b2: Book)
    ensures var t := Append(Append([None, None], SplitHash, "ABC", b1), SplitHash, "abc", b2);
      EqualsIgnoreCase("ABC", "abc") &&
      Lookup(t, SplitHash, "ABC") == Some(b1) && Lookup(t, SplitHash, "abc") == Some(b2) &&
      |Entries(t)| == 2
  {
    var n1, n2 := Node("ABC", b1), Node("abc", b2);
    var t := TwoSlotAppends(b1, b2);
    EntriesOfTwo([n1], [n2]);
    assert BucketAt(t, 0) == [n1] && BucketAt(t, 1) == [n2];
    assert FirstMatch([n1], "ABC") == Some(0) && FirstMatch([n2], "abc") == Some(0);
  }

  /** The table of CaseVariantsCoexist, one append at a time. */
  lemma TwoSlotAppends(b1: Book, b2: Book) returns (t: Table)
    ensures t == Append(Append([None, None], SplitHash, "ABC", b1), SplitHash, "abc", b2)
    ensures t == [Some([Node("ABC", b1)]), Some([Node("abc", b2)])]
  {
    SplitHashSlots();
    var n1, n2 := Node("ABC", b1), Node("abc", b2);
    var t0: Table := [None, None];
    var t1 := Append(t0, SplitHash, "ABC", b1);
    assert BucketAt(t0, 0) == [] && [] + [n1] == [n1];
    assert t1 == [Some([n1]), None];
    t := Append(t1, SplitHash, "abc", b2);
    assert BucketAt(t1, 1) == [] && [] + [n2] == [n2];
  }
}

/**
 * What the tree's algorithms do inside one node, as functions on the
 * entry sequences: a sorted insertion, the split of a full node, the
 * deletion of a record, the shift `remove_from_index` performs and the
 * concatenations of a merge. The methods of `BPlusTree` are proved against
 * these.
 */
module NodeOps {
  import opened Bytes
  import opened Keys
  import opened Blocks

  /** The sequence with `x` placed at position `pos` and everything from `pos` on moved one place right. */
  function InsertAt<T>(s: seq<T>, pos: nat, x: T): (r: seq<T>)
    requires pos <= |s|
    ensures |r| == |s| + 1 && r[pos] == x
  {
    s[..pos] + [x] + s[pos..]
  }

  /** Where `InsertAt` puts the old entry `j`: in place before `pos`, one place right from `pos` on. */
  lemma InsertAtMoves<T>(s: seq<T>, pos: nat, x: T, j: nat)
    requires pos <= |s| && j < |s|
    ensures InsertAt(s, pos, x)[if j < pos then j else j + 1] == s[j]
  {
  }

  /** The sequence without its entry at `pos`. */
  function DeleteAt<T>(s: seq<T>, pos: nat): (r: seq<T>)
    requires pos < |s|
    ensures |r| == |s| - 1
  {
    s[..pos] + s[pos + 1..]
  }

  /** Where the old entries sit after `DeleteAt`: in place before `pos`, one place left after it. */
  lemma DeleteAtMoves<T>(s: seq<T>, pos: nat, j: nat)
    requires pos < |s| && j < |s| - 1
    ensures DeleteAt(s, pos)[j] == s[if j < pos then j else j + 1]
  {
  }

  /** The records of a leaf after a new record goes in at the upper bound of its key. */
  function Inserted(rs: seq<Record>, key: Key, value: Payload): seq<Record>
  {
    InsertAt(rs, UpperBound(RecordKeys(rs), key), Record(key, value))
  }

  /** On sorted keys, an absent key is above everything before its upper bound and below the rest. */
  lemma AbsentKeySplits(rs: seq<Record>, key: Key)
    requires StrictlySorted(RecordKeys(rs)) && key !in RecordKeys(rs)
    ensures forall j | 0 <= j < UpperBound(RecordKeys(rs), key) :: KeyLess(rs[j].key, key)
    ensures forall j | UpperBound(RecordKeys(rs), key) <= j < |rs| :: KeyLess(key, rs[j].key)
  {
    var ks := RecordKeys(rs);
    var p := UpperBound(ks, key);
    forall j | 0 <= j < p
      ensures KeyLess(rs[j].key, key)
    {
      assert ks[j] == rs[j].key;
      KeyTrichotomy(key, rs[j].key);
    }
    forall j | p <= j < |rs|
      ensures KeyLess(key, rs[j].key)
    {
      if j > p {
        KeyLessTransitive(key, ks[p], ks[j]);
      }
    }
  }

  /**
   * A sorted insertion: an absent key put at its upper bound leaves the
   * records strictly sorted, and the leaf holds exactly one record more,
   * the new one.
   */
  lemma InsertedIsSortedInsertion(rs: seq<Record>, key: Key, value: Payload)
    requires StrictlySorted(RecordKeys(rs)) && key !in RecordKeys(rs)
    ensures StrictlySorted(RecordKeys(Inserted(rs, key, value)))
    ensures multiset(Inserted(rs, key, value)) == multiset(rs) + multiset{Record(key, value)}
  {
    InsertedIsSorted(rs, key, value);
    InsertedMultiset(rs, key, value);
  }

  /** The keys after a sorted insertion of an absent key stay strictly sorted. */
  lemma InsertedIsSorted(rs: seq<Record>, key: Key, value: Payload)
    requires StrictlySorted(RecordKeys(rs)) && key !in RecordKeys(rs)
    ensures StrictlySorted(RecordKeys(Inserted(rs, key, value)))
  {
    var p := UpperBound(RecordKeys(rs), key);
    var ks := RecordKeys(rs);
    var rk := RecordKeys(Inserted(rs, key, value));
    AbsentKeySplits(rs, key);
    forall j | 0 <= j < p
      ensures rk[j] == ks[j] && KeyLess(ks[j], key)
    {
      InsertAtMoves(rs, p, Record(key, value), j);
    }
    forall j | p < j < |rk|
      ensures rk[j] == ks[j - 1] && KeyLess(key, ks[j - 1])
    {
      InsertAtMoves(rs, p, Record(key, value), j - 1);
    }
    forall a, b | 0 <= a < b < |rk|
      ensures KeyLess(rk[a], rk[b])
    {
      InsertedPair(ks, p, key, rk, a, b);
    }
  }

  /** A sorted insertion adds the new record to the multiset of records. */
  lemma InsertedMultiset(rs: seq<Record>, key: Key, value: Payload)
    ensures multiset(Inserted(rs, key, value)) == multiset(rs) + multiset{Record(key, value)}
  {
    var p := UpperBound(RecordKeys(rs), key);
    assert rs == rs[..p] + rs[p..];
    assert Inserted(rs, key, value) == rs[..p] + [Record(key, value)] + rs[p..];
  }

  /** After a sorted insertion, binary_search finds the key and its lower bound holds the new value. */
  lemma InsertedIsFound(rs: seq<Record>, key: Key, value: Payload)
    requires StrictlySorted(RecordKeys(rs)) && key !in RecordKeys(rs)
    ensures BinarySearch(Inserted(rs, key, value), key)
    ensures FindRecord(Inserted(rs, key, value), key) == UpperBound(RecordKeys(rs), key)
    ensures Inserted(rs, key, value)[FindRecord(Inserted(rs, key, value), key)].value == value
  {
    var r := Inserted(rs, key, value);
    var p := UpperBound(RecordKeys(rs), key);
    InsertedIsSortedInsertion(rs, key, value);
    FindRecordOfPresent(r, key, p);
    KeyTrichotomy(key, key);
  }

  /** Whether `insert` puts the new record into the new right leaf: the key is above the record at the half. */
  predicate LeafPlaceRight(rs: seq<Record>, key: Key)
    requires |rs| >= 1
  {
    KeyCmp(key, rs[|rs| / 2].key) > 0
  }

  /**
   * Where `insert` splits a full leaf: half the records, one more when the
   * new record goes right.
   */
  function LeafSplitPoint(rs: seq<Record>, key: Key): (p: nat)
    requires |rs| >= 1
    ensures p == |rs| / 2 || p == |rs| / 2 + 1
    ensures p <= |rs|
  {
    var point := |rs| / 2;
    if LeafPlaceRight(rs, key) then point + 1 else point
  }

  /** The records the old leaf keeps after a split with insertion. */
  function LeafSplitLow(rs: seq<Record>, key: Key, value: Payload): seq<Record>
    requires |rs| >= 1
  {
    var p := LeafSplitPoint(rs, key);
    if LeafPlaceRight(rs, key) then rs[..p] else Inserted(rs[..p], key, value)
  }

  /** The records the new right leaf holds after a split with insertion. */
  function LeafSplitHigh(rs: seq<Record>, key: Key, value: Payload): seq<Record>
    requires |rs| >= 1
  {
    var p := LeafSplitPoint(rs, key);
    if LeafPlaceRight(rs, key) then Inserted(rs[p..], key, value) else rs[p..]
  }

  /**
   * Splitting a full leaf and inserting into the half the new key belongs
   * to puts the records in the same order as one sorted insertion into the
   * whole leaf.
   */
  lemma SplitThenInsertIsInsert(rs: seq<Record>, key: Key, value: Payload)
    requires |rs| >= 1
    requires StrictlySorted(RecordKeys(rs)) && key !in RecordKeys(rs)
    ensures LeafSplitLow(rs, key, value) + LeafSplitHigh(rs, key, value) == Inserted(rs, key, value)
  {
    var h := |rs| / 2;
    var u := UpperBound(RecordKeys(rs), key);
    assert RecordKeys(rs)[h] == rs[h].key;
    if LeafPlaceRight(rs, key) {
      KeyAboveIsBeforeBound(rs, key, h);
      InsertIntoSuffix(rs, h + 1, key, value);
    } else {
      KeyTrichotomy(key, rs[h].key);
      AbsentKeyBelow(rs, key, h);
      assert u <= h;
      InsertIntoPrefix(rs, h, key, value);
    }
  }

  /** A record whose key sorts below the key lies before the key's upper bound. */
  lemma KeyAboveIsBeforeBound(rs: seq<Record>, key: Key, h: nat)
    requires StrictlySorted(RecordKeys(rs)) && key !in RecordKeys(rs)
    requires h < |rs| && KeyCmp(key, rs[h].key) > 0
    ensures h < UpperBound(RecordKeys(rs), key)
  {
    AbsentKeySplits(rs, key);
    KeyCmpAntisymmetric(key, rs[h].key);
  }

  /** An absent key that does not sort above the record at `h` sorts below it. */
  lemma AbsentKeyBelow(rs: seq<Record>, key: Key, h: nat)
    requires h < |rs| && key !in RecordKeys(rs) && KeyCmp(key, rs[h].key) <= 0
    ensures KeyLess(key, rs[h].key)
  {
    assert RecordKeys(rs)[h] == rs[h].key;
    KeyCmpZeroIffEqual(key, rs[h].key);
  }

  /** After a leaf split with insertion each leaf holds at least half the old count, one record more in all. */
  lemma LeafSplitSizes(rs: seq<Record>, key: Key, value: Payload)
    requires |rs| >= 1
    ensures |LeafSplitLow(rs, key, value)| >= |rs| / 2 && |LeafSplitHigh(rs, key, value)| >= |rs| / 2
    ensures |LeafSplitLow(rs, key, value)| + |LeafSplitHigh(rs, key, value)| == |rs| + 1
  {
  }

  /** Inserting into a suffix that starts at or before the key's place is inserting into the whole. */
  lemma InsertIntoSuffix(rs: seq<Record>, p: nat, key: Key, value: Payload)
    requires p <= UpperBound(RecordKeys(rs), key)
    ensures rs[..p] + Inserted(rs[p..], key, value) == Inserted(rs, key, value)
  {
    assert RecordKeys(rs[p..]) == RecordKeys(rs)[p..];
    UpperBoundOfSuffix(RecordKeys(rs), p, key);
    InsertAtSuffix(rs, p, UpperBound(RecordKeys(rs), key), Record(key, value));
  }

  lemma InsertAtSuffix<T>(s: seq<T>, p: nat, u: nat, x: T)
    requires p <= u <= |s|
    ensures s[..p] + InsertAt(s[p..], u - p, x) == InsertAt(s, u, x)
  {
    var t := s[p..];
    assert t[..u - p] == s[p..u] && t[u - p..] == s[u..];
    assert s[..p] + s[p..u] == s[..u];
  }

  /** Inserting into a prefix that reaches the key's place is inserting into the whole. */
  lemma InsertIntoPrefix(rs: seq<Record>, p: nat, key: Key, value: Payload)
    requires UpperBound(RecordKeys(rs), key) <= p <= |rs|
    ensures Inserted(rs[..p], key, value) + rs[p..] == Inserted(rs, key, value)
  {
    assert RecordKeys(rs[..p]) == RecordKeys(rs)[..p];
    UpperBoundOfPrefix(RecordKeys(rs), p, key);
    InsertAtPrefix(rs, p, UpperBound(RecordKeys(rs), key), Record(key, value));
  }

  lemma InsertAtPrefix<T>(s: seq<T>, p: nat, u: nat, x: T)
    requires u <= p <= |s|
    ensures InsertAt(s[..p], u, x) + s[p..] == InsertAt(s, u, x)
  {
    var t := s[..p];
    assert t[..u] == s[..u] && t[u..] == s[u..p];
    assert s[u..p] + s[p..] == s[u..];
  }

  /** The upper bound inside a suffix that starts at or before it is shifted by the cut. */
  lemma UpperBoundOfSuffix(ks: seq<Key>, p: nat, key: Key)
    requires p <= UpperBound(ks, key)
    ensures UpperBound(ks[p..], key) == UpperBound(ks, key) - p
  {
    if p > 0 {
      assert ks[p..] == ks[1..][p - 1..];
      UpperBoundOfSuffix(ks[1..], p - 1, key);
    }
  }

  /** The upper bound inside a prefix that reaches it is unchanged. */
  lemma UpperBoundOfPrefix(ks: seq<Key>, p: nat, key: Key)
    requires UpperBound(ks, key) <= p <= |ks|
    ensures UpperBound(ks[..p], key) == UpperBound(ks, key)
  {
    if ks != [] && !KeyLess(key, ks[0]) {
      assert ks[..p][1..] == ks[1..][..p - 1];
      UpperBoundOfPrefix(ks[1..], p - 1, key);
    }
  }

  /**
   * `insert_key_to_index_no_split`: the entry chosen by `find` for `key`
   * takes the new key and keeps its child, and a new entry right after it
   * carries the new child `after` with the key the chosen entry had.
   */
  function InsertIndexEntry(c: seq<Index>, key: Key, after: int): (r: seq<Index>)
    requires |c| >= 1
  {
    var i := FindIndex(c, key);
    c[..i] + [Index(key, c[i].child), Index(c[i].key, after)] + c[i + 1..]
  }

  /**
   * The new key enters the separators at the position `find` chose and the
   * new child enters the children just to its right; nothing else moves.
   */
  lemma InsertIndexEntryPlaces(c: seq<Index>, key: Key, after: int)
    requires |c| >= 1
    ensures IndexKeys(InsertIndexEntry(c, key, after)) == InsertAt(IndexKeys(c), FindIndex(c, key), key)
    ensures ChildOffsets(InsertIndexEntry(c, key, after)) == InsertAt(ChildOffsets(c), FindIndex(c, key) + 1, after)
  {
  }

  /** Entry by entry, the separators after `insert_key_to_index`. */
  lemma SeparatorsAfterInsert(c: seq<Index>, key: Key, after: int)
    requires |c| >= 1
    ensures var r := InsertIndexEntry(c, key, after);
      |r| == |c| + 1 && r[FindIndex(c, key)].key == key
    ensures var r := InsertIndexEntry(c, key, after);
      forall j | 0 <= j < FindIndex(c, key) :: r[j].key == c[j].key
    ensures var r := InsertIndexEntry(c, key, after);
      forall j | FindIndex(c, key) < j <= |c| :: r[j].key == c[j - 1].key
  {
    var i := FindIndex(c, key);
    var r := InsertIndexEntry(c, key, after);
    forall j | 0 <= j < i
      ensures r[j].key == c[j].key
    {
      assert r[j] == c[j];
    }
    forall j | i < j <= |c|
      ensures r[j].key == c[j - 1].key
    {
      if j > i + 1 {
        assert r[j] == c[j - 1];
      }
    }
  }

  /**
   * The separators that `find` looks at (all keys but the last) stay
   * strictly sorted when an absent key is added.
   */
  lemma InsertIndexEntryKeepsSeparatorsSorted(c: seq<Index>, key: Key, after: int)
    requires |c| >= 1
    requires StrictlySorted(IndexKeys(c)[..|c| - 1]) && key !in IndexKeys(c)[..|c| - 1]
    ensures var r := InsertIndexEntry(c, key, after);
      StrictlySorted(IndexKeys(r)[..|r| - 1])
  {
    var ks := IndexKeys(c)[..|c| - 1];
    var i := FindIndex(c, key);
    var r := InsertIndexEntry(c, key, after);
    var rk := IndexKeys(r)[..|r| - 1];
    SeparatorsAfterInsert(c, key, after);
    forall j | 0 <= j < i
      ensures KeyLess(ks[j], key)
    {
      KeyTrichotomy(key, ks[j]);
    }
    forall j | i <= j < |ks|
      ensures KeyLess(key, ks[j])
    {
      if j > i {
        KeyLessTransitive(key, ks[i], ks[j]);
      }
    }
    forall a, b | 0 <= a < b < |rk|
      ensures KeyLess(rk[a], rk[b])
    {
      InsertedPair(ks, i, key, rk, a, b);
    }
  }

  /** One pair of keys after an insertion of `key` at `i` into sorted keys, by where each came from. */
  lemma InsertedPair(ks: seq<Key>, i: nat, key: Key, rk: seq<Key>, a: nat, b: nat)
    requires i <= |ks| && |rk| == |ks| + 1 && a < b < |rk|
    requires StrictlySorted(ks)
    requires forall j | 0 <= j < i :: rk[j] == ks[j] && KeyLess(ks[j], key)
    requires rk[i] == key
    requires forall j | i < j < |rk| :: rk[j] == ks[j - 1] && KeyLess(key, ks[j - 1])
    ensures KeyLess(rk[a], rk[b])
  {
    if b < i {
    } else if b == i {
    } else if a < i {
      assert rk[a] == ks[a] && rk[b] == ks[b - 1];
      KeyLessTransitive(ks[a], key, ks[b - 1]);
    } else if a > i {
    }
  }

  /**
   * Whether `insert_key_to_index` puts the new key into the new right node
   * of a full internal node: the key is greater than the key at (n - 1) / 2.
   */
  predicate IndexPlaceRight(c: seq<Index>, key: Key)
    requires |c| >= 1
  {
    KeyCmp(key, c[(|c| - 1) / 2].key) > 0
  }

  /**
   * Where `insert_key_to_index` splits a full internal node: the old node
   * keeps the entries up to and including this one, whose key moves up as
   * the middle key. It starts at (n - 1) / 2, moves one right when the key
   * is placed right, and back again when the key is below the entry there.
   */
  function IndexSplitPoint(c: seq<Index>, key: Key): (p: nat)
    requires |c| >= 4
    ensures p == (|c| - 1) / 2 || p == (|c| - 1) / 2 + 1
    ensures p + 1 < |c|
  {
    var point := (|c| - 1) / 2;
    if !IndexPlaceRight(c, key) then point
    else if KeyCmp(key, c[point + 1].key) < 0 then point
    else point + 1
  }

  /** The entries the old internal node keeps after a split with insertion; its last key is the middle key. */
  function IndexSplitLow(c: seq<Index>, key: Key, after: int): seq<Index>
    requires |c| >= 4
  {
    var p := IndexSplitPoint(c, key);
    if IndexPlaceRight(c, key) then c[..p + 1] else InsertIndexEntry(c[..p + 1], key, after)
  }

  /** The entries the new right internal node holds after a split with insertion. */
  function IndexSplitHigh(c: seq<Index>, key: Key, after: int): seq<Index>
    requires |c| >= 4
  {
    var p := IndexSplitPoint(c, key);
    if IndexPlaceRight(c, key) then InsertIndexEntry(c[p + 1..], key, after) else c[p + 1..]
  }

  /**
   * Splitting a full internal node at `IndexSplitPoint` and inserting into
   * the half the key was placed in gives the entries of one insertion into
   * the whole node: the new key lands in the half that holds its position.
   */
  lemma SplitIndexThenInsertIsInsert(c: seq<Index>, key: Key, after: int)
    requires |c| >= 4
    requires StrictlySorted(IndexKeys(c)[..|c| - 1]) && key !in IndexKeys(c)[..|c| - 1]
    ensures IndexSplitLow(c, key, after) + IndexSplitHigh(c, key, after) == InsertIndexEntry(c, key, after)
  {
    var ks := IndexKeys(c)[..|c| - 1];
    var p := IndexSplitPoint(c, key);
    var h := (|c| - 1) / 2;
    var i := FindIndex(c, key);
    assert ks[h] == c[h].key && ks[h + 1] == c[h + 1].key;
    KeyCmpAntisymmetric(key, c[h].key);
    KeyTrichotomy(key, c[h].key);
    KeyCmpAntisymmetric(key, c[h + 1].key);
    KeyTrichotomy(key, c[h + 1].key);
    if IndexPlaceRight(c, key) {
      if i <= h {
        KeyLessTransitive(key, ks[i], ks[h]);
      }
      IndexInsertIntoSuffix(c, p + 1, key, after);
    } else {
      IndexInsertIntoPrefix(c, p + 1, key, after);
    }
  }

  /** After an internal split with insertion each node holds at least half the old count, one entry more in all. */
  lemma IndexSplitSizes(c: seq<Index>, key: Key, after: int)
    requires |c| >= 4
    ensures |IndexSplitLow(c, key, after)| >= |c| / 2 && |IndexSplitHigh(c, key, after)| >= |c| / 2
    ensures |IndexSplitLow(c, key, after)| + |IndexSplitHigh(c, key, after)| == |c| + 1
  {
  }

  /** Inserting into a suffix of the entries that starts at or before `find`'s choice is inserting into the whole. */
  lemma IndexInsertIntoSuffix(c: seq<Index>, q: nat, key: Key, after: int)
    requires |c| >= 1 && q <= FindIndex(c, key)
    ensures c[..q] + InsertIndexEntry(c[q..], key, after) == InsertIndexEntry(c, key, after)
  {
    var i := FindIndex(c, key);
    FindIndexOfSuffix(c, q, key);
    SpliceSuffix(c, q, i, [Index(key, c[i].child), Index(c[i].key, after)]);
  }

  /** On a suffix that starts at or before `find`'s choice, `find` picks the same entry. */
  lemma FindIndexOfSuffix(c: seq<Index>, q: nat, key: Key)
    requires |c| >= 1 && q <= FindIndex(c, key)
    ensures FindIndex(c[q..], key) == FindIndex(c, key) - q
  {
    var d := c[q..];
    IndexKeysSlice(c, q, |c| - 1);
    assert IndexKeys(d)[..|d| - 1] == IndexKeys(c[q..|c| - 1]);
    UpperBoundOfSuffix(IndexKeys(c)[..|c| - 1], q, key);
    assert IndexKeys(c)[..|c| - 1][q..] == IndexKeys(c)[q..|c| - 1];
  }

  /** Inserting into a prefix of the entries that goes past `find`'s choice is inserting into the whole. */
  lemma IndexInsertIntoPrefix(c: seq<Index>, q: nat, key: Key, after: int)
    requires |c| >= 1 && FindIndex(c, key) < q <= |c|
    ensures InsertIndexEntry(c[..q], key, after) + c[q..] == InsertIndexEntry(c, key, after)
  {
    var i := FindIndex(c, key);
    var d := c[..q];
    IndexKeysSlice(c, 0, q - 1);
    assert IndexKeys(d)[..|d| - 1] == IndexKeys(c[0..q - 1]);
    assert c[0..q - 1] == c[..q - 1];
    UpperBoundOfPrefix(IndexKeys(c)[..|c| - 1], q - 1, key);
    assert IndexKeys(c)[..|c| - 1][..q - 1] == IndexKeys(c)[0..q - 1];
    assert FindIndex(d, key) == i;
    SplicePrefix(c, q, i, [Index(key, c[i].child), Index(c[i].key, after)]);
  }

  lemma IndexKeysSlice(c: seq<Index>, a: nat, b: nat)
    requires a <= b <= |c|
    ensures IndexKeys(c[a..b]) == IndexKeys(c)[a..b]
  {
  }

  lemma SpliceSuffix<T>(s: seq<T>, q: nat, i: nat, xs: seq<T>)
    requires q <= i < |s|
    ensures s[..q] + (s[q..][..i - q] + xs + s[q..][i - q + 1..]) == s[..i] + xs + s[i + 1..]
  {
    assert s[q..][..i - q] == s[q..i];
    assert s[q..][i - q + 1..] == s[i + 1..];
    assert s[..q] + s[q..i] == s[..i];
  }

  lemma SplicePrefix<T>(s: seq<T>, q: nat, i: nat, xs: seq<T>)
    requires i < q <= |s|
    ensures (s[..q][..i] + xs + s[..q][i + 1..]) + s[q..] == s[..i] + xs + s[i + 1..]
  {
    assert s[..q][..i] == s[..i];
    assert s[..q][i + 1..] == s[i + 1..q];
    assert s[i + 1..q] + s[q..] == s[i + 1..];
  }

  /** The children of joined entries are the joined children. */
  lemma ChildOffsetsConcat(a: seq<Index>, b: seq<Index>)
    ensures ChildOffsets(a + b) == ChildOffsets(a) + ChildOffsets(b)
  {
  }

  /**
   * The borrower's entries after a lend from the left: the lent entry in
   * front of the old ones, the first of them re-keyed; the children are the
   * lent child followed by the old ones.
   */
  lemma PrependLent(c: seq<Index>, lend: Index, key: Key, moved: seq<Index>)
    requires moved == if |c| == 0 then [] else [Index(key, c[0].child)] + c[1..]
    ensures ChildOffsets([lend] + moved) == [lend.child] + ChildOffsets(c)
  {
    ChildOffsetsConcat([lend], moved);
    assert ChildOffsets([lend]) == [lend.child];
    if |c| > 0 {
      ChildOffsetsRekeyFirst(c, key);
      assert ChildOffsets(moved) == ChildOffsets(c);
    } else {
      assert ChildOffsets(moved) == [] == ChildOffsets(c);
    }
  }

  /** Re-keying the first entry keeps the children. */
  lemma ChildOffsetsRekeyFirst(c: seq<Index>, key: Key)
    requires |c| >= 1
    ensures ChildOffsets([Index(key, c[0].child)] + c[1..]) == ChildOffsets(c)
  {
  }

  /**
   * The entries `remove_from_index` leaves for the entry at `i`: the
   * entry's key goes and the child to its right goes, so the entry keeps its
   * own child under the next entry's key; at the last entry, only that entry goes.
   */
  function RemoveIndexEntry(c: seq<Index>, i: nat): (r: seq<Index>)
    requires i < |c|
  {
    if i == |c| - 1 then c[..i]
    else c[..i] + [Index(c[i + 1].key, c[i].child)] + c[i + 2..]
  }

  /**
   * Below the last entry, the separator at `i` and the child at `i + 1`
   * are removed.
   */
  lemma RemoveIndexEntryDrops(c: seq<Index>, i: nat)
    requires i < |c| - 1
    ensures IndexKeys(RemoveIndexEntry(c, i)) == DeleteAt(IndexKeys(c), i)
    ensures ChildOffsets(RemoveIndexEntry(c, i)) == DeleteAt(ChildOffsets(c), i + 1)
  {
    RemoveIndexEntryDropsKey(c, i);
    RemoveIndexEntryDropsChild(c, i);
  }

  /** The separator keys lose exactly the one at `i`. */
  lemma RemoveIndexEntryDropsKey(c: seq<Index>, i: nat)
    requires i < |c| - 1
    ensures IndexKeys(RemoveIndexEntry(c, i)) == DeleteAt(IndexKeys(c), i)
  {
    var r := RemoveIndexEntry(c, i);
    RemoveIndexEntryAt(c, i);
    var ks, d := IndexKeys(r), DeleteAt(IndexKeys(c), i);
    forall j | 0 <= j < |r| ensures ks[j] == d[j] {
      DeleteAtMoves(IndexKeys(c), i, j);
    }
  }

  /** The children lose exactly the one at `i + 1`. */
  lemma RemoveIndexEntryDropsChild(c: seq<Index>, i: nat)
    requires i < |c| - 1
    ensures ChildOffsets(RemoveIndexEntry(c, i)) == DeleteAt(ChildOffsets(c), i + 1)
  {
    var r := RemoveIndexEntry(c, i);
    RemoveIndexEntryAt(c, i);
    var cs, e := ChildOffsets(r), DeleteAt(ChildOffsets(c), i + 1);
    forall j | 0 <= j < |r| ensures cs[j] == e[j] {
      DeleteAtMoves(ChildOffsets(c), i + 1, j);
    }
  }

  /** Entry by entry, what is left once the entry at `i`, below the last, is removed. */
  lemma RemoveIndexEntryAt(c: seq<Index>, i: nat)
    requires i < |c| - 1
    ensures |RemoveIndexEntry(c, i)| == |c| - 1
    ensures forall j | 0 <= j < i :: RemoveIndexEntry(c, i)[j] == c[j]
    ensures RemoveIndexEntry(c, i)[i] == Index(c[i + 1].key, c[i].child)
    ensures forall j | i < j < |c| - 1 :: RemoveIndexEntry(c, i)[j] == c[j + 1]
  {
  }

  /** At the last entry, the last child and its unused key are removed. */
  lemma RemoveLastIndexEntryDrops(c: seq<Index>)
    requires |c| >= 1
    ensures ChildOffsets(RemoveIndexEntry(c, |c| - 1)) == ChildOffsets(c)[..|c| - 1]
    ensures IndexKeys(RemoveIndexEntry(c, |c| - 1)) == IndexKeys(c)[..|c| - 1]
  {
  }

  /** Deleting the record at the key's lower bound from a sorted leaf removes exactly that key. */
  lemma DeleteRecordRemovesKey(rs: seq<Record>, key: Key)
    requires StrictlySorted(RecordKeys(rs)) && BinarySearch(rs, key)
    ensures var r := DeleteAt(rs, FindRecord(rs, key));
      StrictlySorted(RecordKeys(r)) && key !in RecordKeys(r) &&
      multiset(r) + multiset{rs[FindRecord(rs, key)]} == multiset(rs) &&
      rs[FindRecord(rs, key)].key == key
  {
    var i := FindRecord(rs, key);
    var r := DeleteAt(rs, i);
    KeyTrichotomy(key, rs[i].key);
    assert rs[i].key == key;
    forall a, b | 0 <= a < b < |r|
      ensures KeyLess(RecordKeys(r)[a], RecordKeys(r)[b])
    {
      var a' := if a < i then a else a + 1;
      var b' := if b < i then b else b + 1;
      assert RecordKeys(rs)[a'] == rs[a'].key && RecordKeys(rs)[b'] == rs[b'].key;
    }
    assert rs == rs[..i] + [rs[i]] + rs[i + 1..];
  }

  /** Inserting a record leaves every other key present exactly when it was, with its records. */
  lemma InsertedKeepsOtherKeys(rs: seq<Record>, key: Key, value: Payload, k: Key)
    requires k != key
    ensures k in RecordKeys(Inserted(rs, key, value)) <==> k in RecordKeys(rs)
    ensures forall j | 0 <= j < |rs| && rs[j].key == k :: rs[j] in Inserted(rs, key, value)
  {
    InsertedKeepsRecords(rs, key, value);
    InsertedKeepsKey(rs, key, value, k);
  }

  /** Every old record is still there after an insertion. */
  lemma InsertedKeepsRecords(rs: seq<Record>, key: Key, value: Payload)
    ensures forall j | 0 <= j < |rs| :: rs[j] in Inserted(rs, key, value)
  {
    var u := UpperBound(RecordKeys(rs), key);
    forall j | 0 <= j < |rs|
      ensures rs[j] in Inserted(rs, key, value)
    {
      InsertAtMoves(rs, u, Record(key, value), j);
    }
  }

  /** A key other than the inserted one is present after an insertion exactly when it was before. */
  lemma InsertedKeepsKey(rs: seq<Record>, key: Key, value: Payload, k: Key)
    requires k != key
    ensures k in RecordKeys(Inserted(rs, key, value)) <==> k in RecordKeys(rs)
  {
    var u := UpperBound(RecordKeys(rs), key);
    var r := Inserted(rs, key, value);
    if k in RecordKeys(rs) {
      var j :| 0 <= j < |rs| && RecordKeys(rs)[j] == k;
      InsertAtMoves(rs, u, Record(key, value), j);
      assert RecordKeys(r)[if j < u then j else j + 1] == k;
    }
    if k in RecordKeys(r) {
      var j' :| 0 <= j' < |r| && RecordKeys(r)[j'] == k;
      assert j' != u;
      var j := if j' < u then j' else j' - 1;
      InsertAtMoves(rs, u, Record(key, value), j);
      assert RecordKeys(rs)[j] == k;
    }
  }

  /** Deleting the record at `i` keeps every other key, and the record holding it. */
  lemma DeleteAtKeepsOtherKeys(rs: seq<Record>, i: nat, k: Key)
    requires i < |rs| && rs[i].key != k
    ensures k in RecordKeys(DeleteAt(rs, i)) <==> k in RecordKeys(rs)
    ensures forall j | 0 <= j < |rs| && rs[j].key == k :: rs[j] in DeleteAt(rs, i)
  {
    var r := DeleteAt(rs, i);
    assert r == rs[..i] + rs[i + 1..];
    if k in RecordKeys(rs) {
      var j :| 0 <= j < |rs| && RecordKeys(rs)[j] == k;
      var j' := if j < i then j else j - 1;
      assert r[j'] == rs[j];
      assert RecordKeys(r)[j'] == k;
    }
    if k in RecordKeys(r) {
      var j' :| 0 <= j' < |r| && RecordKeys(r)[j'] == k;
      var j := if j' < i then j' else j' + 1;
      assert r[j'] == rs[j];
      assert RecordKeys(rs)[j] == k;
    }
    forall j | 0 <= j < |rs| && rs[j].key == k
      ensures rs[j] in r
    {
      var j' := if j < i then j else j - 1;
      assert r[j'] == rs[j];
    }
  }

  /** `merge_leafs`: the left leaf takes the right leaf's records after its own. */
  function MergeLeafs(left: Leaf, right: Leaf): (r: Leaf)
  {
    left.(children := left.children + right.children)
  }

  /** Merging two sorted leaves whose keys are all below the right leaf's keys gives a sorted leaf. */
  lemma MergeLeafsSorted(left: Leaf, right: Leaf)
    requires StrictlySorted(RecordKeys(left.children)) && StrictlySorted(RecordKeys(right.children))
    requires forall a, b | 0 <= a < |left.children| && 0 <= b < |right.children| ::
      KeyLess(left.children[a].key, right.children[b].key)
    ensures StrictlySorted(RecordKeys(MergeLeafs(left, right).children))
    ensures multiset(MergeLeafs(left, right).children) == multiset(left.children) + multiset(right.children)
    ensures MergeLeafs(left, right).parent == left.parent && MergeLeafs(left, right).next == left.next
  {
    var m := MergeLeafs(left, right).children;
    var n := |left.children|;
    forall a, b | 0 <= a < b < |m|
      ensures KeyLess(RecordKeys(m)[a], RecordKeys(m)[b])
    {
      if b < n {
        assert RecordKeys(left.children)[a] == m[a].key && RecordKeys(left.children)[b] == m[b].key;
      } else if a >= n {
        assert RecordKeys(right.children)[a - n] == m[a].key && RecordKeys(right.children)[b - n] == m[b].key;
      }
    }
  }
}

/**
 * The blocks of the tree file (`meta_t`, `index_t`, `internal_node_t`,
 * `record_t`, `leaf_node_t`) and the searches the algorithms run inside one
 * node.
 *
 * A node's fixed `children[BP_ORDER]` array and its count `n` become one
 * sequence holding the first `n` entries. Offsets (`off_t`) and the counters
 * of `meta_t` are unbounded integers here.
 */
module Blocks {
  import opened Bytes
  import opened Keys

  /** BP_ORDER: the capacity of a node, also written to `meta.order`. */
  const BP_ORDER: nat := 50

  /** Sizes on the 64-bit Windows build: off_t is 4 bytes, size_t 8, a pointer 8. */
  const META_SIZE: nat := 64
  const OFFSET_META: int := 0
  const OFFSET_BLOCK: int := 64
  const INDEX_SIZE: nat := 20
  const RECORD_SIZE: nat := 32
  const INTERNAL_NODE_SIZE: nat := 1024
  const LEAF_NODE_SIZE: nat := 1624
  /** The header (parent, next, prev, padding, n) that header-only reads and writes cover. */
  const SIZE_NO_CHILDREN: nat := 24
  /** sizeof(value_t) and sizeof(key_t), recorded in a new file's meta block. */
  const VALUE_T_SIZE: nat := 16

  datatype Meta = Meta(
    order: nat,
    valueSize: nat,
    keySize: nat,
    internalNodeNum: int,
    leafNodeNum: int,
    height: int,
    slot: int,
    rootOffset: int,
    leafOffset: int)

  datatype Index = Index(key: Key, child: int)

  /** A record: its key and the bytes of its value (empty for a null buffer). */
  datatype Record = Record(key: Key, value: Payload)

  datatype Internal = Internal(parent: int, next: int, prev: int, children: seq<Index>)

  datatype Leaf = Leaf(parent: int, next: int, prev: int, children: seq<Record>)

  /** What a block of the file holds. */
  datatype Block =
    | MetaBlock(meta: Meta)
    | InternalBlock(node: Internal)
    | LeafBlock(leaf: Leaf)

  function IndexKeys(c: seq<Index>): (ks: seq<Key>)
    ensures |ks| == |c| && forall i | 0 <= i < |c| :: ks[i] == c[i].key
  {
    seq(|c|, i requires 0 <= i < |c| => c[i].key)
  }

  function ChildOffsets(c: seq<Index>): (cs: seq<int>)
    ensures |cs| == |c| && forall i | 0 <= i < |c| :: cs[i] == c[i].child
  {
    seq(|c|, i requires 0 <= i < |c| => c[i].child)
  }

  function RecordKeys(rs: seq<Record>): (ks: seq<Key>)
    ensures |ks| == |rs| && forall i | 0 <= i < |rs| :: ks[i] == rs[i].key
  {
    seq(|rs|, i requires 0 <= i < |rs| => rs[i].key)
  }

  /** Keys in strictly increasing keycmp order. */
  predicate StrictlySorted(ks: seq<Key>) {
    forall i, j | 0 <= i < j < |ks| :: KeyLess(ks[i], ks[j])
  }

  /**
   * `std::upper_bound` with `key < x`: the first position whose key is
   * greater than `key`, or the length when there is none.
   */
  function UpperBound(ks: seq<Key>, key: Key): (i: nat)
    ensures i <= |ks|
    ensures forall j | 0 <= j < i :: !KeyLess(key, ks[j])
    ensures i < |ks| ==> KeyLess(key, ks[i])
  {
    if ks == [] || KeyLess(key, ks[0]) then 0 else 1 + UpperBound(ks[1..], key)
  }

  /**
   * `std::lower_bound` with `x < key`: the first position whose key is not
   * less than `key`, or the length when there is none.
   */
  function LowerBound(ks: seq<Key>, key: Key): (i: nat)
    ensures i <= |ks|
    ensures forall j | 0 <= j < i :: KeyLess(ks[j], key)
    ensures i < |ks| ==> !KeyLess(ks[i], key)
  {
    if ks == [] || !KeyLess(ks[0], key) then 0 else 1 + LowerBound(ks[1..], key)
  }

  /**
   * `find` on an internal node: upper_bound over the first n-1 keys, so the
   * chosen entry is always one of the n children (the last key is never looked at).
   */
  function FindIndex(c: seq<Index>, key: Key): (i: nat)
    requires |c| >= 1
    ensures i <= |c| - 1
    ensures forall j | 0 <= j < i :: !KeyLess(key, c[j].key)
    ensures i < |c| - 1 ==> KeyLess(key, c[i].key)
  {
    UpperBound(IndexKeys(c)[..|c| - 1], key)
  }

  /** `find` on a leaf: the lower bound of the key among the records. */
  function FindRecord(rs: seq<Record>, key: Key): (i: nat)
    ensures i <= |rs|
    ensures forall j | 0 <= j < i :: KeyLess(rs[j].key, key)
    ensures i < |rs| ==> !KeyLess(rs[i].key, key)
  {
    LowerBound(RecordKeys(rs), key)
  }

  /** `std::binary_search`: the lower bound exists and is not greater than the key. */
  predicate BinarySearch(rs: seq<Record>, key: Key) {
    var i := FindRecord(rs, key);
    i < |rs| && !KeyLess(key, rs[i].key)
  }

  /** On a sorted leaf, binary_search finds exactly the keys the leaf holds. */
  lemma BinarySearchIffPresent(rs: seq<Record>, key: Key)
    requires StrictlySorted(RecordKeys(rs))
    ensures BinarySearch(rs, key) <==> key in RecordKeys(rs)
  {
    var i := FindRecord(rs, key);
    if i < |rs| {
      KeyTrichotomy(key, rs[i].key);
    }
    if key in RecordKeys(rs) {
      var j :| 0 <= j < |rs| && rs[j].key == key;
      if j < i {
        KeyTrichotomy(key, key);
      }
    }
  }

  /** On a sorted leaf, the lower bound of a present key is that key's record. */
  lemma FindRecordOfPresent(rs: seq<Record>, key: Key, j: nat)
    requires StrictlySorted(RecordKeys(rs))
    requires j < |rs| && rs[j].key == key
    ensures FindRecord(rs, key) == j
  {
    var i := FindRecord(rs, key);
    if j < i {
      KeyTrichotomy(key, key);
    }
  }

  /** The upper bound of an absent key is its lower bound. */
  lemma UpperBoundOfAbsent(ks: seq<Key>, key: Key)
    requires key !in ks
    ensures UpperBound(ks, key) == LowerBound(ks, key)
  {
    var u := UpperBound(ks, key);
    var l := LowerBound(ks, key);
    if u < l {
      KeyTrichotomy(key, ks[u]);
    } else if l < u {
      KeyTrichotomy(key, ks[l]);
    }
  }
}

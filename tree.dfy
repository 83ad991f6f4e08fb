/**
 * `bplus_tree`: the disk-backed B+ tree. The file is the map `file` from
 * offsets to blocks, `meta` is the in-memory copy of the meta block, and
 * `fpOpen`/`fpLevel` are the nesting file handle (`fp` non-null, `fp_level`).
 *
 * `map` of a leaf and `unmap` of a leaf go through the record codec of
 * `LeafCodec`; here a block is read and written whole. Every `map`/`unmap`
 * first opens the file when no handle is open (`Access`), and that open is
 * taken to succeed.
 */
module Tree {
  import opened Bytes
  import opened Keys
  import opened Blocks
  import opened NodeOps
  import opened TreeSpec
  import opened RangeSpec
  import opened LeafCodec

  /** The modes `open_file` is called with: "rb+" keeps the file, "wb+" empties it. */
  datatype Mode = ReadWrite | Truncate

  /** The nesting level after the implicit open of `map`/`unmap`: one when nothing was open. */
  function AccessLevel(level: nat): nat {
    if level == 0 then 1 else level
  }

  /** The level moved at most by implicit opens. */
  predicate Accessed(before: nat, after: nat) {
    after == before || after == AccessLevel(before)
  }

  /** The fewest entries `remove_from_index` lets the internal node at `offset` keep: 1 at the root, order / 2 elsewhere. */
  function MinEntries(m: Meta, offset: int): int {
    if m.rootOffset == offset then 1 else m.order / 2
  }

  /**
   * The parent `p` after the right sibling lent its first key `lent` to
   * `borrower`: the separator at the lower bound of the borrower's last key
   * becomes `lent`.
   */
  function RightLendParent(p: Internal, borrower: Internal, lent: Key): (r: Internal)
    requires |p.children| >= 1 && |borrower.children| >= 1
    ensures SameLinks(p, r)
  {
    var pc := p.children;
    var w := LowerBound(IndexKeys(pc)[..|pc| - 1], borrower.children[|borrower.children| - 1].key);
    var r := p.(children := pc[w := Index(lent, pc[w].child)]);
    assert ChildOffsets(r.children) == ChildOffsets(pc);
    r
  }

  /**
   * The parent `p` after the left sibling `lender` lent its last entry: its
   * separator for the lender becomes the lender's second-to-last key.
   */
  function LeftLendParent(p: Internal, lender: Internal): (r: Internal)
    requires |p.children| >= 1 && |lender.children| >= 2
    ensures SameLinks(p, r)
  {
    var pc := p.children;
    var w := FindIndex(pc, lender.children[0].key);
    var r := p.(children := pc[w := Index(lender.children[|lender.children| - 2].key, pc[w].child)]);
    assert ChildOffsets(r.children) == ChildOffsets(pc);
    r
  }

  /**
   * The borrower's entries after the left sibling lent `lent`: it goes in
   * front, and the old first entry takes the parent's separator `sep`.
   */
  function LeftLentEntries(c: seq<Index>, lent: Index, sep: Key): (r: seq<Index>)
    ensures ChildOffsets(r) == [lent.child] + ChildOffsets(c) && r[0] == lent
  {
    var moved := if |c| == 0 then [] else [Index(sep, c[0].child)] + c[1..];
    PrependLent(c, lent, sep, moved);
    [lent] + moved
  }

  /**
   * `g` is `f` after the right sibling `lender` (at `lenderOff`) lent its
   * first entry to `borrower` (at `offset`): the parent's separator is
   * rewritten, the lent child gets `offset` as parent, and the lender
   * without that entry is written back, in that order.
   */
  ghost predicate RightLent(f: File, g: File, borrower: Internal, offset: int, lenderOff: int, lender: Internal)
    requires |lender.children| >= 1
  {
    match InternalAt(f, borrower.parent)
    case None => false
    case Some(p) =>
      |p.children| >= 1 && |borrower.children| >= 1 &&
      var f1 := f[borrower.parent := InternalBlock(RightLendParent(p, borrower, lender.children[0].key))];
      SetParentAt(f1, lender.children[0].child, offset).Some? &&
      g == SetParentAt(f1, lender.children[0].child, offset).value[lenderOff := InternalBlock(lender.(children := lender.children[1..]))]
  }

  /**
   * `g` and `r` are `f` and `borrower` after the left sibling `lender` lent
   * its last entry: the borrower takes it in front with its old first entry
   * keyed by the parent's separator, that separator becomes the lender's
   * second-to-last key, the lent child gets `offset` as parent, and the
   * shortened lender is written back, in that order.
   */
  ghost predicate LeftLent(f: File, g: File, r: Internal, borrower: Internal, offset: int, lenderOff: int, lender: Internal)
    requires |lender.children| >= 2
  {
    var last := lender.children[|lender.children| - 1];
    match InternalAt(f, lender.parent)
    case None => false
    case Some(p) =>
      |p.children| >= 1 &&
      r == borrower.(children := LeftLentEntries(borrower.children, last, p.children[FindIndex(p.children, lender.children[0].key)].key)) &&
      var f1 := f[lender.parent := InternalBlock(LeftLendParent(p, lender))];
      SetParentAt(f1, last.child, offset).Some? &&
      g == SetParentAt(f1, last.child, offset).value[lenderOff := InternalBlock(lender.(children := lender.children[..|lender.children| - 1]))]
  }

  /** The fuel for the index-level recursions: one more than the tree's height. */
  function Fuel(m: Meta): nat {
    if m.height > 0 then m.height + 1 else 1
  }

  /**
   * After a leaf split with insertion: the old leaf holds the low half and
   * links to the new leaf at `slot`, which holds the high half and links
   * where the old leaf did.
   */
  ghost predicate LeafSplitDone(f: File, off: int, slot: int, leaf: Leaf, key: Key, value: Payload)
    requires |leaf.children| >= 1
  {
    LeafAt(f, off).Some? && LeafAt(f, slot).Some? &&
    LeafAt(f, off).value.children == LeafSplitLow(leaf.children, key, value) &&
    LeafAt(f, slot).value.children == LeafSplitHigh(leaf.children, key, value) &&
    LeafAt(f, off).value.next == slot && LeafAt(f, slot).value.next == leaf.next
  }

  /** Writing two leaves at two different offsets: each can be read back. */
  lemma TwoLeavesWritten(f: File, a: int, b: int, la: Leaf, lb: Leaf)
    requires a != b
    ensures LeafAt(f[a := LeafBlock(la)][b := LeafBlock(lb)], a) == Some(la)
    ensures LeafAt(f[a := LeafBlock(la)][b := LeafBlock(lb)], b) == Some(lb)
  {
  }

  /** A split that later writes leave alone stays done. */
  lemma LeafSplitDoneKept(f0: File, f1: File, off: int, slot: int, leaf: Leaf, key: Key, value: Payload)
    requires |leaf.children| >= 1
    requires LeafSplitDone(f0, off, slot, leaf, key, value) && LeavesKept(f0, f1)
    ensures LeafSplitDone(f1, off, slot, leaf, key, value)
  {
  }

  /**
   * What `insert` does once the file is open: -1 without a meta block or
   * a readable leaf, 1 (and no change) when the key is present, otherwise 0
   * with the record inserted in place into a leaf with room, or the leaf
   * split in two.
   */
  ghost predicate InsertOutcome(f0: File, f1: File, m1: Meta, key: Key, value: Payload, status: Status) {
    match MetaAt(f0)
    case None => status == Code(-1) && f1 == f0
    case Some(m) =>
      match LeafFor(f0, m, key)
      case None => status == Undefined
      case Some(off) =>
        match LeafAt(f0, off)
        case None => status == Code(-1) && f1 == f0
        case Some(leaf) =>
          if key in RecordKeys(leaf.children) then status == Code(1) && f1 == f0 && m1 == m
          else if |leaf.children| < m.order then
            status == Code(0) && m1 == m &&
            f1 == f0[off := LeafBlock(leaf.(children := Inserted(leaf.children, key, value)))]
          else
            |leaf.children| >= 1 && (status == Code(0) || status == Undefined) &&
            m1.leafNodeNum == m.leafNodeNum + 1 &&
            (status == Code(0) ==> LeafSplitDone(f1, off, m.slot, leaf, key, value))
  }

  /**
   * Every leaf `insert` writes fits its block: the leaf with the record
   * inserted, or after a split both halves.
   */
  ghost predicate InsertFits(f: File, m: Meta, key: Key, value: Payload) {
    match LeafFor(f, m, key)
    case None => true
    case Some(off) =>
      match LeafAt(f, off)
      case None => true
      case Some(leaf) =>
        key !in RecordKeys(leaf.children) ==>
          if |leaf.children| < m.order then LeafFits(Inserted(leaf.children, key, value))
          else |leaf.children| >= 1 ==>
            LeafFits(LeafSplitLow(leaf.children, key, value)) && LeafFits(LeafSplitHigh(leaf.children, key, value))
  }

  /** The leaf `update` writes back, with the key's value replaced, fits its block. */
  ghost predicate UpdateFits(f: File, m: Meta, key: Key, value: Payload) {
    match LeafFor(f, m, key)
    case None => true
    case Some(off) =>
      match LeafAt(f, off)
      case None => true
      case Some(leaf) =>
        var i := FindRecord(leaf.children, key);
        i < |leaf.children| ==> LeafFits(leaf.children[i := Record(key, value)])
  }

  /**
   * Both leaves a borrow for `leaf` writes fit their blocks: the borrower
   * with the lent record and the lender without it.
   */
  ghost predicate BorrowFits(f: File, m: Meta, leaf: Leaf) {
    var half := m.order / 2;
    var pl := LeafAt(f, leaf.prev);
    var nl := LeafAt(f, leaf.next);
    var leftLends := leaf.prev != 0 && pl.Some? && |pl.value.children| != half;
    var leftRefuses := leaf.prev == 0 || (pl.Some? && |pl.value.children| == half);
    var rightLends := leftRefuses && leaf.next != 0 && nl.Some? && |nl.value.children| != half;
    (leftLends && |pl.value.children| >= 1 ==>
      var pc := pl.value.children;
      LeafFits([pc[|pc| - 1]] + leaf.children) && LeafFits(pc[..|pc| - 1])) &&
    (rightLends && |nl.value.children| >= 1 ==>
      var nc := nl.value.children;
      LeafFits(leaf.children + [nc[0]]) && LeafFits(nc[1..]))
  }

  /**
   * Every leaf the rebalancing of `leaf` writes fits its block: the
   * borrower and the lender of a borrow, or the survivor of a merge.
   */
  ghost predicate RebalanceFits(f: File, m: Meta, leaf: Leaf, isLast: bool) {
    var half := m.order / 2;
    var pl := LeafAt(f, leaf.prev);
    var nl := LeafAt(f, leaf.next);
    var leftRefuses := leaf.prev == 0 || (pl.Some? && |pl.value.children| == half);
    var merges := leftRefuses && (leaf.next == 0 || (nl.Some? && |nl.value.children| == half));
    BorrowFits(f, m, leaf) &&
    (merges && isLast && pl.Some? ==> LeafFits(pl.value.children + leaf.children)) &&
    (merges && !isLast && nl.Some? ==> LeafFits(leaf.children + nl.value.children))
  }

  /**
   * Every leaf `remove` writes fits its block: the leaf with the record
   * deleted, or what its rebalancing writes.
   */
  ghost predicate RemoveFits(f: File, m: Meta, key: Key) {
    match Descend(f, m.rootOffset, Levels(m.height), key)
    case None => true
    case Some(parentOff) =>
      match InternalAt(f, parentOff)
      case None => true
      case Some(parent) =>
        |parent.children| == 0 ||
        var where := FindIndex(parent.children, key);
        match LeafAt(f, parent.children[where].child)
        case None => true
        case Some(leaf) =>
          BinarySearch(leaf.children, key) ==>
            var rest := leaf.(children := DeleteAt(leaf.children, FindRecord(leaf.children, key)));
            var minN := if m.leafNodeNum == 1 then 0 else m.order / 2;
            if |rest.children| >= minN then LeafFits(rest.children)
            else RebalanceFits(f, m, rest, where == |parent.children| - 1)
  }

  /**
   * What `remove` leaves behind when the leaf fell below its minimum (the
   * `leaf` given holds what is left after the deletion): a left sibling that
   * holds more than order / 2 records lends its last one, failing that a
   * right sibling lends its first one, and otherwise the leaf merges, as the
   * last child of its parent into its left sibling, else with its right
   * sibling, and one leaf fewer is counted. Borrowing changes no count.
   */
  ghost predicate LeafRebalanced(f0: File, m0: Meta, f1: File, m1: Meta, off: int, leaf: Leaf, isLast: bool) {
    var half := m0.order / 2;
    var pl := LeafAt(f0, leaf.prev);
    var nl := LeafAt(f0, leaf.next);
    var leftLends := leaf.prev != 0 && pl.Some? && |pl.value.children| != half;
    var leftRefuses := leaf.prev == 0 || (pl.Some? && |pl.value.children| == half);
    var rightLends := leftRefuses && leaf.next != 0 && nl.Some? && |nl.value.children| != half;
    var merges := leftRefuses && (leaf.next == 0 || (nl.Some? && |nl.value.children| == half));
    (leftLends ==>
      m1 == m0 && |pl.value.children| >= 1 &&
      LeafAt(f1, off) == Some(leaf.(children := [pl.value.children[|pl.value.children| - 1]] + leaf.children)) &&
      (leaf.prev != off ==>
        LeafAt(f1, leaf.prev) == Some(pl.value.(children := pl.value.children[..|pl.value.children| - 1])))) &&
    (rightLends ==>
      m1 == m0 && |nl.value.children| >= 1 &&
      LeafAt(f1, off) == Some(leaf.(children := leaf.children + [nl.value.children[0]])) &&
      (leaf.next != off ==> LeafAt(f1, leaf.next) == Some(nl.value.(children := nl.value.children[1..])))) &&
    (merges ==> m1.leafNodeNum == m0.leafNodeNum - 1) &&
    (merges && isLast ==>
      pl.Some? && LeafAt(f1, leaf.prev).Some? &&
      LeafAt(f1, leaf.prev).value.children == pl.value.children + leaf.children &&
      LeafAt(f1, leaf.prev).value.next == leaf.next) &&
    (merges && !isLast ==>
      nl.Some? && LeafAt(f1, off).Some? &&
      LeafAt(f1, off).value.children == leaf.children + nl.value.children &&
      LeafAt(f1, off).value.next == nl.value.next)
  }

  /**
   * What `remove` does: nothing but -1 when `binary_search` does not find
   * the key in its leaf;
   * otherwise its record is deleted and the leaf written back, with 0, when
   * the leaf keeps at least its minimum (none when it is the only leaf,
   * order / 2 otherwise); below that the leaf is rebalanced.
   */
  ghost predicate RemoveOutcome(f0: File, m0: Meta, f1: File, m1: Meta, key: Key, status: Status) {
    match Descend(f0, m0.rootOffset, Levels(m0.height), key)
    case None => status == Undefined
    case Some(parentOff) =>
      match InternalAt(f0, parentOff)
      case None => status == Undefined
      case Some(parent) =>
        if |parent.children| == 0 then status == Undefined
        else
          var where := FindIndex(parent.children, key);
          var off := parent.children[where].child;
          match LeafAt(f0, off)
          case None => status == Undefined
          case Some(leaf) =>
            if !BinarySearch(leaf.children, key) then status == Code(-1) && f1 == f0 && m1 == m0
            else
              var rest := leaf.(children := DeleteAt(leaf.children, FindRecord(leaf.children, key)));
              var minN := if m0.leafNodeNum == 1 then 0 else m0.order / 2;
              if |rest.children| >= minN then status == Code(0) && m1 == m0 && f1 == f0[off := LeafBlock(rest)]
              else
                (status == Code(0) || status == Undefined) &&
                (status == Code(0) ==> LeafRebalanced(f0, m0, f1, m1, off, rest, where == |parent.children| - 1))
  }

  /**
   * The copy loop of `search_range`: values of the records from position
   * `b` on, up to the end `e`, go after `values` until `max` values are held.
   */
  method CopyValues(cur: seq<Record>, b0: nat, e: nat, i0: nat, max: nat, values0: seq<Payload>)
    returns (b: nat, i: nat, values: seq<Payload>)
    requires b0 <= e <= |cur| && i0 <= max
    ensures b0 <= b <= e && i <= max && i - i0 == b - b0
    ensures i == max || b == e
    ensures values == values0 + Values(cur[b0..b])
  {
    b, i, values := b0, i0, values0;
    while b != e && i < max
      invariant b0 <= b <= e && i <= max && i - i0 == b - b0
      invariant values == values0 + Values(cur[b0..b])
    {
      assert cur[b0..b + 1] == cur[b0..b] + [cur[b]];
      values := values + [cur[b].value];
      b := b + 1;
      i := i + 1;
    }
  }

  class BPlusTree {
    var file: File
    var meta: Meta
    var fpOpen: bool
    var fpLevel: nat

    /** A handle is open exactly when the nesting level is positive. */
    ghost predicate Valid()
      reads this
    {
      fpOpen <==> fpLevel > 0
    }

    /** The `if (!fp && fp_level == 0) open_file()` at the head of `map` and `unmap`. */
    method Access()
      requires Valid()
      modifies this`fpOpen, this`fpLevel
      ensures Valid() && fpOpen && fpLevel == AccessLevel(old(fpLevel))
    {
      if !fpOpen && fpLevel == 0 {
        fpOpen := true;
        fpLevel := fpLevel + 1;
      }
    }

    /**
     * `open_file`: at level 0 it opens the file (`succeeded` says whether the
     * `fopen` worked; "wb+" empties it) and counts one level only on success; at
     * a deeper level it only counts.
     */
    method OpenFile(mode: Mode, succeeded: bool)
      requires Valid()
      modifies this`fpOpen, this`fpLevel, this`file
      ensures Valid()
      ensures old(fpLevel) > 0 ==> fpLevel == old(fpLevel) + 1 && file == old(file)
      ensures old(fpLevel) == 0 && !succeeded ==> fpLevel == 0 && file == old(file)
      ensures old(fpLevel) == 0 && succeeded ==>
        fpLevel == 1 && file == (if mode == Truncate then map[] else old(file))
    {
      if fpLevel == 0 {
        if !succeeded {
          fpOpen := false;
          return;
        }
        fpOpen := true;
        if mode == Truncate {
          file := map[];
        }
      }
      fpLevel := fpLevel + 1;
    }

    /** `close_file`: the handle is released only at level 1, and the level never goes below 0. */
    method CloseFile()
      requires Valid()
      modifies this`fpOpen, this`fpLevel
      ensures Valid()
      ensures fpLevel == (if old(fpLevel) > 0 then old(fpLevel) - 1 else 0)
      ensures fpOpen == (old(fpOpen) && old(fpLevel) != 1)
    {
      if fpLevel == 1 {
        if fpOpen {
          fpOpen := false;
        }
      }
      if fpLevel > 0 {
        fpLevel := fpLevel - 1;
      }
    }

    /** `close_tree_file`: an open handle is closed and the level reset to 0. */
    method CloseTreeFile()
      requires Valid()
      modifies this`fpOpen, this`fpLevel
      ensures Valid() && !fpOpen && fpLevel == 0
    {
      if fpOpen {
        fpOpen := false;
        fpLevel := 0;
      }
    }

    /**
     * The constructor: without `forceEmpty` the file is opened "rb+" and its
     * meta block read; a file without one, or `forceEmpty`, is recreated
     * "wb+" as a fresh tree. `existing` is the file found on disk (empty
     * when there is none) and `opens` whether `fopen` succeeds; without a
     * handle nothing is read or written.
     */
    constructor (existing: File, forceEmpty: bool, opens: bool)
      ensures Valid() && !fpOpen && fpLevel == 0
      ensures !opens ==> file == existing
      ensures opens && !forceEmpty && MetaAt(existing).Some? ==> file == existing && meta == MetaAt(existing).value
      ensures opens && (forceEmpty || MetaAt(existing).None?) ==> file == FreshFile() && meta == FreshMeta
    {
      file := existing;
      fpOpen, fpLevel := false, 0;
      new;
      var empty := forceEmpty;
      if !empty {
        OpenFile(ReadWrite, opens);
        if fpOpen {
          var m := MetaAt(file);
          if m.None? {
            CloseFile();
            empty := true;
          } else {
            meta := m.value;
          }
        }
        if fpOpen {
          CloseFile();
        }
      }
      if empty {
        OpenFile(Truncate, opens);
        if fpOpen {
          meta := Meta(BP_ORDER, VALUE_T_SIZE, KEY_BUFFER_SIZE, 0, 0, 1, OFFSET_BLOCK, 0, 0);
          var root := AllocInternal();
          meta := meta.(rootOffset := root);
          var leaf := AllocLeaf();
          meta := meta.(leafOffset := leaf);
          WriteMeta();
          WriteBlock(root, InternalBlock(Internal(0, 0, 0, [Index(EmptyKey, leaf)])));
          WriteBlock(leaf, LeafBlock(Leaf(root, 0, 0, [])));
          CloseFile();
        }
      }
    }

    /**
     * `init_from_empty`: a zeroed meta block, a root and an empty leaf
     * allocated from OFFSET_BLOCK on, and the three written over the file.
     */
    method InitFromEmpty()
      requires Valid()
      modifies this`meta, this`file, this`fpOpen, this`fpLevel
      ensures Valid() && fpLevel == AccessLevel(old(fpLevel))
      ensures meta == FreshMeta && file == old(file) + FreshFile()
    {
      meta := Meta(BP_ORDER, VALUE_T_SIZE, KEY_BUFFER_SIZE, 0, 0, 1, OFFSET_BLOCK, 0, 0);
      var root := AllocInternal();
      meta := meta.(rootOffset := root);
      var leaf := AllocLeaf();
      meta := meta.(leafOffset := leaf);
      assert meta == FreshMeta && root == FreshRoot && leaf == FreshLeaf;
      FreshWrites(file);
      WriteMeta();
      WriteBlock(root, InternalBlock(Internal(0, 0, 0, [Index(EmptyKey, leaf)])));
      WriteBlock(leaf, LeafBlock(Leaf(root, 0, 0, [])));
    }

    /**
     * `traverse`: nothing without an open handle; otherwise the records of
     * every leaf met following `next` from `meta.leaf_offset` until offset 0
     * or a block that cannot be read as a leaf, leaf after leaf. `chain` is
     * that walk.
     */
    method Traverse(ghost chain: seq<int>) returns (records: seq<Record>)
      requires Valid()
      requires fpOpen ==> LeafChain(file, chain, 0) && chain[0] == meta.leafOffset
      ensures !fpOpen ==> records == []
      ensures fpOpen ==> records == ChainRecords(file, chain[..|chain| - 1])
    {
      records := [];
      if !fpOpen {
        return;
      }
      var offset := meta.leafOffset;
      ghost var k := 0;
      while offset != 0
        invariant 0 <= k < |chain| && offset == chain[k]
        invariant records == ChainRecords(file, chain[..k])
        decreases |chain| - k
      {
        var leaf := LeafAt(file, offset);
        if leaf.None? {
          break;
        }
        assert chain[..k + 1][..k] == chain[..k];
        records := records + leaf.value.children;
        offset := leaf.value.next;
        k := k + 1;
      }
      assert k == |chain| - 1;
    }

    /** `alloc(size)`: the old slot, with the slot moved on by exactly `size`. */
    method Alloc(size: nat) returns (slot: int)
      modifies this`meta
      ensures slot == old(meta.slot)
      ensures meta == old(meta).(slot := old(meta.slot) + size)
    {
      slot := meta.slot;
      meta := meta.(slot := meta.slot + size);
    }

    /** `alloc` of a leaf: one leaf more, LEAF_NODE_SIZE bytes taken. */
    method AllocLeaf() returns (slot: int)
      modifies this`meta
      ensures slot == old(meta.slot)
      ensures meta == old(meta).(leafNodeNum := old(meta.leafNodeNum) + 1, slot := old(meta.slot) + LEAF_NODE_SIZE)
    {
      meta := meta.(leafNodeNum := meta.leafNodeNum + 1);
      slot := Alloc(LEAF_NODE_SIZE);
    }

    /** `alloc` of an internal node: one internal node more, INTERNAL_NODE_SIZE bytes taken. */
    method AllocInternal() returns (slot: int)
      modifies this`meta
      ensures slot == old(meta.slot)
      ensures meta == old(meta).(internalNodeNum := old(meta.internalNodeNum) + 1, slot := old(meta.slot) + INTERNAL_NODE_SIZE)
    {
      meta := meta.(internalNodeNum := meta.internalNodeNum + 1);
      slot := Alloc(INTERNAL_NODE_SIZE);
    }

    /** `unalloc` of a leaf: only the leaf count goes down. */
    method UnallocLeaf()
      modifies this`meta
      ensures meta == old(meta).(leafNodeNum := old(meta.leafNodeNum) - 1)
    {
      meta := meta.(leafNodeNum := meta.leafNodeNum - 1);
    }

    /** `unalloc` of an internal node: only the internal node count goes down. */
    method UnallocInternal()
      modifies this`meta
      ensures meta == old(meta).(internalNodeNum := old(meta.internalNodeNum) - 1)
    {
      meta := meta.(internalNodeNum := meta.internalNodeNum - 1);
    }

    /**
     * `unmap` of a whole block at `off`. A leaf is written only when its
     * encoding fits the block `alloc` reserved for it.
     */
    method WriteBlock(off: int, b: Block)
      requires Valid()
      requires b.LeafBlock? ==> LeafFits(b.leaf.children)
      modifies this`fpOpen, this`fpLevel, this`file
      ensures Valid() && fpLevel == AccessLevel(old(fpLevel))
      ensures file == old(file)[off := b]
    {
      Access();
      file := file[off := b];
    }

    /** `unmap(&meta, OFFSET_META)`. */
    method WriteMeta()
      requires Valid()
      modifies this`fpOpen, this`fpLevel, this`file
      ensures Valid() && fpLevel == AccessLevel(old(fpLevel))
      ensures file == old(file)[OFFSET_META := MetaBlock(meta)]
    {
      WriteBlock(OFFSET_META, MetaBlock(meta));
    }

    /**
     * A SIZE_NO_CHILDREN `map` and `unmap` that set the parent of the node at
     * `off`; false (and no write) when no node is there.
     */
    method WriteParent(off: int, p: int) returns (ok: bool)
      requires Valid()
      modifies this`fpOpen, this`fpLevel, this`file
      ensures Valid() && fpLevel == AccessLevel(old(fpLevel))
      ensures ok == IsNode(old(file), off)
      ensures ok ==> SetParentAt(old(file), off, p) == Some(file)
      ensures !ok ==> file == old(file)
    {
      Access();
      ok := IsNode(file, off);
      if ok {
        file := file[off := WithParent(file[off], p)];
      }
    }

    /** The same for the `prev` field. */
    method WritePrev(off: int, p: int) returns (ok: bool)
      requires Valid()
      modifies this`fpOpen, this`fpLevel, this`file
      ensures Valid() && fpLevel == AccessLevel(old(fpLevel))
      ensures ok == IsNode(old(file), off)
      ensures ok ==> SetPrevAt(old(file), off, p) == Some(file)
      ensures !ok ==> file == old(file)
    {
      Access();
      ok := IsNode(file, off);
      if ok {
        file := file[off := WithPrev(file[off], p)];
      }
    }

    /**
     * `search_index`: from the root, height - 1 times read an internal node
     * and go to the child `find` picks; false where a read node is missing
     * or has no entries.
     */
    method SearchIndex(key: Key) returns (ok: bool, off: int)
      requires Valid()
      modifies this`fpOpen, this`fpLevel
      ensures Valid() && Accessed(old(fpLevel), fpLevel)
      ensures Descend(file, meta.rootOffset, Levels(meta.height), key) == (if ok then Some(off) else None)
    {
      var org := meta.rootOffset;
      var height := meta.height;
      while height > 1
        invariant Valid() && Accessed(old(fpLevel), fpLevel)
        invariant Descend(file, org, Levels(height), key) == Descend(file, meta.rootOffset, Levels(meta.height), key)
        decreases height
      {
        Access();
        var node := InternalAt(file, org);
        if node.None? || |node.value.children| == 0 {
          return false, 0;
        }
        org := node.value.children[FindIndex(node.value.children, key)].child;
        height := height - 1;
      }
      return true, org;
    }

    /** `search_leaf(index, key)`: 0 for index 0, else the child `find` picks in that internal node. */
    method SearchLeaf(index: int, key: Key) returns (ok: bool, off: int)
      requires Valid()
      modifies this`fpOpen, this`fpLevel
      ensures Valid() && Accessed(old(fpLevel), fpLevel)
      ensures LeafUnder(file, index, key) == (if ok then Some(off) else None)
    {
      if index == 0 {
        return true, 0;
      }
      Access();
      var node := InternalAt(file, index);
      if node.None? || |node.value.children| == 0 {
        return false, 0;
      }
      return true, node.value.children[FindIndex(node.value.children, key)].child;
    }

    /** `search_leaf(key)`: the leaf a key belongs to. */
    method SearchLeafOf(key: Key) returns (ok: bool, off: int)
      requires Valid()
      modifies this`fpOpen, this`fpLevel
      ensures Valid() && Accessed(old(fpLevel), fpLevel)
      ensures LeafFor(file, meta, key) == (if ok then Some(off) else None)
    {
      off := 0;
      var index;
      ok, index := SearchIndex(key);
      if ok {
        ok, off := SearchLeaf(index, key);
      }
    }

    /**
     * `search`: the keycmp of the key's lower bound in its leaf against the
     * key (so 0 when found), storing that record's value; -1 when the leaf
     * cannot be read or the lower bound is past its end.
     */
    method Search(key: Key, value0: Payload) returns (status: Status, value: Payload)
      requires Valid()
      modifies this`fpOpen, this`fpLevel
      ensures Valid() && Accessed(old(fpLevel), fpLevel)
      ensures status == SearchResult(file, meta, key)
      ensures value == SearchValue(file, meta, key, value0)
    {
      value := value0;
      var ok, off := SearchLeafOf(key);
      if !ok {
        return Undefined, value;
      }
      Access();
      var leaf := LeafAt(file, off);
      if leaf.None? {
        return Code(-1), value;
      }
      var rs := leaf.value.children;
      var i := FindRecord(rs, key);
      if i < |rs| {
        value := rs[i].value;
        status := Code(KeyCmp(rs[i].key, key));
      } else {
        status := Code(-1);
      }
    }

    /**
     * `update`: when the key's lower bound in its leaf is the key, its value
     * is replaced and the leaf written back (0); 1 when the lower bound is
     * another key, -1 when there is none.
     */
    method Update(key: Key, value: Payload) returns (status: Status)
      requires Valid() && UpdateFits(file, meta, key, value)
      modifies this`fpOpen, this`fpLevel, this`file
      ensures Valid() && Accessed(old(fpLevel), fpLevel)
      ensures match LeafFor(old(file), meta, key)
        case None => status == Undefined && file == old(file)
        case Some(off) => match LeafAt(old(file), off)
          case None => status == Undefined && file == old(file)
          case Some(leaf) =>
            var i := FindRecord(leaf.children, key);
            (i == |leaf.children| ==> status == Code(-1) && file == old(file)) &&
            (i < |leaf.children| && leaf.children[i].key != key ==> status == Code(1) && file == old(file)) &&
            (i < |leaf.children| && leaf.children[i].key == key ==>
              status == Code(0) &&
              file == old(file)[off := LeafBlock(leaf.(children := leaf.children[i := Record(key, value)]))])
    {
      var ok, off := SearchLeafOf(key);
      if !ok {
        return Undefined;
      }
      Access();
      var l := LeafAt(file, off);
      if l.None? {
        return Undefined;
      }
      var leaf := l.value;
      var i := FindRecord(leaf.children, key);
      if i < |leaf.children| {
        if KeyCmp(key, leaf.children[i].key) == 0 {
          KeyCmpZeroIffEqual(key, leaf.children[i].key);
          leaf := leaf.(children := leaf.children[i := Record(key, value)]);
          WriteBlock(off, LeafBlock(leaf));
          status := Code(0);
        } else {
          KeyCmpZeroIffEqual(key, leaf.children[i].key);
          status := Code(1);
        }
      } else {
        status := Code(-1);
      }
    }

    /**
     * `reset_index_children_parent`: the node under each entry, in order,
     * gets `p` as its parent; false at the first entry whose child is not a
     * node.
     */
    method ResetIndexChildrenParent(cs: seq<Index>, p: int) returns (ok: bool)
      requires Valid() && fpOpen
      modifies this`fpOpen, this`fpLevel, this`file
      ensures fpOpen && fpLevel == old(fpLevel)
      ensures ok <==> SetParents(old(file), ChildOffsets(cs), p).Some?
      ensures ok ==> SetParents(old(file), ChildOffsets(cs), p) == Some(file)
      ensures file.Keys == old(file).Keys && LeavesKept(old(file), file)
      ensures forall o :: InternalAt(old(file), o).Some? <==> InternalAt(file, o).Some?
      ensures MetaAt(file) == MetaAt(old(file))
    {
      var xs := ChildOffsets(cs);
      var k := 0;
      ok := true;
      while k < |cs| && ok
        invariant 0 <= k <= |cs| && |xs| == |cs| && fpOpen && fpLevel == old(fpLevel)
        invariant SetParents(old(file), xs[..k], p) == Some(file)
        invariant !ok ==> k < |cs| && !IsNode(file, xs[k])
        decreases |cs| - k, ok
      {
        assert xs[..k + 1][..k] == xs[..k];
        var w := WriteParent(cs[k].child, p);
        if w {
          k := k + 1;
        } else {
          ok := false;
        }
      }
      SetParentsKeepLeaves(old(file), xs[..k], p);
      SetParentsEffect(old(file), xs[..k], p);
      SetParentsEffect(old(file), xs, p);
      if OFFSET_META in old(file) {
        assert SameButParent(old(file)[OFFSET_META], file[OFFSET_META]);
      }
      if ok {
        assert xs[..k] == xs;
      } else {
        if xs[k] in old(file) {
          assert SameButParent(old(file)[xs[k]], file[xs[k]]);
        }
      }
    }

    /**
     * `node_create` for leaves: the new sibling goes right after `node` (at
     * the old slot) with node's parent and next, the node links to it, the
     * old next leaf's `prev` names it, and the meta block is written.
     */
    method NodeCreateLeaf(offset: int, node: Leaf) returns (ok: bool, node': Leaf, next: Leaf)
      requires Valid() && fpOpen
      modifies this
      ensures fpOpen && fpLevel == old(fpLevel)
      ensures next == Leaf(node.parent, node.next, offset, []) && node' == node.(next := old(meta.slot))
      ensures meta == old(meta).(leafNodeNum := old(meta.leafNodeNum) + 1, slot := old(meta.slot) + LEAF_NODE_SIZE)
      ensures ok <==> node.next == 0 || IsNode(old(file), node.next)
      ensures ok ==>
        file == (if node.next == 0 then old(file) else SetPrevAt(old(file), node.next, old(meta.slot)).value)[OFFSET_META := MetaBlock(meta)]
      ensures !ok ==> file == old(file)
    {
      next := Leaf(node.parent, node.next, offset, []);
      var slot := AllocLeaf();
      node' := node.(next := slot);
      ok := true;
      if next.next != 0 {
        ok := WritePrev(next.next, slot);
        if !ok {
          return;
        }
      }
      WriteMeta();
    }

    /** `node_create` for internal nodes, the same on the internal node chain. */
    method NodeCreateInternal(offset: int, node: Internal) returns (ok: bool, node': Internal, next: Internal)
      requires Valid() && fpOpen
      modifies this
      ensures fpOpen && fpLevel == old(fpLevel)
      ensures next == Internal(node.parent, node.next, offset, []) && node' == node.(next := old(meta.slot))
      ensures meta == old(meta).(internalNodeNum := old(meta.internalNodeNum) + 1, slot := old(meta.slot) + INTERNAL_NODE_SIZE)
      ensures ok <==> node.next == 0 || IsNode(old(file), node.next)
      ensures ok ==>
        file == (if node.next == 0 then old(file) else SetPrevAt(old(file), node.next, old(meta.slot)).value)[OFFSET_META := MetaBlock(meta)]
      ensures !ok ==> file == old(file)
    {
      next := Internal(node.parent, node.next, offset, []);
      var slot := AllocInternal();
      node' := node.(next := slot);
      ok := true;
      if next.next != 0 {
        ok := WritePrev(next.next, slot);
        if !ok {
          return;
        }
      }
      WriteMeta();
    }

    /**
     * `node_remove` for leaves: `node` leaves the chain, `prev` links past it,
     * the leaf after it gets node's `prev`, one leaf fewer is counted and the
     * meta block is written.
     */
    method NodeRemoveLeaf(prev: Leaf, node: Leaf) returns (ok: bool, prev': Leaf)
      requires Valid() && fpOpen
      modifies this
      ensures fpOpen && fpLevel == old(fpLevel)
      ensures prev' == prev.(next := node.next)
      ensures meta == old(meta).(leafNodeNum := old(meta.leafNodeNum) - 1)
      ensures ok <==> node.next == 0 || IsNode(old(file), node.next)
      ensures ok ==>
        file == (if node.next == 0 then old(file) else SetPrevAt(old(file), node.next, node.prev).value)[OFFSET_META := MetaBlock(meta)]
      ensures !ok ==> file == old(file)
    {
      UnallocLeaf();
      prev' := prev.(next := node.next);
      ok := true;
      if node.next != 0 {
        ok := WritePrev(node.next, node.prev);
        if !ok {
          return;
        }
      }
      WriteMeta();
    }

    /** `node_remove` for internal nodes, the same on the internal node chain. */
    method NodeRemoveInternal(prev: Internal, node: Internal) returns (ok: bool, prev': Internal)
      requires Valid() && fpOpen
      modifies this
      ensures fpOpen && fpLevel == old(fpLevel)
      ensures prev' == prev.(next := node.next)
      ensures meta == old(meta).(internalNodeNum := old(meta.internalNodeNum) - 1)
      ensures ok <==> node.next == 0 || IsNode(old(file), node.next)
      ensures ok ==>
        file == (if node.next == 0 then old(file) else SetPrevAt(old(file), node.next, node.prev).value)[OFFSET_META := MetaBlock(meta)]
      ensures !ok ==> file == old(file)
    {
      UnallocInternal();
      prev' := prev.(next := node.next);
      ok := true;
      if node.next != 0 {
        ok := WritePrev(node.next, node.prev);
        if !ok {
          return;
        }
      }
      WriteMeta();
    }

    /**
     * `insert_record_no_split`: nothing happens to a leaf holding `order`
     * records or more; otherwise the records from the key's upper bound on
     * move one place right and the new record takes the freed place, which
     * is the sorted insertion `Inserted`.
     */
    method InsertRecordNoSplit(leaf: Leaf, key: Key, value: Payload) returns (r: Leaf)
      requires meta.order <= BP_ORDER
      ensures |leaf.children| >= meta.order ==> r == leaf
      ensures |leaf.children| < meta.order ==> r == leaf.(children := Inserted(leaf.children, key, value))
    {
      var n := |leaf.children|;
      if n >= meta.order {
        return leaf;
      }
      var pos := UpperBound(RecordKeys(leaf.children), key);
      var cs := leaf.children + [Record(key, value)];
      var i := n;
      while i > pos
        invariant pos <= i <= n && |cs| == n + 1
        invariant forall j | 0 <= j < i :: cs[j] == leaf.children[j]
        invariant forall j | i < j <= n :: cs[j] == leaf.children[j - 1]
      {
        if i < BP_ORDER {
          cs := cs[i := cs[i - 1]];
        }
        i := i - 1;
      }
      if pos < BP_ORDER {
        cs := cs[pos := Record(key, value)];
      }
      assert cs == leaf.children[..pos] + [Record(key, value)] + leaf.children[pos..];
      r := leaf.(children := cs);
    }

    /**
     * `insert_key_to_index` at offset 0, where the node that was split had
     * no parent: a new root over `left` and `after` with `key` between them,
     * one level more, and both children's parent reset to it.
     */
    method NewRoot(key: Key, left: int, after: int) returns (status: Status)
      requires Valid() && fpOpen
      requires Formatted(file, meta.slot)
      requires left < meta.slot && after < meta.slot
      modifies this
      ensures fpOpen && fpLevel == old(fpLevel)
      ensures Formatted(file, meta.slot)
      ensures meta == old(meta).(rootOffset := old(meta.slot), height := old(meta.height) + 1,
                                 internalNodeNum := old(meta.internalNodeNum) + 1, slot := old(meta.slot) + INTERNAL_NODE_SIZE)
      ensures IndexLevelKept(old(file), file)
      ensures status == Code(0) || status == Undefined
      ensures status == Code(0) ==>
        InternalAt(file, old(meta.slot)) == Some(Internal(0, 0, 0, [Index(key, left), Index(EmptyKey, after)])) &&
        ParentOf(file, left) == Some(old(meta.slot)) && ParentOf(file, after) == Some(old(meta.slot))
    {
      ghost var f0 := file;
      var slot := AllocInternal();
      meta := meta.(rootOffset := slot, height := meta.height + 1);
      var root := Internal(0, 0, 0, [Index(key, left), Index(EmptyKey, after)]);
      MetaWriteKeeps(file, meta);
      WriteMeta();
      NewBlockKeeps(file, slot, meta.slot, InternalBlock(root));
      ghost var fm := file;
      WriteBlock(slot, InternalBlock(root));
      IndexLevelKeptTrans(f0, fm, file);
      ghost var f1 := file;
      var ok := ResetIndexChildrenParent(root.children, slot);
      assert IndexLevelKept(f1, file);
      IndexLevelKeptTrans(f0, f1, file);
      FormattedKept(f1, file, meta.slot);
      if !ok {
        return Undefined;
      }
      assert ChildOffsets(root.children) == [left, after];
      AdoptTwo(f1, slot, root, left, after, file);
      return Code(0);
    }

    /**
     * The split of a full internal node in `insert_key_to_index`: a new right
     * sibling (at the old slot) takes the entries after `IndexSplitPoint`,
     * the new entry goes into the half the key was placed in, both halves
     * are written, and the moved children get the sibling as parent.
     */
    method SplitInternal(offset: int, node: Internal, key: Key, after: int)
      returns (ok: bool, middle: Key, sibling: int)
      requires Valid() && fpOpen
      requires meta.order == BP_ORDER && Formatted(file, meta.slot)
      requires offset != 0 && InternalAt(file, offset) == Some(node) && |node.children| == BP_ORDER
      modifies this
      ensures fpOpen && fpLevel == old(fpLevel)
      ensures Formatted(file, meta.slot) && old(meta.slot) <= meta.slot
      ensures meta.order == old(meta.order) && meta.leafNodeNum == old(meta.leafNodeNum)
      ensures LeavesKept(old(file), file)
      ensures forall o | InternalAt(old(file), o).Some? :: InternalAt(file, o).Some?
      ensures ok ==> sibling == old(meta.slot) && offset < meta.slot && sibling < meta.slot
      ensures ok ==> middle == node.children[IndexSplitPoint(node.children, key)].key
      ensures ok ==>
        InternalAt(file, offset).Some? && InternalAt(file, sibling).Some? &&
        InternalAt(file, offset).value.children == IndexSplitLow(node.children, key, after) &&
        InternalAt(file, sibling).value.children == IndexSplitHigh(node.children, key, after) &&
        InternalAt(file, offset).value.next == sibling && InternalAt(file, sibling).value.prev == offset
    {
      var node';
      var next;
      ghost var f0 := file;
      ok, node', next := NodeCreateInternal(offset, node);
      middle := EmptyKey;
      sibling := node'.next;
      if !ok {
        return;
      }
      CreateKeepsIndexLevel(f0, node.next, sibling, meta);
      ghost var f1 := file;
      var c := node.children;
      middle := c[IndexSplitPoint(c, key)].key;
      node' := node'.(children := IndexSplitLow(c, key, after));
      next := next.(children := IndexSplitHigh(c, key, after));
      WriteBlock(offset, InternalBlock(node'));
      WriteBlock(sibling, InternalBlock(next));
      SplitWritesKeepIndexLevel(f0, f1, sibling, meta.slot, offset, node', next);
      ghost var f2 := file;
      ok := ResetIndexChildrenParent(next.children, sibling);
      assert IndexLevelKept(f2, file);
      IndexLevelKeptTrans(f0, f2, file);
      if ok {
        SetParentsEffect(f2, ChildOffsets(next.children), sibling);
        assert SameButParent(f2[offset], file[offset]) && SameButParent(f2[sibling], file[sibling]);
      }
    }

    /**
     * `insert_key_to_index`: adds the separator `key` with the new right
     * child `after` next to `left` in the internal node at `offset`.
     * Offset 0 (the old root had no parent) makes a new root; a node with
     * room takes the entry in place; a full node is split and its middle key
     * goes up to its parent the same way. `fuel` bounds the climb; running
     * out of it is Undefined.
     */
    method InsertKeyToIndex(fuel: nat, offset: int, key: Key, left: int, after: int) returns (status: Status)
      requires Valid() && fpOpen
      requires meta.order == BP_ORDER && Formatted(file, meta.slot)
      requires left < meta.slot && after < meta.slot
      modifies this
      ensures fpOpen && fpLevel == old(fpLevel)
      ensures Formatted(file, meta.slot) && old(meta.slot) <= meta.slot
      ensures meta.order == old(meta.order) && meta.leafNodeNum == old(meta.leafNodeNum)
      ensures LeavesKept(old(file), file)
      ensures forall o | InternalAt(old(file), o).Some? :: InternalAt(file, o).Some?
      ensures status == Code(0) || status == Undefined
      ensures offset == 0 && status == Code(0) ==>
        meta.rootOffset == old(meta.slot) && meta.height == old(meta.height) + 1 &&
        InternalAt(file, old(meta.slot)) == Some(Internal(0, 0, 0, [Index(key, left), Index(EmptyKey, after)])) &&
        ParentOf(file, left) == Some(old(meta.slot)) && ParentOf(file, after) == Some(old(meta.slot))
      ensures offset != 0 && InternalAt(old(file), offset).None? ==> status == Undefined && file == old(file)
      ensures offset != 0 && InternalAt(old(file), offset).Some? ==>
        var node := InternalAt(old(file), offset).value;
        1 <= |node.children| < old(meta.order) ==>
          status == Code(0) && meta == old(meta) &&
          file == old(file)[offset := InternalBlock(node.(children := InsertIndexEntry(node.children, key, after)))]
      decreases fuel
    {
      if offset == 0 {
        status := NewRoot(key, left, after);
        return;
      }
      Access();
      var n := InternalAt(file, offset);
      if n.None? {
        return Undefined;
      }
      var node := n.value;
      if |node.children| == 0 || |node.children| > meta.order {
        return Undefined;
      }
      if |node.children| < meta.order {
        node := node.(children := InsertIndexEntry(node.children, key, after));
        WriteBlock(offset, InternalBlock(node));
        return Code(0);
      }
      var ok, middle, sibling := SplitInternal(offset, node, key, after);
      if !ok || fuel == 0 {
        return Undefined;
      }
      status := InsertKeyToIndex(fuel - 1, node.parent, middle, offset, sibling);
    }

    /**
     * The split branch of `insert`: a new leaf (at the old slot) takes the
     * records from `LeafSplitPoint` on, the record goes into the half it was
     * placed in, both leaves are written, and the new leaf's first key goes
     * into the parent index node as the separator between them.
     */
    method SplitLeaf(index: int, off: int, leaf: Leaf, key: Key, value: Payload) returns (status: Status)
      requires Valid() && fpOpen
      requires meta.order == BP_ORDER && Formatted(file, meta.slot)
      requires LeafAt(file, off) == Some(leaf) && |leaf.children| == BP_ORDER
      requires LeafFits(LeafSplitLow(leaf.children, key, value)) && LeafFits(LeafSplitHigh(leaf.children, key, value))
      modifies this
      ensures fpOpen && fpLevel == old(fpLevel)
      ensures status == Code(0) || status == Undefined
      ensures meta.leafNodeNum == old(meta.leafNodeNum) + 1
      ensures status == Code(0) ==> LeafSplitDone(file, off, old(meta.slot), leaf, key, value)
    {
      var ok, leaf', next := NodeCreateLeaf(off, leaf);
      if !ok {
        return Undefined;
      }
      var rs := leaf.children;
      var p := LeafSplitPoint(rs, key);
      leaf' := leaf'.(children := rs[..p]);
      next := next.(children := rs[p..]);
      if LeafPlaceRight(rs, key) {
        next := InsertRecordNoSplit(next, key, value);
      } else {
        leaf' := InsertRecordNoSplit(leaf', key, value);
      }
      assert leaf'.children == LeafSplitLow(rs, key, value) && next.children == LeafSplitHigh(rs, key, value);
      assert leaf'.next == old(meta.slot) && next.next == leaf.next;
      ghost var created := file;
      CreateKeepsIndexLevel(old(file), leaf.next, old(meta.slot), meta);
      WriteBlock(off, LeafBlock(leaf'));
      WriteBlock(leaf'.next, LeafBlock(next));
      TwoLeavesWritten(created, off, leaf'.next, leaf', next);
      LeafWritesKeepFormat(old(file), created, old(meta.slot), meta.slot, off, leaf', next);
      LeafSplitSizes(rs, key, value);
      ghost var written := file;
      status := InsertKeyToIndex(Fuel(meta), index, next.children[0].key, off, leaf'.next);
      LeafSplitDoneKept(written, file, off, old(meta.slot), leaf, key, value);
    }

    /**
     * `insert`: opens the file, reads the meta block, finds the key's leaf,
     * answers 1 when the key is already there, and otherwise inserts the
     * record, in place or by a split; the file is closed again on every way
     * out.
     */
    method Insert(key: Key, value: Payload, succeeded: bool) returns (status: Status)
      requires Valid() && (MetaAt(file).Some? ==> TreeFile(file) && InsertFits(file, MetaAt(file).value, key, value))
      modifies this
      ensures Valid() && fpOpen == old(fpOpen) && fpLevel == old(fpLevel)
      ensures old(fpLevel) == 0 && !succeeded ==> status == Code(-1) && file == old(file)
      ensures old(fpLevel) > 0 || succeeded ==> InsertOutcome(old(file), file, meta, key, value, status)
    {
      OpenFile(ReadWrite, succeeded);
      if !fpOpen {
        return Code(-1);
      }
      var m := MetaAt(file);
      if m.None? {
        CloseFile();
        return Code(-1);
      }
      meta := m.value;
      var ok, index := SearchIndex(key);
      var off;
      if ok {
        ok, off := SearchLeaf(index, key);
      }
      if !ok {
        CloseFile();
        return Undefined;
      }
      var l := LeafAt(file, off);
      if l.None? {
        CloseFile();
        return Code(-1);
      }
      var leaf := l.value;
      BinarySearchIffPresent(leaf.children, key);
      if BinarySearch(leaf.children, key) {
        CloseFile();
        return Code(1);
      }
      if |leaf.children| >= meta.order {
        status := SplitLeaf(index, off, leaf, key, value);
      } else {
        var r := InsertRecordNoSplit(leaf, key, value);
        WriteBlock(off, LeafBlock(r));
        status := Code(0);
      }
      CloseFile();
    }

    /**
     * `change_parent_child`: in the internal node at `parent`, the entry
     * `find` picks for `o` takes the key `n`; when that is the node's last
     * entry, whose key is never looked at, the same is done in its parent.
     * When it succeeds only separator keys have changed. Where `parent` holds
     * no internal node, which includes offset 0 once the climb passes the
     * root, the source reads whatever bytes are there as a node and writes
     * them back changed: the answer is Undefined, and nothing is claimed
     * about the file.
     */
    method ChangeParentChild(fuel: nat, parent: int, o: Key, n: Key) returns (status: Status)
      requires Valid() && fpOpen
      modifies this`fpOpen, this`fpLevel, this`file
      ensures fpOpen && fpLevel == old(fpLevel)
      ensures status == Code(0) || status == Undefined
      ensures status == Code(0) ==> OnlyKeysChanged(old(file), file)
      ensures InternalAt(old(file), parent).None? ==> status == Undefined
      ensures InternalAt(old(file), parent).Some? ==>
        var node := InternalAt(old(file), parent).value;
        |node.children| >= 1 && FindIndex(node.children, o) < |node.children| - 1 ==>
          var w := FindIndex(node.children, o);
          status == Code(0) &&
          file == old(file)[parent := InternalBlock(node.(children := node.children[w := Index(n, node.children[w].child)]))]
      decreases fuel
    {
      Access();
      var p := InternalAt(file, parent);
      if p.None? || |p.value.children| == 0 {
        return Undefined;
      }
      var node := p.value;
      var w := FindIndex(node.children, o);
      var node' := node.(children := node.children[w := Index(n, node.children[w].child)]);
      assert SameLinks(node, node');
      WriteBlock(parent, InternalBlock(node'));
      if w == |node.children| - 1 {
        if fuel == 0 {
          return Undefined;
        }
        status := ChangeParentChild(fuel - 1, node.parent, o, n);
      } else {
        status := Code(0);
      }
    }

    /**
     * `borrow_key` for leaves: the sibling on the chosen side (`next` from
     * the right, `prev` from the left) lends one record unless it holds
     * exactly order / 2. From the right, its first record goes to the end of
     * the borrower and the separator that led to the borrower's first key
     * (`first`) becomes the lender's second key; from the left, its last
     * record goes to the front and the separator for its first key becomes
     * that record's key. The lender is written back; the caller writes the
     * borrower. Code(1) is true, Code(0) false.
     */
    method BorrowLeafKey(fromRight: bool, borrower: Leaf, first: Key) returns (status: Status, r: Leaf)
      requires Valid() && fpOpen
      requires var lenderOff := if fromRight then borrower.next else borrower.prev;
        var l := LeafAt(file, lenderOff);
        l.Some? && |l.value.children| != meta.order / 2 && |l.value.children| >= 1 ==>
          LeafFits(if fromRight then l.value.children[1..] else l.value.children[..|l.value.children| - 1])
      modifies this`fpOpen, this`fpLevel, this`file
      ensures fpOpen && fpLevel == old(fpLevel)
      ensures status != Undefined ==> file.Keys == old(file).Keys
      ensures status == Code(0) || status == Code(1) || status == Undefined
      ensures var lenderOff := if fromRight then borrower.next else borrower.prev;
        match LeafAt(old(file), lenderOff)
        case None => status == Undefined && file == old(file)
        case Some(lender) =>
          (|lender.children| == meta.order / 2 ==> status == Code(0) && file == old(file) && r == borrower) &&
          (|lender.children| != meta.order / 2 ==> status != Code(0)) &&
          (status == Code(1) ==>
            |lender.children| != meta.order / 2 && |lender.children| >= 1 &&
            (fromRight ==>
              r == borrower.(children := borrower.children + [lender.children[0]]) &&
              LeafAt(file, lenderOff) == Some(lender.(children := lender.children[1..]))) &&
            (!fromRight ==>
              r == borrower.(children := [lender.children[|lender.children| - 1]] + borrower.children) &&
              LeafAt(file, lenderOff) == Some(lender.(children := lender.children[..|lender.children| - 1]))))
      ensures var lenderOff := if fromRight then borrower.next else borrower.prev;
        LeafAt(old(file), lenderOff).Some? && status != Undefined ==>
          OnlyKeysChanged(old(file), file[lenderOff := old(file)[lenderOff]])
    {
      r := borrower;
      var lenderOff := if fromRight then borrower.next else borrower.prev;
      Access();
      var l := LeafAt(file, lenderOff);
      if l.None? {
        return Undefined, r;
      }
      var lender := l.value;
      var n := |lender.children|;
      if n == meta.order / 2 {
        return Code(0), r;
      }
      var st;
      if fromRight {
        if n < 2 {
          return Undefined, r;
        }
        st := ChangeParentChild(Fuel(meta), borrower.parent, first, lender.children[1].key);
        r := borrower.(children := borrower.children + [lender.children[0]]);
        lender := lender.(children := lender.children[1..]);
      } else {
        if n < 1 {
          return Undefined, r;
        }
        st := ChangeParentChild(Fuel(meta), lender.parent, lender.children[0].key, lender.children[n - 1].key);
        r := borrower.(children := [lender.children[n - 1]] + borrower.children);
        lender := lender.(children := lender.children[..n - 1]);
      }
      if st == Undefined {
        return Undefined, r;
      }
      WriteBlock(lenderOff, LeafBlock(lender));
      status := Code(1);
    }

    /**
     * `borrow_key` for internal nodes: the sibling on the chosen side lends
     * one entry unless it holds exactly order / 2. From the right, its first
     * entry goes to the end of the borrower and the parent's separator at the
     * lower bound of the borrower's last key becomes that entry's key; from
     * the left, its last entry goes to the front, the borrower's old first
     * entry takes the parent's separator for the lender, and that separator
     * becomes the lender's second-to-last key. The moved child gets
     * `offset` as parent and the lender is written back; the caller writes
     * the borrower. Code(1) is true, Code(0) false.
     */
    method BorrowInternalKey(fromRight: bool, borrower: Internal, offset: int) returns (status: Status, r: Internal)
      requires Valid() && fpOpen && Formatted(file, meta.slot)
      modifies this`fpOpen, this`fpLevel, this`file
      ensures fpOpen && fpLevel == old(fpLevel)
      ensures status == Code(0) || status == Code(1) || status == Undefined
      ensures file.Keys == old(file).Keys && Formatted(file, meta.slot) && IndexLevelKept(old(file), file)
      ensures var lenderOff := if fromRight then borrower.next else borrower.prev;
        match InternalAt(old(file), lenderOff)
        case None => status == Undefined && file == old(file)
        case Some(lender) =>
          (|lender.children| == meta.order / 2 ==> status == Code(0) && file == old(file) && r == borrower) &&
          (status == Code(1) ==>
            |lender.children| != meta.order / 2 && |lender.children| >= 1 &&
            r == borrower.(children := r.children) &&
            (fromRight ==>
              r.children == borrower.children + [lender.children[0]] &&
              InternalAt(file, lenderOff) == Some(lender.(children := lender.children[1..])) &&
              RightLent(old(file), file, borrower, offset, lenderOff, lender)) &&
            (!fromRight ==>
              var last := lender.children[|lender.children| - 1];
              ChildOffsets(r.children) == [last.child] + ChildOffsets(borrower.children) && r.children[0] == last &&
              InternalAt(file, lenderOff) == Some(lender.(children := lender.children[..|lender.children| - 1])) &&
              |lender.children| >= 2 && LeftLent(old(file), file, r, borrower, offset, lenderOff, lender)))
    {
      r := borrower;
      var lenderOff := if fromRight then borrower.next else borrower.prev;
      Access();
      var l := InternalAt(file, lenderOff);
      if l.None? {
        return Undefined, r;
      }
      var lender := l.value;
      if |lender.children| == meta.order / 2 {
        return Code(0), r;
      }
      if fromRight {
        status, r := LendFromRight(borrower, offset, lenderOff, lender);
      } else {
        status, r := LendFromLeft(borrower, offset, lenderOff, lender);
      }
    }

    /**
     * The right sibling `lender` lends its first entry, which goes to the
     * end of the borrower and whose key becomes the parent's separator at
     * the lower bound of the borrower's last key.
     */
    method LendFromRight(borrower: Internal, offset: int, lenderOff: int, lender: Internal)
      returns (status: Status, r: Internal)
      requires Valid() && fpOpen && Formatted(file, meta.slot) && InternalAt(file, lenderOff) == Some(lender)
      modifies this`fpOpen, this`fpLevel, this`file
      ensures fpOpen && fpLevel == old(fpLevel)
      ensures status == Code(1) || status == Undefined
      ensures file.Keys == old(file).Keys && Formatted(file, meta.slot) && IndexLevelKept(old(file), file)
      ensures status == Code(1) ==>
        |lender.children| >= 1 && r == borrower.(children := borrower.children + [lender.children[0]]) &&
        InternalAt(file, lenderOff) == Some(lender.(children := lender.children[1..])) &&
        RightLent(old(file), file, borrower, offset, lenderOff, lender)
    {
      r := borrower;
      var n := |lender.children|;
      var pn := InternalAt(file, borrower.parent);
      if n < 1 || |borrower.children| == 0 || pn.None? || |pn.value.children| == 0 {
        return Undefined, r;
      }
      var lend := lender.children[0];
      var parent' := RightLendParent(pn.value, borrower, lend.key);
      InternalWriteKeeps(file, borrower.parent, parent');
      WriteBlock(borrower.parent, InternalBlock(parent'));
      r := borrower.(children := borrower.children + [lend]);
      var ok := LendChild(lend.child, offset, lenderOff, lender.(children := lender.children[1..]));
      status := if ok then Code(1) else Undefined;
    }

    /**
     * The left sibling `lender` lends its last entry, which goes to the
     * front of the borrower; the borrower's old first entry takes the
     * parent's separator for the lender, and that separator becomes the
     * lender's second-to-last key.
     */
    method LendFromLeft(borrower: Internal, offset: int, lenderOff: int, lender: Internal)
      returns (status: Status, r: Internal)
      requires Valid() && fpOpen && Formatted(file, meta.slot) && InternalAt(file, lenderOff) == Some(lender)
      modifies this`fpOpen, this`fpLevel, this`file
      ensures fpOpen && fpLevel == old(fpLevel)
      ensures status == Code(1) || status == Undefined
      ensures file.Keys == old(file).Keys && Formatted(file, meta.slot) && IndexLevelKept(old(file), file)
      ensures status == Code(1) ==>
        |lender.children| >= 2 && r == borrower.(children := r.children) &&
        var last := lender.children[|lender.children| - 1];
        ChildOffsets(r.children) == [last.child] + ChildOffsets(borrower.children) && r.children[0] == last &&
        InternalAt(file, lenderOff) == Some(lender.(children := lender.children[..|lender.children| - 1])) &&
        LeftLent(old(file), file, r, borrower, offset, lenderOff, lender)
    {
      r := borrower;
      var n := |lender.children|;
      var pn := InternalAt(file, lender.parent);
      if n < 2 || pn.None? || |pn.value.children| == 0 {
        return Undefined, r;
      }
      var pc := pn.value.children;
      var lend := lender.children[n - 1];
      var parent' := LeftLendParent(pn.value, lender);
      InternalWriteKeeps(file, lender.parent, parent');
      WriteBlock(lender.parent, InternalBlock(parent'));
      r := borrower.(children := LeftLentEntries(borrower.children, lend, pc[FindIndex(pc, lender.children[0].key)].key));
      var ok := LendChild(lend.child, offset, lenderOff, lender.(children := lender.children[..n - 1]));
      status := if ok then Code(1) else Undefined;
    }

    /**
     * The end of `borrow_key` for internal nodes: the lent child gets the
     * borrower `offset` as parent, then the lender is written back as
     * `lender'`.
     */
    method LendChild(child: int, offset: int, lenderOff: int, lender': Internal) returns (ok: bool)
      requires Valid() && fpOpen && Formatted(file, meta.slot) && InternalAt(file, lenderOff).Some?
      modifies this`fpOpen, this`fpLevel, this`file
      ensures fpOpen && fpLevel == old(fpLevel)
      ensures file.Keys == old(file).Keys && Formatted(file, meta.slot) && IndexLevelKept(old(file), file)
      ensures ok <==> IsNode(old(file), child)
      ensures ok ==> InternalAt(file, lenderOff) == Some(lender')
      ensures ok && child != lenderOff ==> ParentOf(file, child) == Some(offset)
      ensures ok ==> file == SetParentAt(old(file), child, offset).value[lenderOff := InternalBlock(lender')]
    {
      ghost var f0 := file;
      ok := WriteParent(child, offset);
      if !ok {
        return;
      }
      ParentWriteKeeps(f0, child, offset);
      ghost var f1 := file;
      InternalWriteKeeps(f1, lenderOff, lender');
      WriteBlock(lenderOff, InternalBlock(lender'));
      IndexLevelKeptTrans(f0, f1, file);
    }

    /**
     * `merge_keys`: `node` takes `next`'s entries after its own (the
     * separator between them is not pulled down) and `next` leaves the chain.
     */
    method MergeKeys(node: Internal, next: Internal) returns (ok: bool, r: Internal)
      requires Valid() && fpOpen
      modifies this
      ensures fpOpen && fpLevel == old(fpLevel)
      ensures r == node.(children := node.children + next.children, next := next.next)
      ensures meta == old(meta).(internalNodeNum := old(meta.internalNodeNum) - 1)
      ensures ok <==> next.next == 0 || IsNode(old(file), next.next)
      ensures ok ==>
        file == (if next.next == 0 then old(file) else SetPrevAt(old(file), next.next, next.prev).value)[OFFSET_META := MetaBlock(meta)]
      ensures !ok ==> file == old(file)
    {
      ok, r := NodeRemoveInternal(node.(children := node.children + next.children), next);
    }

    /**
     * The merge in `remove_from_index` when no sibling could lend: the last
     * child of its parent merges into its `prev` sibling, any other into its
     * `next` sibling, the absorbed node's children get the survivor as
     * parent, and the survivor is written.
     */
    method MergeInternal(offset: int, node: Internal, isLast: bool) returns (ok: bool)
      requires Valid() && fpOpen && Formatted(file, meta.slot)
      requires InternalAt(file, offset).Some?
      modifies this
      ensures fpOpen && fpLevel == old(fpLevel)
      ensures Formatted(file, meta.slot) && meta.slot == old(meta.slot)
      ensures meta.order == old(meta.order) && meta.leafNodeNum == old(meta.leafNodeNum)
      ensures ok ==> meta == old(meta).(internalNodeNum := old(meta.internalNodeNum) - 1)
      ensures IndexLevelKept(old(file), file)
      ensures ok && isLast ==>
        InternalAt(old(file), node.prev).Some? && InternalAt(file, node.prev).Some? &&
        InternalAt(file, node.prev).value.children == InternalAt(old(file), node.prev).value.children + node.children
      ensures ok && !isLast ==>
        InternalAt(old(file), node.next).Some? &&
        InternalAt(file, offset) == Some(node.(children := node.children + InternalAt(old(file), node.next).value.children,
                                               next := InternalAt(old(file), node.next).value.next))
    {
      ghost var f0 := file;
      if isLast {
        var pn := InternalAt(file, node.prev);
        if pn.None? {
          return false;
        }
        var prev := pn.value;
        ok := ResetIndexChildrenParent(node.children, node.prev);
        if !ok {
          return;
        }
        ghost var f1 := file;
        assert IndexLevelKept(f0, f1) && InternalAt(f1, node.prev).Some?;
        ok, prev := MergeKeys(prev, node);
        if !ok {
          return;
        }
        CreateKeepsIndexLevel(f1, node.next, node.prev, meta);
        ghost var f2 := file;
        IndexLevelKeptTrans(f0, f1, f2);
        InternalWriteKeeps(f2, node.prev, prev);
        WriteBlock(node.prev, InternalBlock(prev));
        IndexLevelKeptTrans(f0, f2, file);
        FormattedKept(f0, file, meta.slot);
      } else {
        var nn := InternalAt(file, node.next);
        if nn.None? {
          return false;
        }
        var next := nn.value;
        ok := ResetIndexChildrenParent(next.children, offset);
        if !ok {
          return;
        }
        ghost var f1 := file;
        assert IndexLevelKept(f0, f1) && InternalAt(f1, offset).Some?;
        var node';
        ok, node' := MergeKeys(node, next);
        if !ok {
          return;
        }
        CreateKeepsIndexLevel(f1, next.next, next.prev, meta);
        ghost var f2 := file;
        IndexLevelKeptTrans(f0, f1, f2);
        InternalWriteKeeps(f2, offset, node');
        WriteBlock(offset, InternalBlock(node'));
        IndexLevelKeptTrans(f0, f2, file);
        FormattedKept(f0, file, meta.slot);
      }
    }

    /**
     * `remove_from_index`: the entry `find` picks for `key` in the internal
     * node at `offset` (read by the caller as `node`) is removed. A root
     * left with one child, when it is not the only internal node, is
     * dropped and its child becomes the root. A node left with fewer than
     * `MinEntries` borrows from its left sibling, then its right sibling,
     * and otherwise merges, and the removal then goes on in the parent with
     * the node's first key. `fuel` bounds the climb.
     */
    method RemoveFromIndex(fuel: nat, offset: int, node: Internal, key: Key) returns (status: Status)
      requires Valid() && fpOpen && Formatted(file, meta.slot)
      requires InternalAt(file, offset).Some?
      modifies this
      ensures fpOpen && fpLevel == old(fpLevel)
      ensures Formatted(file, meta.slot) && meta.slot == old(meta.slot)
      ensures meta.order == old(meta.order) && meta.leafNodeNum == old(meta.leafNodeNum)
      ensures IndexLevelKept(old(file), file)
      ensures status == Code(0) || status == Undefined
      ensures |node.children| == 0 ==> status == Undefined && file == old(file)
      ensures |node.children| >= 1 ==>
        var c := RemoveIndexEntry(node.children, FindIndex(node.children, key));
        var collapse := |c| == 1 && old(meta.rootOffset) == offset && old(meta.internalNodeNum) != 1;
        (collapse ==>
          status == Code(0) && file == old(file)[OFFSET_META := MetaBlock(meta)] &&
          meta == old(meta).(internalNodeNum := old(meta.internalNodeNum) - 1, height := old(meta.height) - 1,
                             rootOffset := c[0].child)) &&
        (!collapse && |c| >= MinEntries(old(meta), offset) ==>
          status == Code(0) && meta == old(meta) && file == old(file)[offset := InternalBlock(node.(children := c))])
      decreases fuel, 1
    {
      if |node.children| == 0 {
        return Undefined;
      }
      var minN := MinEntries(meta, offset);
      var indexKey := node.children[0].key;
      var cut := node.(children := RemoveIndexEntry(node.children, FindIndex(node.children, key)));
      if |cut.children| == 1 && meta.rootOffset == offset && meta.internalNodeNum != 1 {
        UnallocInternal();
        meta := meta.(height := meta.height - 1, rootOffset := cut.children[0].child);
        MetaWriteKeeps(file, meta);
        WriteMeta();
        return Code(0);
      }
      if |cut.children| >= minN {
        InternalWriteKeeps(file, offset, cut);
        WriteBlock(offset, InternalBlock(cut));
        return Code(0);
      }
      status := RebalanceIndex(fuel, offset, cut, indexKey);
    }

    /**
     * The borrowing in `remove_from_index`: from the left sibling unless the
     * node is its parent's first child, then from the right sibling when
     * nothing was borrowed yet and the node is not the parent's last child.
     */
    method BorrowForIndex(offset: int, cut: Internal, parent: Internal) returns (status: Status, r: Internal)
      requires Valid() && fpOpen && Formatted(file, meta.slot) && |parent.children| > 0
      modifies this`fpOpen, this`fpLevel, this`file
      ensures fpOpen && fpLevel == old(fpLevel)
      ensures status == Code(0) || status == Code(1) || status == Undefined
      ensures file.Keys == old(file).Keys && Formatted(file, meta.slot) && IndexLevelKept(old(file), file)
    {
      ghost var f0 := file;
      status, r := Code(0), cut;
      if offset != parent.children[0].child {
        status, r := BorrowInternalKey(false, r, offset);
      }
      ghost var f1 := file;
      if status == Code(0) && offset != parent.children[|parent.children| - 1].child {
        status, r := BorrowInternalKey(true, r, offset);
      }
      IndexLevelKeptTrans(f0, f1, file);
    }

    /**
     * The underflow branch of `remove_from_index` for the node at `offset`,
     * already cut to `cut`: borrow from the left sibling, then the right
     * one; a borrowing node is written back, otherwise it is merged and the
     * removal goes on in the parent with `indexKey`, the node's old first key.
     */
    method RebalanceIndex(fuel: nat, offset: int, cut: Internal, indexKey: Key) returns (status: Status)
      requires Valid() && fpOpen && Formatted(file, meta.slot)
      requires InternalAt(file, offset).Some?
      modifies this
      ensures fpOpen && fpLevel == old(fpLevel)
      ensures Formatted(file, meta.slot) && meta.slot == old(meta.slot)
      ensures meta.order == old(meta.order) && meta.leafNodeNum == old(meta.leafNodeNum)
      ensures IndexLevelKept(old(file), file)
      ensures status == Code(0) || status == Undefined
      decreases fuel, 0
    {
      ghost var f0 := file;
      Access();
      var pn := InternalAt(file, cut.parent);
      if pn.None? || |pn.value.children| == 0 {
        return Undefined;
      }
      var parent := pn.value;
      var st, r := BorrowForIndex(offset, cut, parent);
      if st == Undefined {
        return Undefined;
      }
      ghost var f2 := file;
      if st == Code(1) {
        InternalWriteKeeps(file, offset, r);
        WriteBlock(offset, InternalBlock(r));
        IndexLevelKeptTrans(f0, f2, file);
        return Code(0);
      }
      var ok := MergeInternal(offset, r, offset == parent.children[|parent.children| - 1].child);
      IndexLevelKeptTrans(f0, f2, file);
      if !ok || fuel == 0 || InternalAt(file, r.parent).None? {
        return Undefined;
      }
      ghost var f3 := file;
      status := RemoveFromIndex(fuel - 1, r.parent, parent, indexKey);
      IndexLevelKeptTrans(f0, f3, file);
    }

    /**
     * The borrowing in `remove`: from the left sibling when there is one,
     * then from the right sibling when nothing was borrowed yet and there is
     * one. `first` is the key the borrower's first slot holds.
     */
    method BorrowForLeaf(leaf: Leaf, first: Key) returns (status: Status, r: Leaf)
      requires Valid() && fpOpen && BorrowFits(file, meta, leaf)
      modifies this`fpOpen, this`fpLevel, this`file
      ensures fpOpen && fpLevel == old(fpLevel)
      ensures status == Code(0) || status == Code(1) || status == Undefined
      ensures status == Code(0) ==> file == old(file) && r == leaf
      ensures var half := meta.order / 2;
        var pl := LeafAt(old(file), leaf.prev);
        var nl := LeafAt(old(file), leaf.next);
        var leftLends := leaf.prev != 0 && pl.Some? && |pl.value.children| != half;
        var leftRefuses := leaf.prev == 0 || (pl.Some? && |pl.value.children| == half);
        var rightLends := leftRefuses && leaf.next != 0 && nl.Some? && |nl.value.children| != half;
        (leftLends ==> status != Code(0)) &&
        (leftLends && status == Code(1) ==>
          |pl.value.children| >= 1 &&
          r == leaf.(children := [pl.value.children[|pl.value.children| - 1]] + leaf.children) &&
          LeafAt(file, leaf.prev) == Some(pl.value.(children := pl.value.children[..|pl.value.children| - 1]))) &&
        (rightLends ==> status != Code(0)) &&
        (rightLends && status == Code(1) ==>
          |nl.value.children| >= 1 &&
          r == leaf.(children := leaf.children + [nl.value.children[0]]) &&
          LeafAt(file, leaf.next) == Some(nl.value.(children := nl.value.children[1..]))) &&
        (leftRefuses && (leaf.next == 0 || (nl.Some? && |nl.value.children| == half)) ==> status != Code(1)) &&
        (status == Code(1) ==> leftLends || rightLends) &&
        (status == Code(0) ==> leftRefuses && (leaf.next == 0 || (nl.Some? && |nl.value.children| == half)))
      ensures Formatted(old(file), meta.slot) && status != Undefined ==> Formatted(file, meta.slot)
    {
      status, r := Code(0), leaf;
      if leaf.prev != 0 {
        status, r := BorrowLeafKey(false, leaf, first);
      }
      if status == Code(0) && leaf.next != 0 {
        status, r := BorrowLeafKey(true, leaf, first);
      }
    }

    /**
     * The merge in `remove` when no sibling lent a record: as the last child
     * of its parent the leaf merges into its left sibling, whose first key
     * goes to `remove_from_index`; otherwise the right sibling merges into
     * the leaf and `first` goes up. The absorbed leaf leaves the chain and
     * the surviving one is written.
     */
    method MergeLeaf(offset: int, leaf: Leaf, first: Key, isLast: bool) returns (ok: bool, indexKey: Key)
      requires Valid() && fpOpen && Formatted(file, meta.slot)
      requires LeafAt(file, offset).Some?
      requires isLast && LeafAt(file, leaf.prev).Some? ==> LeafFits(LeafAt(file, leaf.prev).value.children + leaf.children)
      requires !isLast && LeafAt(file, leaf.next).Some? ==> LeafFits(leaf.children + LeafAt(file, leaf.next).value.children)
      modifies this
      ensures fpOpen && fpLevel == old(fpLevel)
      ensures Formatted(file, meta.slot) && meta.slot == old(meta.slot) && meta.order == old(meta.order)
      ensures ok ==> meta == old(meta).(leafNodeNum := old(meta.leafNodeNum) - 1)
      ensures forall o | InternalAt(old(file), o).Some? :: InternalAt(file, o).Some?
      ensures ok && isLast ==>
        LeafAt(old(file), leaf.prev).Some? &&
        LeafAt(file, leaf.prev) == Some(MergeLeafs(LeafAt(old(file), leaf.prev).value, leaf).(next := leaf.next))
      ensures ok && !isLast ==>
        LeafAt(old(file), leaf.next).Some? &&
        LeafAt(file, offset) == Some(MergeLeafs(leaf, LeafAt(old(file), leaf.next).value).(next := LeafAt(old(file), leaf.next).value.next))
    {
      if isLast {
        var pl := LeafAt(file, leaf.prev);
        if pl.None? || |pl.value.children| == 0 {
          return false, first;
        }
        var prev := pl.value;
        indexKey := prev.children[0].key;
        ok, prev := NodeRemoveLeaf(MergeLeafs(prev, leaf), leaf);
        if !ok {
          return;
        }
        WriteBlock(leaf.prev, LeafBlock(prev));
      } else {
        var nl := LeafAt(file, leaf.next);
        if nl.None? {
          return false, first;
        }
        var next := nl.value;
        indexKey := first;
        var merged;
        ok, merged := NodeRemoveLeaf(MergeLeafs(leaf, next), next);
        if !ok {
          return;
        }
        WriteBlock(offset, LeafBlock(merged));
      }
    }

    /** The part of `remove` below the leaf's minimum: borrow, else merge and remove the separator. */
    method RemoveUnderflow(parentOff: int, parent: Internal, isLast: bool, offset: int, leaf: Leaf, first: Key)
      returns (status: Status)
      requires Valid() && fpOpen && Formatted(file, meta.slot)
      requires LeafAt(file, offset).Some? && InternalAt(file, parentOff).Some?
      requires RebalanceFits(file, meta, leaf, isLast)
      modifies this
      ensures fpOpen && fpLevel == old(fpLevel)
      ensures status == Code(0) ==> Formatted(file, meta.slot)
      ensures status == Code(0) || status == Undefined
      ensures status == Code(0) ==> LeafRebalanced(old(file), old(meta), file, meta, offset, leaf, isLast)
    {
      var st, r := BorrowForLeaf(leaf, first);
      if st == Undefined {
        return Undefined;
      }
      if st == Code(1) {
        WriteBlock(offset, LeafBlock(r));
        return Code(0);
      }
      var ok, indexKey := MergeLeaf(offset, leaf, first, isLast);
      if !ok || InternalAt(file, parentOff).None? {
        return Undefined;
      }
      status := RemoveFromIndex(Fuel(meta), parentOff, parent, indexKey);
    }

    /**
     * The walk of `search_range` along the leaves, from the left key's leaf
     * until the right key's leaf, offset 0, or `max` values: in each leaf the
     * values from the left key's lower bound (first leaf) or the start
     * (others) are copied. It fails where the walk reaches a block that is
     * not a leaf. `cur[b..e]` is what is left of the last leaf copied from.
     */
    method WalkLeaves(lk: Key, offLeft: int, offRight: int, max: nat, ghost chain: seq<int>)
      returns (ok: bool, i: nat, values: seq<Payload>, cur: seq<Record>, b: nat, e: nat)
      requires Valid() && LeafChain(file, chain, offRight) && chain[0] == offLeft
      modifies this`fpOpen, this`fpLevel
      ensures Valid() && Accessed(old(fpLevel), fpLevel)
      ensures Walked(WalkSegments(file, chain, offLeft, lk), chain[|chain| - 1], offRight, max, ok, i, values, cur, b, e)
    {
      ghost var segs := WalkSegments(file, chain, offLeft, lk);
      var off := offLeft;
      i, values, cur, b, e := 0, [], [], 0, 0;
      ghost var k := 0;
      WalkStart(segs, max);
      while off != offRight && off != 0 && i < max
        invariant Valid() && Accessed(old(fpLevel), fpLevel)
        invariant 0 <= k < |chain| && off == chain[k]
        invariant Walking(segs, k, i, max, values, cur, b, e)
        decreases |chain| - k
      {
        Access();
        var l := LeafAt(file, off);
        if l.None? {
          WalkFails(segs, k, i, max, values, cur, b, e, off, offRight);
          return false, i, values, cur, b, e;
        }
        ghost var cur0, b1, e0, i0, values0 := cur, b, e, i, values;
        LeafChainNext(file, chain, offRight, k);
        cur := l.value.children;
        b := if off == offLeft then FindRecord(cur, lk) else 0;
        e := |cur|;
        assert segs[k] == cur[b..e];
        ghost var b0 := b;
        b, i, values := CopyValues(cur, b, e, i, max, values);
        WalkStep(segs, k, i0, max, values0, cur0, b1, e0, cur, b0, b, e, i, values);
        off := l.value.next;
        k := k + 1;
      }
      WalkFinish(segs, k, i, max, values, cur, b, e, off, offRight);
      ok := true;
    }

    /**
     * The last leaf of `search_range`: its values from the left key's lower
     * bound up to the right key's upper bound go after `values`, until `max`
     * values are held; `cur[b..e]` is what is left of them.
     */
    method RangeTail(leaf: Leaf, lk: Key, right: Key, i0: nat, max: nat, values0: seq<Payload>)
      returns (i: nat, values: seq<Payload>, cur: seq<Record>, b: nat, e: nat)
      requires !KeyLess(right, lk) && i0 <= max
      ensures var s := LastSegment(leaf, lk, right);
        i0 <= i <= max && i - i0 <= |s| && (i == max || i - i0 == |s|) &&
        values == values0 + Values(s[..i - i0]) &&
        b <= e <= |cur| && (b != e <==> i - i0 < |s|) && (b != e ==> cur[b] == s[i - i0])
    {
      cur := leaf.children;
      BoundsOrdered(RecordKeys(cur), lk, right);
      b := FindRecord(cur, lk);
      e := UpperBound(RecordKeys(cur), right);
      ghost var b0 := b;
      b, i, values := CopyValues(cur, b, e, i0, max, values0);
      assert cur[b0..b] == LastSegment(leaf, lk, right)[..b - b0];
    }

    /**
     * `search_range`: -1 without a left key or with the keys out of order;
     * otherwise the walk of `WalkLeaves`, and then, with room left, the
     * values of the right key's leaf from the left key's lower bound to the
     * right key's upper bound. With `wantNext`, the `next` flag is set when
     * `max` values were copied with records of the leaf copied from left
     * over, and the left key then moves to the first of those. `chain` is
     * the walk along the leaves.
     */
    method SearchRange(left: Option<Key>, right: Key, max: nat, wantNext: bool, ghost chain: seq<int>)
      returns (status: Status, values: seq<Payload>, more: Option<bool>, left': Option<Key>)
      requires Valid()
      requires left.Some? && LeafFor(file, meta, left.value).Some? && LeafFor(file, meta, right).Some? ==>
        LeafChain(file, chain, LeafFor(file, meta, right).value) && chain[0] == LeafFor(file, meta, left.value).value
      modifies this`fpOpen, this`fpLevel
      ensures Valid() && Accessed(old(fpLevel), fpLevel)
      ensures RangeOutcome(file, meta, left, right, max, wantNext, chain, status, values, more, left')
    {
      values, more, left' := [], None, left;
      if left.None? || KeyCmp(left.value, right) > 0 {
        return Code(-1), values, more, left';
      }
      var lk := left.value;
      KeyCmpAntisymmetric(lk, right);
      var okL, offLeft := SearchLeafOf(lk);
      var okR, offRight := SearchLeafOf(right);
      if !okL || !okR {
        return Undefined, values, more, left';
      }
      status, values, more, left' := RangeWalk(lk, right, offLeft, offRight, max, wantNext, chain);
    }

    /** The walk of `search_range` from the left key's leaf `offLeft`. */
    method RangeWalk(lk: Key, right: Key, offLeft: int, offRight: int, max: nat, wantNext: bool,
                     ghost chain: seq<int>)
      returns (status: Status, values: seq<Payload>, more: Option<bool>, left': Option<Key>)
      requires Valid() && LeafChain(file, chain, offRight) && chain[0] == offLeft && !KeyLess(right, lk)
      modifies this`fpOpen, this`fpLevel
      ensures Valid() && Accessed(old(fpLevel), fpLevel)
      ensures RangeWalked(file, chain, offLeft, offRight, lk, right, max, wantNext, status, values, more, left')
    {
      var ok, i, cur, b, e;
      ok, i, values, cur, b, e := WalkLeaves(lk, offLeft, offRight, max, chain);
      more, left' := None, Some(lk);
      if !ok {
        return Undefined, values, more, left';
      }
      ghost var segs := WalkSegments(file, chain, offLeft, lk);
      if i < max {
        status, values, more, left' := RangeLastLeaf(lk, right, offRight, max, wantNext, segs, i, values);
        return;
      }
      var flag := b != e;
      more := if wantNext then Some(flag) else None;
      left' := if wantNext && flag then Some(cur[b].key) else left';
      status := Code(i);
      assert RangeAnswer(Flatten(segs), max > 0 && NextAsWritten(segs, max), max, Some(lk), wantNext,
                         status, values, more, left');
    }

    /**
     * The end of `search_range` once the walk gave fewer than `max` values:
     * the right key's leaf, from the left key's lower bound to the right
     * key's upper bound, fills the room left.
     */
    method RangeLastLeaf(lk: Key, right: Key, offRight: int, max: nat, wantNext: bool,
                         ghost segs: seq<seq<Record>>, i0: nat, values0: seq<Payload>)
      returns (status: Status, values: seq<Payload>, more: Option<bool>, left': Option<Key>)
      requires Valid() && !KeyLess(right, lk)
      requires i0 == |Flatten(segs)| < max && values0 == Values(Flatten(segs))
      modifies this`fpOpen, this`fpLevel
      ensures Valid() && Accessed(old(fpLevel), fpLevel)
      ensures LeafAt(file, offRight).None? ==> status == Undefined
      ensures LeafAt(file, offRight).Some? ==>
        var all := segs + [LastSegment(LeafAt(file, offRight).value, lk, right)];
        RangeAnswer(Flatten(all), NextAsWritten(all, max), max, Some(lk), wantNext, status, values, more, left')
    {
      more, left' := None, Some(lk);
      Access();
      var l := LeafAt(file, offRight);
      if l.None? {
        return Undefined, values0, more, left';
      }
      ghost var s := LastSegment(l.value, lk, right);
      var i, cur, b, e;
      i, values, cur, b, e := RangeTail(l.value, lk, right, i0, max, values0);
      LastRangeStep(segs, s, i - i0, max);
      ghost var recs := Flatten(segs + [s]);
      var flag := i == max && b != e;
      assert flag == NextAsWritten(segs + [s], max) && (flag ==> cur[b] == recs[max]);
      more := if wantNext then Some(flag) else None;
      left' := if wantNext && flag then Some(cur[b].key) else left';
      status := Code(i);
    }

    /**
     * `remove`: finds the key's parent index node and leaf, answers -1 when
     * the key is not there, deletes its record, and rebalances a leaf left
     * below its minimum; 0 otherwise. It opens no file of its own: each read
     * and write opens one when none is open.
     */
    method Remove(key: Key) returns (status: Status)
      requires Valid() && Formatted(file, meta.slot) && RemoveFits(file, meta, key)
      modifies this
      ensures Valid() && Accessed(old(fpLevel), fpLevel)
      ensures status != Undefined ==> Formatted(file, meta.slot)
      ensures RemoveOutcome(old(file), old(meta), file, meta, key, status)
    {
      var ok, parentOff := SearchIndex(key);
      if !ok {
        return Undefined;
      }
      Access();
      var pn := InternalAt(file, parentOff);
      if pn.None? || |pn.value.children| == 0 {
        return Undefined;
      }
      var parent := pn.value;
      var where := FindIndex(parent.children, key);
      var offset := parent.children[where].child;
      var l := LeafAt(file, offset);
      if l.None? {
        return Undefined;
      }
      var leaf := l.value;
      if !BinarySearch(leaf.children, key) {
        return Code(-1);
      }
      var minN := if meta.leafNodeNum == 1 then 0 else meta.order / 2;
      var rest := DeleteAt(leaf.children, FindRecord(leaf.children, key));
      var first := if |rest| > 0 then rest[0].key else key;
      leaf := leaf.(children := rest);
      if |rest| >= minN {
        WriteBlock(offset, LeafBlock(leaf));
        return Code(0);
      }
      status := RemoveUnderflow(parentOff, parent, where == |parent.children| - 1, offset, leaf, first);
    }
  }

  /**
   * After an insertion in place whose leaf fits its block, `search` finds
   * the key with the inserted value.
   */
  lemma InsertThenSearch(f: File, m: Meta, key: Key, value: Payload, value0: Payload, off: int, leaf: Leaf)
    requires LeafFor(f, m, key) == Some(off) && LeafAt(f, off) == Some(leaf)
    requires StrictlySorted(RecordKeys(leaf.children)) && key !in RecordKeys(leaf.children)
    requires LeafFits(Inserted(leaf.children, key, value))
    ensures var g := f[off := LeafBlock(leaf.(children := Inserted(leaf.children, key, value)))];
      SearchResult(g, m, key) == Code(0) && SearchValue(g, m, key, value0) == value
  {
    var l' := leaf.(children := Inserted(leaf.children, key, value));
    var g := f[off := LeafBlock(l')];
    LeafWriteKeepsLeafFor(f, off, l', m, key);
    InsertedIsSortedInsertion(leaf.children, key, value);
    InsertedIsFound(leaf.children, key, value);
    var u := UpperBound(RecordKeys(leaf.children), key);
    assert RecordKeys(l'.children)[u] == key;
    SearchFindsExactly(g, m, key, value0, off, l');
  }

  /**
   * An insertion in place whose leaf fits its block leaves every other key
   * as `search` found it: present exactly when it was, with the same value.
   */
  lemma InsertKeepsOtherKeys(f: File, m: Meta, key: Key, value: Payload, value0: Payload, off: int, leaf: Leaf,
                             k: Key, o: int, lk: Leaf)
    requires LeafFor(f, m, key) == Some(off) && LeafAt(f, off) == Some(leaf)
    requires StrictlySorted(RecordKeys(leaf.children)) && key !in RecordKeys(leaf.children)
    requires LeafFits(Inserted(leaf.children, key, value))
    requires k != key && LeafFor(f, m, k) == Some(o) && LeafAt(f, o) == Some(lk)
    requires StrictlySorted(RecordKeys(lk.children))
    ensures var g := f[off := LeafBlock(leaf.(children := Inserted(leaf.children, key, value)))];
      (SearchResult(g, m, k) == Code(0) <==> SearchResult(f, m, k) == Code(0)) &&
      (SearchResult(f, m, k) == Code(0) ==> SearchValue(g, m, k, value0) == SearchValue(f, m, k, value0))
  {
    var l' := leaf.(children := Inserted(leaf.children, key, value));
    LeafWriteKeepsLeafFor(f, off, l', m, k);
    if o == off {
      InsertKeepsOtherKeysInLeaf(f, m, key, value, value0, off, leaf, k);
    } else {
      var g := f[off := LeafBlock(l')];
      assert LeafAt(g, o) == Some(lk);
      assert SearchResult(g, m, k) == SearchResult(f, m, k);
      assert SearchValue(g, m, k, value0) == SearchValue(f, m, k, value0);
    }
  }

  /** The case of `InsertKeepsOtherKeys` where the other key belongs to the leaf written. */
  lemma InsertKeepsOtherKeysInLeaf(f: File, m: Meta, key: Key, value: Payload, value0: Payload, off: int, leaf: Leaf, k: Key)
    requires LeafAt(f, off) == Some(leaf)
    requires StrictlySorted(RecordKeys(leaf.children)) && key !in RecordKeys(leaf.children)
    requires LeafFits(Inserted(leaf.children, key, value))
    requires k != key && LeafFor(f, m, k) == Some(off)
    requires LeafFor(f[off := LeafBlock(leaf.(children := Inserted(leaf.children, key, value)))], m, k) == Some(off)
    ensures var g := f[off := LeafBlock(leaf.(children := Inserted(leaf.children, key, value)))];
      (SearchResult(g, m, k) == Code(0) <==> SearchResult(f, m, k) == Code(0)) &&
      (SearchResult(f, m, k) == Code(0) ==> SearchValue(g, m, k, value0) == SearchValue(f, m, k, value0))
  {
    var rs := leaf.children;
    var l' := leaf.(children := Inserted(rs, key, value));
    var g := f[off := LeafBlock(l')];
    SearchFindsExactly(f, m, k, value0, off, leaf);
    InsertedIsSortedInsertion(rs, key, value);
    SearchFindsExactly(g, m, k, value0, off, l');
    InsertedKeepsOtherKeys(rs, key, value, k);
    if k in RecordKeys(rs) {
      var j :| 0 <= j < |rs| && RecordKeys(rs)[j] == k;
      assert rs[j] in l'.children;
    }
  }

  /** An insertion in place into a leaf with room and within its block keeps the file one this program writes. */
  lemma InsertKeepsTreeFile(f: File, key: Key, value: Payload, off: int, leaf: Leaf)
    requires TreeFile(f)
    requires LeafAt(f, off) == Some(leaf) && key !in RecordKeys(leaf.children)
    requires |leaf.children| < MetaAt(f).value.order
    requires LeafFits(Inserted(leaf.children, key, value))
    ensures TreeFile(f[off := LeafBlock(leaf.(children := Inserted(leaf.children, key, value)))])
  {
    var g := f[off := LeafBlock(leaf.(children := Inserted(leaf.children, key, value)))];
    InsertedIsSortedInsertion(leaf.children, key, value);
    assert MetaAt(g) == MetaAt(f);
  }

  /**
   * After `update` found the key (status 0) and wrote a leaf that fits its
   * block, `search` finds it with the new value.
   */
  lemma UpdateThenSearch(f: File, m: Meta, key: Key, value: Payload, value0: Payload, off: int, leaf: Leaf)
    requires LeafFor(f, m, key) == Some(off) && LeafAt(f, off) == Some(leaf)
    requires FindRecord(leaf.children, key) < |leaf.children| && leaf.children[FindRecord(leaf.children, key)].key == key
    requires LeafFits(leaf.children[FindRecord(leaf.children, key) := Record(key, value)])
    ensures var i := FindRecord(leaf.children, key);
      var g := f[off := LeafBlock(leaf.(children := leaf.children[i := Record(key, value)]))];
      SearchResult(g, m, key) == Code(0) && SearchValue(g, m, key, value0) == value
  {
    var i := FindRecord(leaf.children, key);
    var l' := leaf.(children := leaf.children[i := Record(key, value)]);
    LeafWriteKeepsLeafFor(f, off, l', m, key);
    assert RecordKeys(l'.children) == RecordKeys(leaf.children);
    KeyCmpZeroIffEqual(key, key);
  }

  /** The leaf `remove` reaches through the parent `search_index` finds is the leaf `search` reads. */
  lemma RemoveFindsSearchLeaf(f: File, m: Meta, key: Key, parentOff: int)
    requires MetaAt(f).Some?
    requires Descend(f, m.rootOffset, Levels(m.height), key) == Some(parentOff)
    requires InternalAt(f, parentOff).Some? && |InternalAt(f, parentOff).value.children| > 0
    ensures var c := InternalAt(f, parentOff).value.children;
      LeafFor(f, m, key) == Some(c[FindIndex(c, key)].child)
  {
    assert InternalAt(f, 0).None?;
  }

  /**
   * After `remove` deleted a key its `binary_search` found and wrote the
   * leaf back within its block, `search` no longer finds it, where it found
   * it before, and the leaf stays sorted.
   */
  lemma RemoveThenSearch(f: File, m: Meta, key: Key, off: int, leaf: Leaf)
    requires LeafFor(f, m, key) == Some(off) && LeafAt(f, off) == Some(leaf)
    requires StrictlySorted(RecordKeys(leaf.children)) && BinarySearch(leaf.children, key)
    requires LeafFits(DeleteAt(leaf.children, FindRecord(leaf.children, key)))
    ensures var l' := leaf.(children := DeleteAt(leaf.children, FindRecord(leaf.children, key)));
      SearchResult(f, m, key) == Code(0) && SearchResult(f[off := LeafBlock(l')], m, key) != Code(0) &&
      StrictlySorted(RecordKeys(l'.children))
  {
    var l' := leaf.(children := DeleteAt(leaf.children, FindRecord(leaf.children, key)));
    var g := f[off := LeafBlock(l')];
    BinarySearchIffPresent(leaf.children, key);
    DeleteRecordRemovesKey(leaf.children, key);
    LeafWriteKeepsLeafFor(f, off, l', m, key);
    SearchFindsExactly(f, m, key, [], off, leaf);
    SearchFindsExactly(g, m, key, [], off, l');
  }

  /**
   * Deleting a key, with the leaf written back within its block, leaves
   * every other key as `search` found it: present exactly when it was, with
   * the same value.
   */
  lemma RemoveKeepsOtherKeys(f: File, m: Meta, key: Key, value0: Payload, off: int, leaf: Leaf,
                             k: Key, o: int, lk: Leaf)
    requires LeafFor(f, m, key) == Some(off) && LeafAt(f, off) == Some(leaf)
    requires StrictlySorted(RecordKeys(leaf.children)) && BinarySearch(leaf.children, key)
    requires LeafFits(DeleteAt(leaf.children, FindRecord(leaf.children, key)))
    requires k != key && LeafFor(f, m, k) == Some(o) && LeafAt(f, o) == Some(lk)
    requires StrictlySorted(RecordKeys(lk.children))
    ensures var g := f[off := LeafBlock(leaf.(children := DeleteAt(leaf.children, FindRecord(leaf.children, key))))];
      (SearchResult(g, m, k) == Code(0) <==> SearchResult(f, m, k) == Code(0)) &&
      (SearchResult(f, m, k) == Code(0) ==> SearchValue(g, m, k, value0) == SearchValue(f, m, k, value0))
  {
    var rs := leaf.children;
    var i := FindRecord(rs, key);
    var l' := leaf.(children := DeleteAt(rs, i));
    var g := f[off := LeafBlock(l')];
    BinarySearchIffPresent(rs, key);
    DeleteRecordRemovesKey(rs, key);
    LeafWriteKeepsLeafFor(f, off, l', m, k);
    SearchFindsExactly(f, m, k, value0, o, lk);
    if o == off {
      SearchFindsExactly(g, m, k, value0, off, l');
      DeleteAtKeepsOtherKeys(rs, i, k);
    } else {
      assert LeafAt(g, o) == Some(lk);
      assert SearchResult(g, m, k) == SearchResult(f, m, k);
    }
  }

  /** Deleting a key from its leaf in place, within its block, keeps the file one this program writes. */
  lemma RemoveKeepsTreeFile(f: File, key: Key, off: int, leaf: Leaf)
    requires TreeFile(f)
    requires LeafAt(f, off) == Some(leaf) && BinarySearch(leaf.children, key)
    requires LeafFits(DeleteAt(leaf.children, FindRecord(leaf.children, key)))
    ensures TreeFile(f[off := LeafBlock(leaf.(children := DeleteAt(leaf.children, FindRecord(leaf.children, key))))])
  {
    var g := f[off := LeafBlock(leaf.(children := DeleteAt(leaf.children, FindRecord(leaf.children, key))))];
    BinarySearchIffPresent(leaf.children, key);
    DeleteRecordRemovesKey(leaf.children, key);
    assert MetaAt(g) == MetaAt(f);
  }
}

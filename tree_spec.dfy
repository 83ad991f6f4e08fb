/**
 * The tree file seen block by block, and the walks the tree's operations
 * take through it: the descent of `search_index` and `search_leaf`, the
 * header-only writes that change one node's `parent` or `prev`, and the walk
 * along the leaves' `next` links. The methods of `BPlusTree` are proved
 * against these functions.
 */
module TreeSpec {
  import opened Bytes
  import opened Keys
  import opened Blocks

  /** The tree file: the block each offset holds. */
  type File = map<int, Block>

  /**
   * What an operation returns: the source's integer result, or Undefined
   * where the source ignores a failed `map` and goes on with a node it never
   * read (a block that is missing or of the other kind), or indexes past the
   * entries of a node.
   */
  datatype Status = Code(rc: int) | Undefined

  /** `map(&meta, OFFSET_META)`: the meta block, or None for the short read that returns 1. */
  function MetaAt(f: File): Option<Meta> {
    if OFFSET_META in f && f[OFFSET_META].MetaBlock? then Some(f[OFFSET_META].meta) else None
  }

  /** `map` of an internal node: None when the offset holds no internal node. */
  function InternalAt(f: File, off: int): Option<Internal> {
    if off in f && f[off].InternalBlock? then Some(f[off].node) else None
  }

  /** `map` of a leaf: None when the offset holds no leaf. */
  function LeafAt(f: File, off: int): Option<Leaf> {
    if off in f && f[off].LeafBlock? then Some(f[off].leaf) else None
  }

  /** A block whose header a SIZE_NO_CHILDREN read and write can change. */
  predicate IsNode(f: File, off: int) {
    off in f && (f[off].InternalBlock? || f[off].LeafBlock?)
  }

  function WithParent(b: Block, p: int): (r: Block)
    requires b.InternalBlock? || b.LeafBlock?
  {
    if b.InternalBlock? then InternalBlock(b.node.(parent := p)) else LeafBlock(b.leaf.(parent := p))
  }

  function WithPrev(b: Block, p: int): (r: Block)
    requires b.InternalBlock? || b.LeafBlock?
  {
    if b.InternalBlock? then InternalBlock(b.node.(prev := p)) else LeafBlock(b.leaf.(prev := p))
  }

  /**
   * A header-only read and write of the node at `off` that sets its parent
   * (`reset_index_children_parent`); None when no node is there.
   */
  function SetParentAt(f: File, off: int, p: int): (r: Option<File>)
    ensures r.Some? <==> IsNode(f, off)
  {
    if IsNode(f, off) then Some(f[off := WithParent(f[off], p)]) else None
  }

  /** The same for the `prev` field (`node_create`, `node_remove`). */
  function SetPrevAt(f: File, off: int, p: int): (r: Option<File>)
    ensures r.Some? <==> IsNode(f, off)
  {
    if IsNode(f, off) then Some(f[off := WithPrev(f[off], p)]) else None
  }

  /** `reset_index_children_parent` over the child offsets `cs`, in order. */
  function SetParents(f: File, cs: seq<int>, p: int): Option<File>
  {
    if cs == [] then Some(f)
    else match SetParents(f, cs[..|cs| - 1], p)
      case None => None
      case Some(g) => SetParentAt(g, cs[|cs| - 1], p)
  }

  /** Two blocks that differ at most in their parent field. */
  predicate SameButParent(a: Block, b: Block) {
    match a
    case MetaBlock(_) => a == b
    case InternalBlock(n) => b.InternalBlock? && b.node == n.(parent := b.node.parent)
    case LeafBlock(l) => b.LeafBlock? && b.leaf == l.(parent := b.leaf.parent)
  }

  /**
   * Resetting the parents succeeds exactly when every listed child is a
   * node; then each listed child has parent `p`, each keeps everything else,
   * and no other block changes.
   */
  lemma {:induction false} SetParentsEffect(f: File, cs: seq<int>, p: int)
    ensures SetParents(f, cs, p).Some? <==> forall k | 0 <= k < |cs| :: IsNode(f, cs[k])
    ensures SetParents(f, cs, p).Some? ==>
      var g := SetParents(f, cs, p).value;
      g.Keys == f.Keys &&
      (forall off | off in f :: SameButParent(f[off], g[off])) &&
      (forall off | off in f && off !in cs :: g[off] == f[off]) &&
      (forall k | 0 <= k < |cs| :: IsNode(g, cs[k]) && (if g[cs[k]].InternalBlock? then g[cs[k]].node.parent else g[cs[k]].leaf.parent) == p)
  {
    if cs != [] {
      var init := cs[..|cs| - 1];
      var c := cs[|cs| - 1];
      SetParentsEffect(f, init, p);
      assert forall k | 0 <= k < |init| :: cs[k] == init[k];
      match SetParents(f, init, p)
      case None =>
      case Some(g) =>
        assert forall off | off in f :: off in g;
        if IsNode(g, c) {
          var h := g[c := WithParent(g[c], p)];
          forall off | off in f && off !in cs
            ensures h[off] == f[off]
          {
            assert off !in init;
          }
        }
    }
  }

  /** A new root at `slot` adopting its two children: the root stays, and both children have it as parent. */
  lemma AdoptTwo(f: File, slot: int, root: Internal, left: int, after: int, g: File)
    requires slot in f && f[slot] == InternalBlock(root) && left != slot && after != slot
    requires SetParents(f, [left, after], slot) == Some(g)
    ensures InternalAt(g, slot) == Some(root)
    ensures ParentOf(g, left) == Some(slot) && ParentOf(g, after) == Some(slot)
  {
    SetParentsEffect(f, [left, after], slot);
    assert [left, after][0] == left && [left, after][1] == after;
  }

  /** The parent field of the node at `off`, when a node is there. */
  function ParentOf(f: File, off: int): Option<int> {
    if InternalAt(f, off).Some? then Some(InternalAt(f, off).value.parent)
    else if LeafAt(f, off).Some? then Some(LeafAt(f, off).value.parent)
    else None
  }

  /**
   * Every leaf keeps its records and its `next` link. The index-level
   * operations only ever rewrite internal nodes and node headers, so they
   * keep this between the file before and after them.
   */
  ghost predicate LeavesKept(f0: File, f1: File) {
    forall o | o in f0 && f0[o].LeafBlock? ::
      o in f1 && f1[o].LeafBlock? && f1[o].leaf.children == f0[o].leaf.children && f1[o].leaf.next == f0[o].leaf.next
  }

  /** Every leaf kept, and every internal node still an internal node. */
  ghost predicate IndexLevelKept(f0: File, f1: File) {
    LeavesKept(f0, f1) && forall o | InternalAt(f0, o).Some? :: InternalAt(f1, o).Some?
  }

  lemma IndexLevelKeptTrans(f0: File, f1: File, f2: File)
    requires IndexLevelKept(f0, f1) && IndexLevelKept(f1, f2)
    ensures IndexLevelKept(f0, f2)
  {
  }

  /** Rewriting an internal node as another adds no block and keeps the rest of the index level. */
  lemma InternalWriteKeeps(f: File, off: int, n: Internal)
    requires InternalAt(f, off).Some?
    ensures var g := f[off := InternalBlock(n)];
      IndexLevelKept(f, g) && g.Keys == f.Keys && MetaAt(g) == MetaAt(f)
  {
  }

  /** A file with the same blocks and a meta block stays formatted. */
  lemma FormattedKept(f0: File, f1: File, slot: int)
    requires Formatted(f0, slot) && f1.Keys == f0.Keys && MetaAt(f1).Some?
    ensures Formatted(f1, slot)
  {
    assert forall o | o in f1 :: o in f0;
  }

  /** A block written at the allocation slot is new: the index level is kept, and the file stays formatted for the next slot. */
  lemma NewBlockKeeps(f: File, slot: int, slot': int, b: Block)
    requires Formatted(f, slot) && slot < slot'
    ensures IndexLevelKept(f, f[slot := b]) && Formatted(f[slot := b], slot')
  {
    assert slot !in f;
    assert OFFSET_META in f && OFFSET_META != slot;
  }

  /** Rewriting the meta block adds no block and keeps the index level. */
  lemma MetaWriteKeeps(f: File, m: Meta)
    requires MetaAt(f).Some?
    ensures var g := f[OFFSET_META := MetaBlock(m)];
      IndexLevelKept(f, g) && g.Keys == f.Keys && MetaAt(g) == Some(m)
  {
  }

  /** Setting a node's parent adds no block and keeps the rest of the index level. */
  lemma ParentWriteKeeps(f: File, off: int, p: int)
    requires IsNode(f, off)
    ensures var g := SetParentAt(f, off, p).value;
      IndexLevelKept(f, g) && g.Keys == f.Keys && MetaAt(g) == MetaAt(f)
  {
  }

  /**
   * The header writes of `node_create`: a new `prev` on the node after the
   * split one (when there is one) and the meta block. No block is added,
   * every leaf keeps its records and links, and internal nodes stay.
   */
  lemma CreateKeepsIndexLevel(f0: File, nxt: int, slot: int, m: Meta)
    requires MetaAt(f0).Some? && (nxt == 0 || IsNode(f0, nxt))
    ensures var f1 := (if nxt == 0 then f0 else SetPrevAt(f0, nxt, slot).value)[OFFSET_META := MetaBlock(m)];
      IndexLevelKept(f0, f1) && f1.Keys == f0.Keys && MetaAt(f1) == Some(m)
  {
    var g := if nxt == 0 then f0 else SetPrevAt(f0, nxt, slot).value;
    assert g.Keys == f0.Keys;
    assert forall o | o in f0 && o != nxt :: g[o] == f0[o];
  }

  /**
   * The two halves of an internal split written: the old node in place and
   * the new one at the allocation slot, past every block, which then moves
   * on to `slot'`.
   */
  lemma SplitWritesKeepIndexLevel(f0: File, f1: File, slot: int, slot': int, offset: int, a: Internal, b: Internal)
    requires Formatted(f0, slot) && slot < slot'
    requires IndexLevelKept(f0, f1) && f1.Keys == f0.Keys && MetaAt(f1).Some?
    requires InternalAt(f0, offset).Some?
    ensures var f2 := f1[offset := InternalBlock(a)][slot := InternalBlock(b)];
      IndexLevelKept(f0, f2) && Formatted(f2, slot')
  {
    assert slot !in f0;
  }

  /**
   * The two halves of a leaf split written: the old leaf in place and the
   * new one at the allocation slot, which then moves on to `slot'`.
   */
  lemma LeafWritesKeepFormat(f0: File, f1: File, slot: int, slot': int, off: int, a: Leaf, b: Leaf)
    requires Formatted(f0, slot) && slot < slot'
    requires f1.Keys == f0.Keys && MetaAt(f1).Some?
    requires LeafAt(f0, off).Some?
    ensures Formatted(f1[off := LeafBlock(a)][slot := LeafBlock(b)], slot')
  {
    assert OFFSET_META in f0 && f0[OFFSET_META].MetaBlock?;
  }

  /** Resetting parents keeps every leaf's records and links and adds no block. */
  lemma SetParentsKeepLeaves(f: File, cs: seq<int>, p: int)
    requires SetParents(f, cs, p).Some?
    ensures SetParents(f, cs, p).value.Keys == f.Keys
    ensures LeavesKept(f, SetParents(f, cs, p).value)
    ensures forall o :: InternalAt(f, o).Some? <==> InternalAt(SetParents(f, cs, p).value, o).Some?
  {
    SetParentsEffect(f, cs, p);
    var g := SetParents(f, cs, p).value;
    forall o | o in f
      ensures f[o].InternalBlock? <==> g[o].InternalBlock?
      ensures f[o].LeafBlock? ==> g[o].LeafBlock? && g[o].leaf.children == f[o].leaf.children && g[o].leaf.next == f[o].leaf.next
    {
      assert SameButParent(f[o], g[o]);
    }
  }

  /** Two internal nodes with the same links: parent, siblings and children, whatever their keys. */
  predicate SameLinks(a: Internal, b: Internal) {
    a.parent == b.parent && a.next == b.next && a.prev == b.prev && ChildOffsets(a.children) == ChildOffsets(b.children)
  }

  /**
   * Only separator keys differ: the same blocks, every leaf and the meta
   * block as they were, and every internal node with the same links.
   */
  ghost predicate OnlyKeysChanged(f0: File, f1: File) {
    f1.Keys == f0.Keys &&
    forall o | o in f0 ::
      if f0[o].InternalBlock? then f1[o].InternalBlock? && SameLinks(f0[o].node, f1[o].node)
      else f1[o] == f0[o]
  }

  /** The meta block is at offset 0 and every block lies below the allocation slot. */
  predicate Formatted(f: File, slot: int) {
    MetaAt(f).Some? && forall o | o in f :: o < slot
  }

  /** Every node holds at most BP_ORDER entries: the size of its array. */
  predicate WithinCapacity(f: File) {
    forall o | o in f ::
      (f[o].LeafBlock? ==> |f[o].leaf.children| <= BP_ORDER) &&
      (f[o].InternalBlock? ==> |f[o].node.children| <= BP_ORDER)
  }

  /** Every leaf's records are in strictly increasing key order. */
  predicate SortedLeaves(f: File) {
    forall o | o in f && f[o].LeafBlock? :: StrictlySorted(RecordKeys(f[o].leaf.children))
  }

  /**
   * What a file this program wrote keeps: a meta block with the program's
   * order and a slot past every block, nodes within their arrays, and sorted
   * leaves.
   */
  predicate TreeFile(f: File) {
    MetaAt(f).Some? && MetaAt(f).value.order == BP_ORDER && Formatted(f, MetaAt(f).value.slot) &&
    WithinCapacity(f) && SortedLeaves(f)
  }

  /** The number of internal levels `search_index` walks down: height - 1, none for a height of one or less. */
  function Levels(height: int): nat {
    if height > 1 then height - 1 else 0
  }

  /** The child `find` picks in an internal node; None for a node with no entries. */
  function ChildFor(node: Internal, key: Key): Option<int> {
    if |node.children| == 0 then None else Some(node.children[FindIndex(node.children, key)].child)
  }

  /** `search_index`: from `off`, `levels` times read an internal node and move to the child `find` picks. */
  function Descend(f: File, off: int, levels: nat, key: Key): Option<int>
    decreases levels
  {
    if levels == 0 then Some(off)
    else match InternalAt(f, off)
      case None => None
      case Some(node) => match ChildFor(node, key)
        case None => None
        case Some(c) => Descend(f, c, levels - 1, key)
  }

  /** `search_leaf(index, key)`: 0 for index 0, else the child `find` picks in the node at `index`. */
  function LeafUnder(f: File, index: int, key: Key): Option<int> {
    if index == 0 then Some(0)
    else match InternalAt(f, index)
      case None => None
      case Some(node) => ChildFor(node, key)
  }

  /** `search_leaf(key)`: the offset of the leaf a key belongs to, by the in-memory meta. */
  function LeafFor(f: File, m: Meta, key: Key): Option<int> {
    match Descend(f, m.rootOffset, Levels(m.height), key)
    case None => None
    case Some(index) => LeafUnder(f, index, key)
  }

  /**
   * `search_index` reads exactly height - 1 internal nodes: the walk it
   * takes is a path of `levels` steps, each from an internal node to the
   * child `find` picks for the key.
   */
  lemma {:induction false} DescendPath(f: File, off: int, levels: nat, key: Key)
    requires Descend(f, off, levels, key).Some?
    ensures exists path: seq<int> :: DescentPath(f, off, levels, key, Descend(f, off, levels, key).value, path)
    decreases levels
  {
    if levels == 0 {
      assert DescentPath(f, off, 0, key, off, [off]);
    } else {
      var node := InternalAt(f, off).value;
      var c := ChildFor(node, key).value;
      var target := Descend(f, off, levels, key).value;
      assert Descend(f, c, levels - 1, key) == Some(target);
      DescendPath(f, c, levels - 1, key);
      var rest :| DescentPath(f, c, levels - 1, key, target, rest);
      DescentPathCons(f, off, levels, key, target, rest);
    }
  }

  /**
   * `path` is a walk of `levels` steps from `off` to `target`, each from an
   * internal node to the child `find` picks for `key`.
   */
  ghost predicate DescentPath(f: File, off: int, levels: nat, key: Key, target: int, path: seq<int>) {
    |path| == levels + 1 && path[0] == off && path[levels] == target && KeyPath(f, path, key)
  }

  /** Each offset of `path` but the last holds an internal node whose child for `key` is the next offset. */
  ghost predicate KeyPath(f: File, path: seq<int>, key: Key) {
    forall j | 0 <= j < |path| - 1 ::
      InternalAt(f, path[j]).Some? && ChildFor(InternalAt(f, path[j]).value, key) == Some(path[j + 1])
  }

  /** A step from `off` to the start of a walk extends the walk by one level. */
  lemma DescentPathCons(f: File, off: int, levels: nat, key: Key, target: int, rest: seq<int>)
    requires levels >= 1 && rest != [] && DescentPath(f, rest[0], levels - 1, key, target, rest)
    requires InternalAt(f, off).Some? && ChildFor(InternalAt(f, off).value, key) == Some(rest[0])
    ensures DescentPath(f, off, levels, key, target, [off] + rest)
  {
    var path := [off] + rest;
    forall j | 0 <= j < |path| - 1
      ensures InternalAt(f, path[j]).Some? && ChildFor(InternalAt(f, path[j]).value, key) == Some(path[j + 1])
    {
      if j > 0 {
        assert path[j] == rest[j - 1] && path[j + 1] == rest[j];
      }
    }
  }

  /** Two files with the same internal nodes lead every key down the same way. */
  lemma {:induction false} DescendSameInternals(f: File, g: File, off: int, levels: nat, key: Key)
    requires forall o :: InternalAt(f, o) == InternalAt(g, o)
    ensures Descend(f, off, levels, key) == Descend(g, off, levels, key)
    decreases levels
  {
    if levels > 0 {
      match InternalAt(f, off)
      case None =>
      case Some(node) =>
        match ChildFor(node, key)
        case None =>
        case Some(c) => DescendSameInternals(f, g, c, levels - 1, key);
    }
  }

  /** Writing a leaf over a block that is not an internal node leaves every key's leaf where it was. */
  lemma LeafWriteKeepsLeafFor(f: File, off: int, l: Leaf, m: Meta, key: Key)
    requires InternalAt(f, off).None?
    ensures LeafFor(f[off := LeafBlock(l)], m, key) == LeafFor(f, m, key)
  {
    var g := f[off := LeafBlock(l)];
    assert forall o :: InternalAt(f, o) == InternalAt(g, o);
    DescendSameInternals(f, g, m.rootOffset, Levels(m.height), key);
  }

  /** `search`'s result: the keycmp of the key's lower bound in its leaf against the key, or -1. */
  function SearchResult(f: File, m: Meta, key: Key): Status {
    match LeafFor(f, m, key)
    case None => Undefined
    case Some(off) => match LeafAt(f, off)
      case None => Code(-1)
      case Some(leaf) =>
        var i := FindRecord(leaf.children, key);
        if i < |leaf.children| then Code(KeyCmp(leaf.children[i].key, key)) else Code(-1)
  }

  /** The value `search` stores through its pointer: the lower bound's value, or `value0` untouched. */
  function SearchValue(f: File, m: Meta, key: Key, value0: Payload): Payload {
    match LeafFor(f, m, key)
    case None => value0
    case Some(off) => match LeafAt(f, off)
      case None => value0
      case Some(leaf) =>
        var i := FindRecord(leaf.children, key);
        if i < |leaf.children| then leaf.children[i].value else value0
  }

  /**
   * On a leaf whose keys are sorted, `search` returns 0 exactly when the key
   * is stored there, and then hands back that record's value.
   */
  lemma SearchFindsExactly(f: File, m: Meta, key: Key, value0: Payload, off: int, leaf: Leaf)
    requires LeafFor(f, m, key) == Some(off) && LeafAt(f, off) == Some(leaf)
    requires StrictlySorted(RecordKeys(leaf.children))
    ensures SearchResult(f, m, key) == Code(0) <==> key in RecordKeys(leaf.children)
    ensures forall j | 0 <= j < |leaf.children| && leaf.children[j].key == key ::
      SearchValue(f, m, key, value0) == leaf.children[j].value
  {
    var i := FindRecord(leaf.children, key);
    BinarySearchIffPresent(leaf.children, key);
    if i < |leaf.children| {
      KeyCmpZeroIffEqual(leaf.children[i].key, key);
      KeyTrichotomy(key, leaf.children[i].key);
    }
    forall j | 0 <= j < |leaf.children| && leaf.children[j].key == key
      ensures SearchValue(f, m, key, value0) == leaf.children[j].value
    {
      FindRecordOfPresent(leaf.children, key, j);
    }
  }

  /**
   * `chain` lists the offsets a walk along the leaves' `next` links visits
   * from `chain[0]`: every offset but the last holds a leaf, is neither
   * `stop` nor 0, and links to the following one; the walk ends at `stop`,
   * at 0, or at a block that is not a leaf.
   */
  ghost predicate LeafChain(f: File, chain: seq<int>, stop: int) {
    |chain| >= 1 &&
    (forall k | 0 <= k < |chain| - 1 ::
      chain[k] != stop && chain[k] != 0 && LeafAt(f, chain[k]).Some? && LeafAt(f, chain[k]).value.next == chain[k + 1]) &&
    (chain[|chain| - 1] == stop || chain[|chain| - 1] == 0 || LeafAt(f, chain[|chain| - 1]).None?)
  }

  /** A leaf of the chain before its stop is not its last entry, and links to the next. */
  lemma LeafChainNext(f: File, chain: seq<int>, stop: int, k: nat)
    requires LeafChain(f, chain, stop) && k < |chain|
    requires chain[k] != stop && chain[k] != 0 && LeafAt(f, chain[k]).Some?
    ensures k + 1 < |chain| && LeafAt(f, chain[k]).value.next == chain[k + 1]
  {
  }

  /** A walk is determined by where it starts: two chains from one offset to one stop are the same. */
  lemma {:induction false} LeafChainUnique(f: File, c1: seq<int>, c2: seq<int>, stop: int)
    requires LeafChain(f, c1, stop) && LeafChain(f, c2, stop) && c1[0] == c2[0]
    ensures c1 == c2
  {
    var k := 0;
    while k < |c1| - 1 && k < |c2| - 1
      invariant 0 <= k < |c1| && k < |c2|
      invariant c1[..k + 1] == c2[..k + 1]
    {
      assert c1[k] == c2[k];
      k := k + 1;
    }
    assert c1[k] == c2[k];
    if k < |c1| - 1 || k < |c2| - 1 {
      // one walk stops at c1[k] while the other goes on from it
      assert false;
    }
    assert c1 == c1[..k + 1] && c2 == c2[..k + 1];
  }

  /** The records of the leaves at `offs`, leaf after leaf; offsets without a leaf add nothing. */
  function ChainRecords(f: File, offs: seq<int>): seq<Record> {
    if offs == [] then []
    else
      var last := offs[|offs| - 1];
      ChainRecords(f, offs[..|offs| - 1]) + (if LeafAt(f, last).Some? then LeafAt(f, last).value.children else [])
  }

  /** A record is listed exactly when it is in one of the leaves at `offs`. */
  lemma {:induction false} ChainRecordsHas(f: File, offs: seq<int>, r: Record)
    ensures r in ChainRecords(f, offs) <==>
      exists j | 0 <= j < |offs| :: LeafAt(f, offs[j]).Some? && r in LeafAt(f, offs[j]).value.children
    decreases |offs|
  {
    if offs != [] {
      var init := offs[..|offs| - 1];
      ChainRecordsHas(f, init, r);
      forall j | 0 <= j < |init|
        ensures init[j] == offs[j]
      {
      }
    }
  }

  /** The meta block of a newly initialised tree file. */
  const FreshRoot: int := OFFSET_BLOCK
  const FreshLeaf: int := OFFSET_BLOCK + INTERNAL_NODE_SIZE
  const FreshMeta: Meta := Meta(BP_ORDER, VALUE_T_SIZE, KEY_BUFFER_SIZE, 1, 1, 1,
    OFFSET_BLOCK + INTERNAL_NODE_SIZE + LEAF_NODE_SIZE, FreshRoot, FreshLeaf)

  /**
   * A newly initialised file: the meta block, a root with one entry (an
   * empty key and the leaf) and an empty leaf whose parent is the root.
   */
  function FreshFile(): File {
    map[OFFSET_META := MetaBlock(FreshMeta),
        FreshRoot := InternalBlock(Internal(0, 0, 0, [Index(EmptyKey, FreshLeaf)])),
        FreshLeaf := LeafBlock(Leaf(FreshRoot, 0, 0, []))]
  }

  /** Writing the three blocks of a fresh tree one by one over a file lays the fresh file over it. */
  lemma FreshWrites(f: File)
    ensures f[OFFSET_META := MetaBlock(FreshMeta)]
             [FreshRoot := InternalBlock(Internal(0, 0, 0, [Index(EmptyKey, FreshLeaf)]))]
             [FreshLeaf := LeafBlock(Leaf(FreshRoot, 0, 0, []))] == f + FreshFile()
  {
  }

  /**
   * In a fresh tree every key is led to the one empty leaf, `search` answers
   * -1 for every key, and the walk along the leaves visits that leaf and no
   * record.
   */
  lemma FreshTreeIsEmpty(key: Key)
    ensures LeafFor(FreshFile(), FreshMeta, key) == Some(FreshLeaf)
    ensures SearchResult(FreshFile(), FreshMeta, key) == Code(-1)
    ensures LeafChain(FreshFile(), [FreshLeaf, 0], 0)
    ensures ChainRecords(FreshFile(), [FreshLeaf]) == []
    ensures TreeFile(FreshFile())
  {
    var f := FreshFile();
    assert InternalAt(f, FreshRoot) == Some(Internal(0, 0, 0, [Index(EmptyKey, FreshLeaf)]));
    assert LeafAt(f, FreshLeaf) == Some(Leaf(FreshRoot, 0, 0, []));
    assert LeafAt(f, 0).None?;
    assert [FreshLeaf, 0][..1] == [FreshLeaf];
    assert [FreshLeaf] == [] + [FreshLeaf];
    assert ChainRecords(f, [FreshLeaf]) == ChainRecords(f, []) + [];
    FreshIsTreeFile();
  }

  /** The fresh file is one this program writes: three blocks below the slot, within their arrays. */
  lemma FreshIsTreeFile()
    ensures TreeFile(FreshFile())
  {
    var f := FreshFile();
    assert f.Keys == {OFFSET_META, FreshRoot, FreshLeaf};
    assert MetaAt(f) == Some(FreshMeta);
    assert Formatted(f, FreshMeta.slot);
    assert WithinCapacity(f);
  }
}

/**
 * The byte layout `unmap` writes for a leaf and `map` reads back: parent,
 * next and prev as 4-byte offsets, the record count as an 8-byte size, then
 * each record as its 16-byte key buffer followed by its serialized value.
 * Internal nodes and the meta block are raw struct copies and have no codec
 * of their own.
 */
module LeafCodec {
  import opened Bytes
  import opened Keys
  import opened Blocks
  import opened ValueBuffer

  const OFF_T_RANGE: nat := 0x1_0000_0000

  /** A value a 32-bit signed `off_t` can hold. */
  predicate IsOffT(x: int) {
    -0x8000_0000 <= x < 0x8000_0000
  }

  /** Two's-complement, little-endian bytes of an offset. */
  function EncodeOffT(x: int): (r: seq<byte>)
    requires IsOffT(x)
    ensures |r| == OFF_T_BYTES
  {
    assert Pow256(4) == OFF_T_RANGE;
    EncodeLE(if x < 0 then x + OFF_T_RANGE else x, OFF_T_BYTES)
  }

  function DecodeOffT(b: seq<byte>): (x: int)
    requires |b| == OFF_T_BYTES
    ensures IsOffT(x)
  {
    assert Pow256(4) == OFF_T_RANGE;
    var u := DecodeLE(b);
    if u < 0x8000_0000 then u else u - OFF_T_RANGE
  }

  lemma DecodeEncodeOffT(x: int)
    requires IsOffT(x)
    ensures DecodeOffT(EncodeOffT(x)) == x
  {
    assert Pow256(4) == OFF_T_RANGE;
    DecodeEncodeLE(if x < 0 then x + OFF_T_RANGE else x, OFF_T_BYTES);
  }

  /** What the codec can write: 32-bit links and values whose size fits a size_t. */
  predicate Encodable(l: Leaf) {
    IsOffT(l.parent) && IsOffT(l.next) && IsOffT(l.prev) &&
    |l.children| < SIZE_T_LIMIT
  }

  /** `record_t::serialize`: the key buffer, then the value. */
  function EncodeRecord(r: Record): (b: seq<byte>)
    ensures |b| == KEY_BUFFER_SIZE + SIZE_T_BYTES + |r.value|
  {
    KeyBuffer(r.key) + EncodeValue(r.value)
  }

  /** The records of a leaf one after the other, in order. */
  function EncodeRecords(rs: seq<Record>): (b: seq<byte>)
  {
    if rs == [] then []
    else EncodeRecords(rs[..|rs| - 1]) + EncodeRecord(rs[|rs| - 1])
  }

  function EncodeHeader(l: Leaf): (b: seq<byte>)
    requires Encodable(l)
    ensures |b| == 3 * OFF_T_BYTES + SIZE_T_BYTES
  {
    EncodeOffT(l.parent) + EncodeOffT(l.next) + EncodeOffT(l.prev) +
    EncodeSizeT(|l.children|)
  }

  /** The bytes leaf `unmap` writes at the leaf's offset. */
  function EncodeLeaf(l: Leaf): (b: seq<byte>)
    requires Encodable(l)
  {
    EncodeHeader(l) + EncodeRecords(l.children)
  }

  /**
   * `record_t::deserialize` at `pos`: the record and the position after it.
   * A key buffer without a terminating NUL is refused, since no key string
   * can be read from it.
   */
  function DecodeRecord(s: seq<byte>, pos: nat): (r: Option<(Record, nat)>)
    ensures r.Some? ==> pos < r.value.1 <= |s|
  {
    match ReadBytes(s, pos, KEY_BUFFER_SIZE)
    case None => None
    case Some(buf) =>
      if NoNul(buf) then None
      else
        match DecodeValue(s, pos + KEY_BUFFER_SIZE)
        case None => None
        case Some((payload, next)) =>
          NulBoundsCString(buf);
          Some((Record(CString(buf), payload), next))
  }

  lemma NulBoundsCString(buf: seq<byte>)
    requires !NoNul(buf)
    ensures |CString(buf)| < |buf|
  {
    if buf != [] && buf[0] != 0 {
      assert !NoNul(buf[1..]) by {
        var i :| 0 <= i < |buf| && buf[i] == 0;
        assert buf[1..][i - 1] == 0;
      }
      NulBoundsCString(buf[1..]);
    }
  }

  /** `n` records read one after the other from `pos`. */
  function DecodeRecords(s: seq<byte>, pos: nat, n: nat): (r: Option<(seq<Record>, nat)>)
    ensures r.Some? ==> |r.value.0| == n && pos <= r.value.1
  {
    if n == 0 then Some(([], pos))
    else
      match DecodeRecords(s, pos, n - 1)
      case None => None
      case Some((rs, p)) =>
        match DecodeRecord(s, p)
        case None => None
        case Some((rec, q)) => Some((rs + [rec], q))
  }

  /** Leaf `map` at `pos`: the header, then as many records as it announces. */
  function DecodeLeaf(s: seq<byte>, pos: nat): (r: Option<Leaf>)
  {
    match ReadBytes(s, pos, 3 * OFF_T_BYTES + SIZE_T_BYTES)
    case None => None
    case Some(h) =>
      match DecodeRecords(s, pos + 20, DecodeLE(h[12..20]))
      case None => None
      case Some((rs, _)) =>
        Some(Leaf(DecodeOffT(h[0..4]), DecodeOffT(h[4..8]), DecodeOffT(h[8..12]), rs))
  }

  /** A record's bytes, found at `pos`, decode to that record. */
  lemma DecodeRecordAt(s: seq<byte>, pos: nat, r: Record)
    requires BytesAt(s, pos, EncodeRecord(r))
    ensures DecodeRecord(s, pos).Some?
    ensures DecodeRecord(s, pos).value.0 == r
    ensures DecodeRecord(s, pos).value.1 == pos + |EncodeRecord(r)|
  {
    var buf, v := KeyBuffer(r.key), EncodeValue(r.value);
    SliceOfConcat(s, pos, buf, v);
    assert !NoNul(buf) by {
      assert buf[|r.key|] == 0;
    }
    var q := pos + KEY_BUFFER_SIZE;
    assert s == s[..q] + v + s[q + |v|..] by {
      assert s[q..q + |v|] == v;
    }
    DecodeEncodeValue(s[..q], r.value, s[q + |v|..]);
  }

  /** The bytes of a run of records, found at `pos`, decode to those records. */
  lemma {:induction false} DecodeRecordsAt(s: seq<byte>, pos: nat, rs: seq<Record>)
    requires BytesAt(s, pos, EncodeRecords(rs))
    ensures DecodeRecords(s, pos, |rs|).Some?
    ensures DecodeRecords(s, pos, |rs|).value.0 == rs
    ensures DecodeRecords(s, pos, |rs|).value.1 == pos + |EncodeRecords(rs)|
  {
    if rs != [] {
      var init, last := rs[..|rs| - 1], rs[|rs| - 1];
      var a, b := EncodeRecords(init), EncodeRecord(last);
      assert EncodeRecords(rs) == a + b;
      SliceOfConcat(s, pos, a, b);
      DecodeRecordsAt(s, pos, init);
      DecodeNextRecordAt(s, pos, init, pos + |a|, last);
      assert init + [last] == rs;
    }
  }

  /** After `n` decoded records, the bytes of one more record decode to it. */
  lemma DecodeNextRecordAt(s: seq<byte>, pos: nat, rs: seq<Record>, p: nat, r: Record)
    requires DecodeRecords(s, pos, |rs|).Some?
    requires DecodeRecords(s, pos, |rs|).value.0 == rs && DecodeRecords(s, pos, |rs|).value.1 == p
    requires BytesAt(s, p, EncodeRecord(r))
    ensures DecodeRecords(s, pos, |rs| + 1).Some?
    ensures DecodeRecords(s, pos, |rs| + 1).value.0 == rs + [r]
    ensures DecodeRecords(s, pos, |rs| + 1).value.1 == p + |EncodeRecord(r)|
  {
    DecodeRecordAt(s, p, r);
    DecodeRecordsStep(s, pos, |rs|, rs, p, r, p + |EncodeRecord(r)|);
  }

  lemma DecodeRecordsStep(s: seq<byte>, pos: nat, n: nat, rs: seq<Record>, p: nat, r: Record, q: nat)
    requires DecodeRecords(s, pos, n).Some?
    requires DecodeRecords(s, pos, n).value.0 == rs && DecodeRecords(s, pos, n).value.1 == p
    requires DecodeRecord(s, p).Some? && DecodeRecord(s, p).value.0 == r && DecodeRecord(s, p).value.1 == q
    ensures DecodeRecords(s, pos, n + 1).Some?
    ensures DecodeRecords(s, pos, n + 1).value.0 == rs + [r] && DecodeRecords(s, pos, n + 1).value.1 == q
  {
  }

  /** Leaf `map` of what leaf `unmap` wrote restores the header and every record. */
  lemma DecodeEncodeLeaf(prefix: seq<byte>, l: Leaf, rest: seq<byte>)
    requires Encodable(l)
    ensures DecodeLeaf(prefix + EncodeLeaf(l) + rest, |prefix|) == Some(l)
  {
    var s := prefix + EncodeLeaf(l) + rest;
    var p := |prefix|;
    assert BytesAt(s, p, EncodeLeaf(l)) by {
      assert s[p..p + |EncodeLeaf(l)|] == EncodeLeaf(l);
    }
    SliceOfConcat(s, p, EncodeHeader(l), EncodeRecords(l.children));
    HeaderFields(l);
    DecodeEncodeOffT(l.parent);
    DecodeEncodeOffT(l.next);
    DecodeEncodeOffT(l.prev);
    DecodeRecordsAt(s, p + 20, l.children);
  }

  lemma HeaderFields(l: Leaf)
    requires Encodable(l)
    ensures EncodeHeader(l)[0..4] == EncodeOffT(l.parent)
    ensures EncodeHeader(l)[4..8] == EncodeOffT(l.next)
    ensures EncodeHeader(l)[8..12] == EncodeOffT(l.prev)
    ensures EncodeHeader(l)[12..20] == EncodeSizeT(|l.children|)
  {
  }

  /** The encoded length: a 20-byte header, then 24 bytes plus the value per record. */
  function EncodedRecordsSize(rs: seq<Record>): nat {
    if rs == [] then 0
    else EncodedRecordsSize(rs[..|rs| - 1]) + KEY_BUFFER_SIZE + SIZE_T_BYTES + |rs[|rs| - 1].value|
  }

  lemma {:induction false} EncodeRecordsSize(rs: seq<Record>)
    ensures |EncodeRecords(rs)| == EncodedRecordsSize(rs)
  {
    if rs != [] {
      EncodeRecordsSize(rs[..|rs| - 1]);
    }
  }

  /** Records all of whose values have `d` bytes take 24 + d bytes each. */
  lemma {:induction false} UniformRecordsSize(rs: seq<Record>, d: nat)
    requires forall r | r in rs :: |r.value| == d
    ensures EncodedRecordsSize(rs) == |rs| * (KEY_BUFFER_SIZE + SIZE_T_BYTES + d)
  {
    if rs != [] {
      UniformRecordsSize(rs[..|rs| - 1], d);
    }
  }

  /** The bytes leaf `unmap` writes for a leaf holding `rs`: the header, then the records. */
  function LeafSize(rs: seq<Record>): nat {
    3 * OFF_T_BYTES + SIZE_T_BYTES + EncodedRecordsSize(rs)
  }

  /**
   * `unmap` of a leaf holding `rs` stays inside the LEAF_NODE_SIZE bytes
   * `alloc` reserved for it, so it writes over no other block.
   */
  predicate LeafFits(rs: seq<Record>) {
    LeafSize(rs) <= LEAF_NODE_SIZE
  }

  lemma EncodeLeafSize(l: Leaf)
    requires Encodable(l)
    ensures |EncodeLeaf(l)| == LeafSize(l.children)
    ensures LeafFits(l.children) <==> |EncodeLeaf(l)| <= LEAF_NODE_SIZE
  {
    EncodeRecordsSize(l.children);
  }

  /**
   * A leaf is allocated `sizeof(leaf_node_t)` = 1624 bytes, but a full leaf
   * whose values are as large as `meta.value_size` (16) encodes to 2020
   * bytes, so its tail is written over the block allocated after it.
   */
  lemma LeafEncodingCanOverrun(l: Leaf)
    requires Encodable(l)
    requires |l.children| == BP_ORDER
    requires forall r | r in l.children :: |r.value| == VALUE_T_SIZE
    ensures |EncodeLeaf(l)| == 2020 > LEAF_NODE_SIZE && !LeafFits(l.children)
  {
    EncodeRecordsSize(l.children);
    UniformRecordsSize(l.children, VALUE_T_SIZE);
  }

  /** Once a record fails to decode, no longer run of records decodes either. */
  lemma {:induction false} DecodeRecordsFailureStays(s: seq<byte>, pos: nat, k: nat, n: nat)
    requires k <= n && DecodeRecords(s, pos, k).None?
    ensures DecodeRecords(s, pos, n).None?
    decreases n - k
  {
    if k < n {
      DecodeRecordsFailureStays(s, pos, k + 1, n);
    }
  }

  lemma EncodeRecordsPrefixStep(rs: seq<Record>, i: nat)
    requires i < |rs|
    ensures EncodeRecords(rs[..i + 1]) == EncodeRecords(rs[..i]) + EncodeRecord(rs[i])
  {
    assert rs[..i + 1][..i] == rs[..i];
  }

  /** Writing record `i` right after the header and the records before it. */
  lemma UnmapLeafStep(start: seq<byte>, offset: nat, l: Leaf, i: nat, before: seq<byte>, pos: nat)
    requires Encodable(l) && i < |l.children|
    requires before == Overwrite(start, offset, EncodeHeader(l) + EncodeRecords(l.children[..i]))
    requires pos == offset + |EncodeHeader(l)| + |EncodeRecords(l.children[..i])|
    ensures Overwrite(before, pos, EncodeRecord(l.children[i]))
         == Overwrite(start, offset, EncodeHeader(l) + EncodeRecords(l.children[..i + 1]))
  {
    var done := EncodeHeader(l) + EncodeRecords(l.children[..i]);
    var rec := EncodeRecord(l.children[i]);
    OverwriteTwice(start, offset, done, rec);
    HeaderRecordsStep(l, i);
  }

  lemma HeaderRecordsStep(l: Leaf, i: nat)
    requires Encodable(l) && i < |l.children|
    ensures EncodeHeader(l) + EncodeRecords(l.children[..i]) + EncodeRecord(l.children[i])
         == EncodeHeader(l) + EncodeRecords(l.children[..i + 1])
  {
    EncodeRecordsPrefixStep(l.children, i);
  }

  /** `record_t::serialize`: the 16-byte key buffer, then the value. */
  method SerializeRecord(fp: Stream, r: Record)
    modifies fp
    ensures fp.contents == Overwrite(old(fp.contents), old(fp.pos), EncodeRecord(r))
    ensures fp.pos == old(fp.pos) + |EncodeRecord(r)|
  {
    fp.Write(KeyBuffer(r.key));
    fp.Write(EncodeValue(r.value));
    OverwriteTwice(old(fp.contents), old(fp.pos), KeyBuffer(r.key), EncodeValue(r.value));
  }

  /**
   * Leaf `unmap`: seek to the offset, write parent, next, prev and n, then
   * serialize the records one at a time.
   */
  method UnmapLeaf(fp: Stream, offset: nat, l: Leaf) returns (rc: int)
    requires Encodable(l)
    modifies fp
    ensures rc == 0
    ensures fp.contents == Overwrite(old(fp.contents), offset, EncodeLeaf(l))
  {
    fp.Seek(offset);
    fp.Write(EncodeHeader(l));
    ghost var start := old(fp.contents);
    var i := 0;
    while i < |l.children|
      invariant 0 <= i <= |l.children|
      invariant fp.contents == Overwrite(start, offset, EncodeHeader(l) + EncodeRecords(l.children[..i]))
      invariant fp.pos == offset + |EncodeHeader(l)| + |EncodeRecords(l.children[..i])|
    {
      ghost var before, pos := fp.contents, fp.pos;
      SerializeRecord(fp, l.children[i]);
      UnmapLeafStep(start, offset, l, i, before, pos);
      EncodeRecordsPrefixStep(l.children, i);
      i := i + 1;
    }
    assert l.children[..i] == l.children;
    rc := 0;
  }

  /** `record_t::deserialize`: the key buffer, then the value; false on a short read. */
  method DeserializeRecord(fp: Stream) returns (ok: bool, r: Record)
    modifies fp
    ensures fp.contents == old(fp.contents)
    ensures ok <==> DecodeRecord(fp.contents, old(fp.pos)).Some?
    ensures ok ==> (r, fp.pos) == DecodeRecord(fp.contents, old(fp.pos)).value
  {
    r := Record(EmptyKey, []);
    var keyBuffer := fp.Read(KEY_BUFFER_SIZE);
    if keyBuffer.None? || NoNul(keyBuffer.value) {
      return false, r;
    }
    var value := new Value();
    ok := value.Deserialize(fp);
    if ok {
      NulBoundsCString(keyBuffer.value);
      r := Record(CString(keyBuffer.value), value.Bytes());
    }
  }

  /** The record loop of leaf `map`: `n` records deserialized one after the other. */
  method DeserializeRecords(fp: Stream, n: nat) returns (ok: bool, rs: seq<Record>)
    modifies fp
    ensures fp.contents == old(fp.contents)
    ensures ok <==> DecodeRecords(fp.contents, old(fp.pos), n).Some?
    ensures ok ==> (rs, fp.pos) == DecodeRecords(fp.contents, old(fp.pos), n).value
  {
    rs := [];
    var i := 0;
    while i < n
      invariant 0 <= i <= n
      invariant fp.contents == old(fp.contents)
      invariant DecodeRecords(fp.contents, old(fp.pos), i).Some?
      invariant DecodeRecords(fp.contents, old(fp.pos), i).value.0 == rs && DecodeRecords(fp.contents, old(fp.pos), i).value.1 == fp.pos
    {
      ghost var p := fp.pos;
      var recordOk, r := DeserializeRecord(fp);
      if !recordOk {
        assert DecodeRecords(fp.contents, old(fp.pos), i + 1).None?;
        DecodeRecordsFailureStays(fp.contents, old(fp.pos), i + 1, n);
        return false, rs;
      }
      DecodeRecordsStep(fp.contents, old(fp.pos), i, rs, p, r, fp.pos);
      rs := rs + [r];
      i := i + 1;
    }
    ok := true;
  }

  /**
   * Leaf `map`: seek to the offset, read the header, then deserialize as
   * many records as it announces; any short read makes it return -1.
   */
  method MapLeaf(fp: Stream, offset: nat) returns (rc: int, l: Leaf)
    modifies fp
    ensures fp.contents == old(fp.contents)
    ensures rc == 0 || rc == -1
    ensures rc == 0 <==> DecodeLeaf(fp.contents, offset).Some?
    ensures rc == 0 ==> l == DecodeLeaf(fp.contents, offset).value
  {
    l := Leaf(0, 0, 0, []);
    fp.Seek(offset);
    var header := fp.Read(3 * OFF_T_BYTES + SIZE_T_BYTES);
    if header.None? {
      return -1, l;
    }
    var h := header.value;
    var n := DecodeLE(h[12..20]);
    var ok, rs := DeserializeRecords(fp, n);
    if !ok {
      return -1, l;
    }
    l := Leaf(DecodeOffT(h[0..4]), DecodeOffT(h[4..8]), DecodeOffT(h[8..12]), rs);
    rc := 0;
  }
}

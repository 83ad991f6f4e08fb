/**
 * `value_t`: an owned, heap-allocated byte buffer with a size, written to a
 * file as an 8-byte size followed by the bytes.
 *
 * The buffer is a Dafny `array`, so that ownership is visible: a copy gets a
 * fresh array, a move hands the same array over and empties the source.
 * A `FILE*` is modelled by `Stream`, a byte sequence with a position.
 */
module ValueBuffer {
  import opened Bytes
  import opened Keys

  /** values of one megabyte or more are refused by `is_valid`. */
  const MAX_VALUE_SIZE: nat := 1024 * 1024

  /** The bytes of a value as `serialize` writes them: size, then payload. */
  function EncodeValue(payload: Payload): (r: seq<byte>)
    ensures |r| == SIZE_T_BYTES + |payload|
    ensures r[SIZE_T_BYTES..] == payload
  {
    EncodeSizeT(|payload|) + payload
  }

  /**
   * What `deserialize` reads at `pos`: the payload and the position after it,
   * or None on a short read of the size or of the payload.
   */
  function DecodeValue(s: seq<byte>, pos: nat): (r: Option<(seq<byte>, nat)>)
    ensures r.Some? ==> var (payload, next) := r.value;
      next == pos + SIZE_T_BYTES + |payload| <= |s| && s[pos + SIZE_T_BYTES..next] == payload
  {
    match ReadLE(s, pos, SIZE_T_BYTES)
    case None => None
    case Some(size) =>
      if size == 0 then Some(([], pos + SIZE_T_BYTES))
      else
        match ReadBytes(s, pos + SIZE_T_BYTES, size)
        case None => None
        case Some(payload) => Some((payload, pos + SIZE_T_BYTES + size))
  }

  /** deserialize reads back exactly what serialize wrote, wherever it sits in the file. */
  lemma DecodeEncodeValue(prefix: seq<byte>, payload: Payload, rest: seq<byte>)
    ensures DecodeValue(prefix + EncodeValue(payload) + rest, |prefix|)
         == Some((payload, |prefix| + SIZE_T_BYTES + |payload|))
  {
    var s := prefix + EncodeValue(payload) + rest;
    assert s == prefix + EncodeLE(|payload|, SIZE_T_BYTES) + (payload + rest);
    SizeTLimit();
    ReadLEAfterEncode(prefix, |payload|, SIZE_T_BYTES, payload + rest);
    assert s[|prefix| + SIZE_T_BYTES..|prefix| + SIZE_T_BYTES + |payload|] == payload;
  }

  /**
   * A file opened for reading and writing: its bytes and the current
   * position, which fseek may place beyond the end.
   */
  class Stream {
    var contents: seq<byte>
    var pos: nat

    constructor (contents: seq<byte>)
      ensures this.contents == contents && pos == 0
    {
      this.contents := contents;
      pos := 0;
    }

    /** fwrite: overwrite at the position; a gap past the end is filled with zeros. */
    method Write(w: seq<byte>)
      modifies this
      ensures contents == Overwrite(old(contents), old(pos), w)
      ensures pos == old(pos) + |w|
    {
      contents := Overwrite(contents, pos, w);
      pos := pos + |w|;
    }

    /** fread of `n` bytes: all of them, or a short read that leaves the position at the end. */
    method Read(n: nat) returns (r: Option<seq<byte>>)
      modifies this`pos
      ensures r == ReadBytes(contents, old(pos), n)
      ensures pos == if r.Some? then old(pos) + n else |contents|
    {
      if pos + n <= |contents| {
        r := Some(contents[pos..pos + n]);
        pos := pos + n;
      } else {
        r := None;
        pos := |contents|;
      }
    }

    /** fseek with SEEK_SET. */
    method Seek(p: nat)
      modifies this`pos
      ensures pos == p
    {
      pos := p;
    }
  }

  /** `s` with `w` written over it from `pos` on. */
  function Overwrite(s: seq<byte>, pos: nat, w: seq<byte>): (r: seq<byte>)
    ensures |r| == if pos + |w| <= |s| then |s| else pos + |w|
  {
    (if pos <= |s| then s[..pos] else s + Zeros(pos - |s|)) + w +
    (if pos + |w| <= |s| then s[pos + |w|..] else [])
  }

  lemma OverwriteTwice(s: seq<byte>, pos: nat, a: seq<byte>, b: seq<byte>)
    ensures Overwrite(Overwrite(s, pos, a), pos + |a|, b) == Overwrite(s, pos, a + b)
  {
  }

  class Value {
    var data: array?<byte>
    var size: nat

    ghost predicate Valid() reads this {
      size < SIZE_T_LIMIT && (data != null ==> data.Length == size)
    }

    /** The bytes the value holds: none when `data` is null. */
    function Bytes(): (b: seq<byte>)
      reads this, data
      requires Valid()
      ensures |b| <= size
    {
      if data == null then [] else data[..]
    }

    /** The bytes `serialize` writes for this value. */
    function Serialized(): (b: seq<byte>)
      reads this, data
      requires Valid()
      ensures |b| >= SIZE_T_BYTES && b[..SIZE_T_BYTES] == EncodeSizeT(size)
      ensures size > 0 && data != null ==> b == EncodeValue(Bytes())
    {
      EncodeSizeT(size) + (if size > 0 && data != null then data[..] else [])
    }

    /** value_t(): an empty value. */
    constructor ()
      ensures Valid() && data == null && size == 0
    {
      data := null;
      size := 0;
    }

    method Clear()
      modifies this
      ensures Valid() && data == null && size == 0
    {
      data := null;
      size := 0;
    }

    /** is_valid: some bytes, fewer than a megabyte. */
    predicate IsValid()
      reads this, data
      requires Valid()
      ensures IsValid() <==> 0 < |Bytes()| == size < MAX_VALUE_SIZE
    {
      data != null && size > 0 && size < MAX_VALUE_SIZE
    }

    /** serialize: fails only without a file; writes the size, then the bytes if there are any. */
    method Serialize(fp: Stream?) returns (ok: bool)
      requires Valid()
      modifies fp
      ensures ok <==> fp != null
      ensures fp != null ==> (
        fp.contents == Overwrite(old(fp.contents), old(fp.pos), Serialized()) &&
        fp.pos == old(fp.pos) + |Serialized()|)
    {
      if fp == null {
        return false;
      }
      fp.Write(EncodeSizeT(size));
      if size > 0 && data != null {
        var w := data[..];
        ghost var mid := fp.contents;
        fp.Write(w);
        OverwriteTwice(old(fp.contents), old(fp.pos), EncodeSizeT(size), w);
      } else {
        assert Serialized() == EncodeSizeT(size) + [];
      }
      ok := true;
    }

    /**
     * deserialize: empty the value, read the size, then (for a non-zero size)
     * a freshly allocated buffer of that many bytes. A short read empties the
     * value again and fails.
     */
    method Deserialize(fp: Stream?) returns (ok: bool)
      requires Valid()
      modifies this, fp
      ensures Valid()
      ensures fp != null ==> fp.contents == old(fp.contents)
      ensures fp == null ==> !ok && data == old(data) && size == old(size)
      ensures fp != null ==>
        match DecodeValue(fp.contents, old(fp.pos))
        case None => !ok && data == null && size == 0
        case Some((payload, next)) =>
          ok && Bytes() == payload && size == |payload| && fp.pos == next &&
          (data == null <==> payload == []) && (data != null ==> fresh(data))
    {
      if fp == null {
        return false;
      }
      Clear();
      var sizeBytes := fp.Read(SIZE_T_BYTES);
      if sizeBytes.None? {
        return false;
      }
      SizeTLimit();
      size := DecodeLE(sizeBytes.value);
      if size > 0 {
        var payload := fp.Read(size);
        if payload.None? {
          Clear();
          return false;
        }
        var bytes := payload.value;
        var a := new byte[size](i requires 0 <= i < |bytes| => bytes[i]);
        assert a[..] == bytes;
        data := a;
      }
      ok := true;
    }

    /** The copy constructor: an independent buffer with the same bytes (none for an empty source). */
    constructor Copy(other: Value)
      requires other.Valid()
      ensures Valid()
      ensures other.data != null && other.size > 0 ==> fresh(data) && Bytes() == other.Bytes() && size == other.size
      ensures !(other.data != null && other.size > 0) ==> data == null && size == 0
    {
      if other.data != null && other.size > 0 {
        var src := other.data;
        var a := new byte[other.size](i requires 0 <= i < src.Length reads src => src[i]);
        assert a[..] == src[..];
        size := other.size;
        data := a;
      } else {
        data := null;
        size := 0;
      }
    }

    /** Copy assignment; assigning a value to itself changes nothing. */
    method Assign(other: Value)
      requires Valid() && other.Valid()
      modifies this
      ensures Valid()
      ensures this == other ==> data == old(data) && size == old(size)
      ensures this != other && old(other.data) != null && old(other.size) > 0 ==>
        fresh(data) && data[..] == old(other.data[..]) && size == old(other.size)
      ensures this != other && !(old(other.data) != null && old(other.size) > 0) ==>
        data == null && size == 0
    {
      if this != other {
        Clear();
        if other.data != null && other.size > 0 {
          size := other.size;
          var src := other.data;
          data := new byte[other.size](i requires 0 <= i < src.Length reads src => src[i]);
          assert data[..] == src[..];
        }
      }
    }

    /** The move constructor: takes the buffer over and leaves the source empty. */
    constructor Move(other: Value)
      requires other.Valid()
      modifies other
      ensures Valid() && other.Valid()
      ensures data == old(other.data) && size == old(other.size)
      ensures other.data == null && other.size == 0
    {
      data := other.data;
      size := other.size;
      new;
      other.data := null;
      other.size := 0;
    }

    /** Move assignment; moving a value onto itself changes nothing. */
    method MoveAssign(other: Value)
      requires Valid() && other.Valid()
      modifies this, other
      ensures Valid() && other.Valid()
      ensures this == other ==> data == old(data) && size == old(size)
      ensures this != other ==>
        data == old(other.data) && size == old(other.size) && other.data == null && other.size == 0
    {
      if this != other {
        Clear();
        data := other.data;
        size := other.size;
        other.data := null;
        other.size := 0;
      }
    }
  }
}

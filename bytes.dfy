/**
 * Bytes as the on-disk formats see them, and the little-endian integer
 * layout that fwrite gives `size_t` (8 bytes) and `off_t` (4 bytes on the
 * 64-bit Windows build the engine targets).
 */
module Bytes {

  newtype byte = b: int | 0 <= b < 256

  datatype Option<T> = None | Some(value: T)

  const SIZE_T_BYTES: nat := 8
  const OFF_T_BYTES: nat := 4
  /** 2^64: one more than the largest size_t. */
  const SIZE_T_LIMIT: nat := 0x1_0000_0000_0000_0000

  /** A byte string whose length fits a size_t, as every value_t's size does. */
  type Payload = s: seq<byte> | |s| < SIZE_T_LIMIT

  function Pow256(w: nat): (r: nat)
    ensures r >= 1
  {
    if w == 0 then 1 else 256 * Pow256(w - 1)
  }

  /** `x` written least significant byte first in `w` bytes. */
  function EncodeLE(x: nat, w: nat): (r: seq<byte>)
    requires x < Pow256(w)
    ensures |r| == w
  {
    if w == 0 then []
    else
      assert x / 256 < Pow256(w - 1);
      [(x % 256) as byte] + EncodeLE(x / 256, w - 1)
  }

  /** The number whose little-endian bytes are `s`. */
  function DecodeLE(s: seq<byte>): (r: nat)
    ensures r < Pow256(|s|)
  {
    if s == [] then 0
    else
      var rest := DecodeLE(s[1..]);
      assert rest <= Pow256(|s| - 1) - 1;
      assert 256 * rest <= 256 * Pow256(|s| - 1) - 256;
      s[0] as nat + 256 * rest
  }

  lemma {:induction false} DecodeEncodeLE(x: nat, w: nat)
    requires x < Pow256(w)
    ensures DecodeLE(EncodeLE(x, w)) == x
  {
    if w > 0 {
      assert x / 256 < Pow256(w - 1);
      DecodeEncodeLE(x / 256, w - 1);
      assert EncodeLE(x, w)[1..] == EncodeLE(x / 256, w - 1);
    }
  }

  lemma SizeTLimit()
    ensures Pow256(SIZE_T_BYTES) == SIZE_T_LIMIT
  {
    assert Pow256(4) == 0x1_0000_0000;
    assert Pow256(8) == 256 * 256 * 256 * 256 * Pow256(4);
  }

  /** A size_t as fwrite lays it out: eight little-endian bytes. */
  function EncodeSizeT(x: nat): (r: seq<byte>)
    requires x < SIZE_T_LIMIT
    ensures |r| == SIZE_T_BYTES && DecodeLE(r) == x
  {
    SizeTLimit();
    DecodeEncodeLE(x, SIZE_T_BYTES);
    EncodeLE(x, SIZE_T_BYTES)
  }

  /** `e` sits in `s` from `pos` on. */
  predicate BytesAt(s: seq<byte>, pos: nat, e: seq<byte>) {
    pos + |e| <= |s| && s[pos..pos + |e|] == e
  }

  /** Where `a + b` sits in `s`, `a` sits at the same place and `b` right after it. */
  lemma SliceOfConcat(s: seq<byte>, pos: nat, a: seq<byte>, b: seq<byte>)
    requires BytesAt(s, pos, a + b)
    ensures BytesAt(s, pos, a) && BytesAt(s, pos + |a|, b)
  {
    var e := a + b;
    assert s[pos..pos + |a|] == e[..|a|];
    assert s[pos + |a|..pos + |a| + |b|] == e[|a|..];
  }

  /** `w` bytes starting at `pos`, or None when the input is too short (a short read). */
  function ReadBytes(s: seq<byte>, pos: nat, w: nat): (r: Option<seq<byte>>)
    ensures r.Some? <==> pos + w <= |s|
    ensures r.Some? ==> |r.value| == w && s[pos..pos + w] == r.value
  {
    if pos + w <= |s| then Some(s[pos..pos + w]) else None
  }

  /** A little-endian integer of `w` bytes read at `pos`. */
  function ReadLE(s: seq<byte>, pos: nat, w: nat): (r: Option<nat>)
    ensures r.Some? <==> pos + w <= |s|
    ensures r.Some? ==> r.value < Pow256(w)
  {
    match ReadBytes(s, pos, w)
    case None => None
    case Some(b) => Some(DecodeLE(b))
  }

  lemma ReadLEAfterEncode(prefix: seq<byte>, x: nat, w: nat, rest: seq<byte>)
    requires x < Pow256(w)
    ensures ReadLE(prefix + EncodeLE(x, w) + rest, |prefix|, w) == Some(x)
  {
    var s := prefix + EncodeLE(x, w) + rest;
    assert s[|prefix|..|prefix| + w] == EncodeLE(x, w);
    DecodeEncodeLE(x, w);
  }
}

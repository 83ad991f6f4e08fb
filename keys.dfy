/**
 * Keys of the B+ tree (`key_t`, `keycmp` and the comparison operators that
 * OPERATOR_KEYCMP generates).
 *
 * A `key_t` is a 16-byte, zero-filled buffer holding a NUL-terminated string.
 * The model keeps the string itself (the bytes before the terminator) as the
 * key, and gives the 16-byte buffer through `KeyBuffer` where the bytes matter.
 */
module Keys {
  import opened Bytes

  /** sizeof(key_t). */
  const KEY_BUFFER_SIZE: nat := 16

  predicate NoNul(s: seq<byte>) {
    forall i | 0 <= i < |s| :: s[i] != 0
  }

  /** The string a key buffer holds: at most 15 bytes, none of them NUL. */
  type Key = s: seq<byte> | |s| < KEY_BUFFER_SIZE && NoNul(s) witness []

  function Zeros(n: nat): (z: seq<byte>)
    ensures |z| == n && forall i | 0 <= i < n :: z[i] == 0
  {
    if n == 0 then [] else [0 as byte] + Zeros(n - 1)
  }

  /** What `strlen`/`strcpy` see in a buffer: the bytes before the first NUL. */
  function CString(buf: seq<byte>): (s: seq<byte>)
    ensures |s| <= |buf| && NoNul(s)
  {
    if buf == [] || buf[0] == 0 then [] else [buf[0]] + CString(buf[1..])
  }

  lemma {:induction false} CStringOfTerminated(s: seq<byte>, tail: seq<byte>)
    requires NoNul(s) && tail != [] && tail[0] == 0
    ensures CString(s + tail) == s
  {
    if s != [] {
      assert (s + tail)[1..] == s[1..] + tail;
      CStringOfTerminated(s[1..], tail);
    }
  }

  /**
   * The `key_t(const char*)` constructor: zero-fill the 16 bytes, then copy
   * the string in (strcpy_s refuses strings of 16 bytes or more).
   */
  function KeyBuffer(str: Key): (buf: seq<byte>)
    ensures |buf| == KEY_BUFFER_SIZE
    ensures CString(buf) == str
    ensures forall i | |str| <= i < KEY_BUFFER_SIZE :: buf[i] == 0
  {
    var buf := str + Zeros(KEY_BUFFER_SIZE - |str|);
    CStringOfTerminated(str, Zeros(KEY_BUFFER_SIZE - |str|));
    buf
  }

  /** The empty key, `key_t()`. */
  const EmptyKey: Key := []

  /**
   * `strcmp` on two NUL-terminated strings given by their contents: the first
   * differing byte decides, and a string that ends first compares less (its
   * terminator is 0). The sign is all callers use; -1/0/1 are the values the
   * Microsoft C runtime returns.
   */
  function StrCmp(a: seq<byte>, b: seq<byte>): (r: int)
    ensures -1 <= r <= 1
  {
    if a == [] && b == [] then 0
    else if a == [] then -1
    else if b == [] then 1
    else if a[0] < b[0] then -1
    else if a[0] > b[0] then 1
    else StrCmp(a[1..], b[1..])
  }

  /** `keycmp`: the difference of the lengths, or `strcmp` when the lengths agree. */
  function KeyCmp(a: Key, b: Key): int
  {
    var x := |a| - |b|;
    if x == 0 then StrCmp(a, b) else x
  }

  /** `operator<` between keys (and records/index entries, through their key). */
  predicate KeyLess(a: Key, b: Key) {
    KeyCmp(a, b) < 0
  }

  /** `i` is where `a` and `b` part, with `a` the smaller. */
  ghost predicate LexLessAt(a: seq<byte>, b: seq<byte>, i: int) {
    0 <= i <= |a| && i <= |b| && a[..i] == b[..i] &&
      ((i == |a| && i < |b|) || (i < |a| && i < |b| && a[i] < b[i]))
  }

  /** Byte-lexicographic order, defined independently of StrCmp. */
  ghost predicate LexLess(a: seq<byte>, b: seq<byte>) {
    exists i :: LexLessAt(a, b, i)
  }

  function Sign(x: int): int {
    if x < 0 then -1 else if x > 0 then 1 else 0
  }

  lemma {:induction false} StrCmpZero(a: seq<byte>, b: seq<byte>)
    ensures StrCmp(a, b) == 0 <==> a == b
  {
    if a != [] && b != [] && a[0] == b[0] {
      StrCmpZero(a[1..], b[1..]);
      if a[1..] == b[1..] {
        assert a == [a[0]] + a[1..] && b == [b[0]] + b[1..];
      }
    }
  }

  lemma {:induction false} StrCmpAntisymmetric(a: seq<byte>, b: seq<byte>)
    ensures StrCmp(a, b) == -StrCmp(b, a)
  {
    if a != [] && b != [] && a[0] == b[0] {
      StrCmpAntisymmetric(a[1..], b[1..]);
    }
  }

  lemma {:induction false} StrCmpTransitive(a: seq<byte>, b: seq<byte>, c: seq<byte>)
    requires StrCmp(a, b) < 0 && StrCmp(b, c) < 0
    ensures StrCmp(a, c) < 0
  {
    if a != [] && b != [] && c != [] && a[0] == b[0] && b[0] == c[0] {
      StrCmpTransitive(a[1..], b[1..], c[1..]);
    }
  }

  /** Behind a common first byte, the order is the order of the tails. */
  lemma LexLessCons(a: seq<byte>, b: seq<byte>)
    requires a != [] && b != [] && a[0] == b[0]
    ensures LexLess(a, b) <==> LexLess(a[1..], b[1..])
  {
    if LexLess(a[1..], b[1..]) {
      var i :| LexLessAt(a[1..], b[1..], i);
      assert a[..i + 1] == [a[0]] + a[1..][..i];
      assert b[..i + 1] == [b[0]] + b[1..][..i];
      assert LexLessAt(a, b, i + 1);
    }
    if LexLess(a, b) {
      var i :| LexLessAt(a, b, i);
      assert i != 0;
      assert a[1..][..i - 1] == a[..i][1..];
      assert b[1..][..i - 1] == b[..i][1..];
      assert LexLessAt(a[1..], b[1..], i - 1);
    }
  }

  /** StrCmp is negative exactly when its arguments are in byte-lexicographic order. */
  lemma {:induction false} StrCmpIsLex(a: seq<byte>, b: seq<byte>)
    ensures StrCmp(a, b) < 0 <==> LexLess(a, b)
  {
    if a == [] || b == [] || a[0] != b[0] {
      assert LexLess(a, b) ==> LexLessAt(a, b, 0);
      assert StrCmp(a, b) < 0 ==> LexLessAt(a, b, 0);
    } else {
      StrCmpIsLex(a[1..], b[1..]);
      LexLessCons(a, b);
    }
  }

  /** `keycmp(a, a) == 0`, and more: keycmp is zero exactly on equal keys. */
  lemma KeyCmpZeroIffEqual(a: Key, b: Key)
    ensures KeyCmp(a, b) == 0 <==> a == b
  {
    StrCmpZero(a, b);
  }

  /** A strictly shorter key is smaller, whatever its bytes. */
  lemma ShorterKeyIsLess(a: Key, b: Key)
    requires |a| < |b|
    ensures KeyLess(a, b) && KeyCmp(a, b) == |a| - |b|
  {
  }

  /** On keys of one length, keycmp has the sign of the lexicographic comparison. */
  lemma KeyCmpSameLength(a: Key, b: Key)
    requires |a| == |b|
    ensures KeyCmp(a, b) < 0 <==> LexLess(a, b)
    ensures KeyCmp(a, b) == 0 <==> a == b
    ensures KeyCmp(a, b) > 0 <==> LexLess(b, a)
  {
    StrCmpIsLex(a, b);
    StrCmpIsLex(b, a);
    StrCmpZero(a, b);
    StrCmpAntisymmetric(a, b);
  }

  lemma KeyCmpAntisymmetric(a: Key, b: Key)
    ensures Sign(KeyCmp(a, b)) == -Sign(KeyCmp(b, a))
  {
    StrCmpAntisymmetric(a, b);
  }

  lemma KeyLessTransitive(a: Key, b: Key, c: Key)
    requires KeyLess(a, b) && KeyLess(b, c)
    ensures KeyLess(a, c)
  {
    if |a| == |b| == |c| {
      StrCmpTransitive(a, b, c);
    }
  }

  /** Exactly one of a < b, a == b, b < a: keycmp orders keys totally. */
  lemma KeyTrichotomy(a: Key, b: Key)
    ensures KeyLess(a, b) || a == b || KeyLess(b, a)
    ensures !(KeyLess(a, b) && KeyLess(b, a))
    ensures KeyLess(a, b) ==> a != b
  {
    StrCmpZero(a, b);
    StrCmpAntisymmetric(a, b);
  }
}

/** Bytes, Python's clamping slices, and big-endian integer conversion
    (`int.from_bytes` and `int.to_bytes` with byte order 'big'). */
module Bytes {
  import opened Wrappers
  import opened Errors

  /** An element of a Python `bytes` object. */
  type byte = b: int | 0 <= b < 256

  /** 256 to the power k: the number of values a k-byte field can hold. */
  function Pow256(k: nat): (r: nat)
    ensures r > 0
  {
    if k == 0 then 1 else 256 * Pow256(k - 1)
  }

  lemma {:induction false} Pow256Monotone(a: nat, b: nat)
    requires a <= b
    ensures Pow256(a) <= Pow256(b)
    decreases b
  {
    if a < b {
      Pow256Monotone(a, b - 1);
    }
  }

  /** Python `s[lo:hi]` for non-negative bounds: out-of-range bounds are
      clamped to the length and an empty range yields an empty slice. */
  function Slice<T>(s: seq<T>, lo: nat, hi: nat): (r: seq<T>)
    ensures |r| == if lo < hi && lo < |s| then (if hi < |s| then hi else |s|) - lo else 0
    ensures forall k :: 0 <= k < |r| ==> r[k] == s[lo + k]
    ensures lo <= hi <= |s| ==> r == s[lo..hi]
  {
    var h := if hi < |s| then hi else |s|;
    if lo < h then s[lo..h] else []
  }

  /** `int.from_bytes(s)`: the big-endian value of s (0 for the empty sequence). */
  function BeValue(s: seq<byte>): (n: nat)
    ensures n < Pow256(|s|)
  {
    if s == [] then 0 else BeValue(s[..|s| - 1]) * 256 + s[|s| - 1]
  }

  /** The len-byte big-endian encoding of n, for an n that fits. */
  function BeBytes(n: nat, len: nat): (s: seq<byte>)
    requires n < Pow256(len)
    ensures |s| == len && BeValue(s) == n
  {
    if len == 0 then []
    else
      var init := BeBytes(n / 256, len - 1);
      var s := init + [n % 256];
      assert s[..|s| - 1] == init;
      s
  }

  /** `n.to_bytes(len, byteorder='big')`, which raises OverflowError when n
      does not fit in len bytes. */
  function ToBytes(n: nat, len: nat): (r: Result<seq<byte>, Error>)
    ensures r.Success? <==> n < Pow256(len)
    ensures r.Failure? ==> r.error == Overflow
    ensures r.Success? ==> |r.value| == len && BeValue(r.value) == n
  {
    if n < Pow256(len) then Success(BeBytes(n, len)) else Failure(Overflow)
  }

  /** Big-endian decoding is injective on sequences of one length: the only
      len-byte sequence with value n is the encoding of n. */
  lemma {:induction false} BeValueInjective(s: seq<byte>, t: seq<byte>)
    requires |s| == |t| && BeValue(s) == BeValue(t)
    ensures s == t
  {
    if s != [] {
      var n := |s| - 1;
      LastDigit(BeValue(s[..n]), s[n], BeValue(t[..n]), t[n]);
      BeValueInjective(s[..n], t[..n]);
      assert s == s[..n] + [s[n]] && t == t[..n] + [t[n]];
    }
  }

  /** Base-256 digits are unique: the last digit and the rest are determined. */
  lemma LastDigit(a: nat, x: byte, b: nat, y: byte)
    requires a * 256 + x == b * 256 + y
    ensures a == b && x == y
  {
    assert a < b ==> a * 256 + 256 <= b * 256;
    assert b < a ==> b * 256 + 256 <= a * 256;
  }

  /** `int.from_bytes` then `to_bytes` at the same length gives the bytes
      back: every byte string is the encoding of its own value. */
  lemma FromBytesThenToBytes(s: seq<byte>)
    ensures ToBytes(BeValue(s), |s|) == Success(s)
  {
    BeValueInjective(BeBytes(BeValue(s), |s|), s);
  }

  /** The concatenation of a sequence of sequences (`b''.join`, `list.extend`). */
  function Flatten<T>(ss: seq<seq<T>>): seq<T>
  {
    if ss == [] then [] else ss[0] + Flatten(ss[1..])
  }

  lemma {:induction false} FlattenAppend<T>(ss: seq<seq<T>>, tt: seq<seq<T>>)
    ensures Flatten(ss + tt) == Flatten(ss) + Flatten(tt)
  {
    if ss != [] {
      assert (ss + tt)[1..] == ss[1..] + tt;
      FlattenAppend(ss[1..], tt);
    } else {
      assert ss + tt == tt;
    }
  }
}

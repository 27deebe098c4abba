/** Byte strings as the tokenizer sees them (a Python 2 `str` is a sequence
    of bytes), Python's clamping slice, and the big-endian 16-bit decoding
    that `struct.unpack(">H", ...)` performs. */
module Bytes {
  import opened Wrappers

  newtype byte = x: int | 0 <= x < 256

  function Min(a: int, b: int): int { if a <= b then a else b }

  /** Python's `s[lo:hi]` for non-negative bounds: both bounds are clamped to
      the length and an inverted range yields the empty string. */
  function Slice(s: seq<byte>, lo: nat, hi: nat): (r: seq<byte>)
    ensures |r| == if Min(hi, |s|) <= lo then 0 else Min(hi, |s|) - lo
    ensures lo < Min(hi, |s|) ==> r == s[lo..Min(hi, |s|)]
  {
    var h := Min(hi, |s|);
    if h <= lo then [] else s[lo..h]
  }

  /** Python's `s[n:]` for a non-negative `n`. */
  function Drop(s: seq<byte>, n: nat): (r: seq<byte>)
    ensures |r| == if n <= |s| then |s| - n else 0
    ensures n <= |s| ==> r == s[n..]
  {
    if n <= |s| then s[n..] else []
  }

  /** `s[:n] + s[n:] == s`. */
  lemma SliceThenDrop(s: seq<byte>, n: nat)
    ensures Slice(s, 0, n) + Drop(s, n) == s
  {
    if n < |s| {
      assert s[..n] + s[n..] == s;
    }
  }

  /** `struct.unpack(">H", b)[0]`: exactly two bytes, most significant first;
      any other length raises `struct.error`, modelled as None. */
  function Unpack16(b: seq<byte>): (r: Option<nat>)
    ensures r.Some? <==> |b| == 2
    ensures r.Some? ==> r.value < 0x1_0000
  {
    if |b| == 2 then Some(256 * b[0] as nat + b[1] as nat) else None
  }

  /** `struct.pack(">H", n)`, the inverse of Unpack16. */
  function Pack16(n: nat): (r: seq<byte>)
    requires n < 0x1_0000
    ensures |r| == 2
  {
    [(n / 256) as byte, (n % 256) as byte]
  }

  lemma UnpackPack(n: nat)
    requires n < 0x1_0000
    ensures Unpack16(Pack16(n)) == Some(n)
  {
  }

  lemma PackUnpack(b: seq<byte>)
    requires |b| == 2
    ensures Unpack16(b).Some? && Pack16(Unpack16(b).value) == b
  {
    var n := Unpack16(b).value;
    assert n / 256 == b[0] as nat && n % 256 == b[1] as nat;
  }
}

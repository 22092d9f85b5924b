/** Bytes as the C code sees them, copying between buffers, and 32-bit words in host (little-endian) order. */
module Bytes {

  type byte = c: char | c as int < 256 witness '\0'
  type uint32 = x: nat | x < 0x1_0000_0000

  /** d with x written over it at position at. */
  function Splice(d: seq<byte>, at: nat, x: seq<byte>): (r: seq<byte>)
    requires at + |x| <= |d|
    ensures |r| == |d|
  {
    d[..at] + x + d[at + |x|..]
  }

  lemma SpliceTwice(d: seq<byte>, at: nat, x: seq<byte>, y: seq<byte>)
    requires at + |x| + |y| <= |d|
    ensures Splice(Splice(d, at, x), at + |x|, y) == Splice(d, at, x + y)
  {
  }

  lemma SpliceExtends(d: seq<byte>, from: nat, at: nat, x: seq<byte>)
    requires from <= at && at + |x| <= |d|
    ensures Splice(d, at, x)[from..at + |x|] == d[from..at] + x
  {
  }

  lemma SpliceOneMore(d: seq<byte>, at: nat, x: seq<byte>, y: byte)
    requires at + |x| < |d|
    ensures Splice(d, at, x)[at + |x| := y] == Splice(d, at, x + [y])
  {
  }

  lemma ReadTwice(before: seq<byte>, mid: seq<byte>, after: seq<byte>, at: nat, stream: seq<byte>, i: nat, j: nat, k: nat)
    requires i <= j <= k <= |stream| && at + (k - i) <= |before|
    requires mid == Splice(before, at, stream[i..j])
    requires after == Splice(mid, at + (j - i), stream[j..k])
    ensures after == Splice(before, at, stream[i..k])
  {
    SpliceTwice(before, at, stream[i..j], stream[j..k]);
    assert stream[i..k] == stream[i..j] + stream[j..k];
  }

  method Memcpy(dst: array<byte>, at: nat, src: array<byte>, from: nat, len: nat)
    requires dst != src && at + len <= dst.Length && from + len <= src.Length
    modifies dst
    ensures dst[..] == Splice(old(dst[..]), at, src[from..from + len])
  {
    var i := 0;
    assert dst[..] == Splice(dst[..], at, src[from..from]);
    while i < len
      invariant i <= len
      invariant dst[..] == Splice(old(dst[..]), at, src[from..from + i])
    {
      hide Splice;
      SpliceOneMore(old(dst[..]), at, src[from..from + i], src[from + i]);
      assert src[from..from + i] + [src[from + i]] == src[from..from + i + 1];
      ghost var before := dst[..];
      dst[at + i] := src[from + i];
      assert dst[..] == before[at + i := src[from + i]];
      i := i + 1;
    }
  }

  method PutBytes(dst: array<byte>, at: nat, x: seq<byte>)
    requires at + |x| <= dst.Length
    modifies dst
    ensures dst[..] == Splice(old(dst[..]), at, x)
  {
    forall k | 0 <= k < |x| { dst[at + k] := x[k]; }
  }

  function Word(s: seq<byte>): (n: uint32)
    requires |s| == 4
  {
    s[0] as nat + 0x100 * s[1] as nat + 0x1_0000 * s[2] as nat + 0x100_0000 * s[3] as nat
  }

  function Octet(n: nat): byte { (n % 256) as char }

  function WordBytes(n: uint32): (s: seq<byte>)
    ensures |s| == 4
  {
    [Octet(n), Octet(n / 0x100), Octet(n / 0x1_0000), Octet(n / 0x100_0000)]
  }

  lemma WordOfBytes(n: uint32)
    ensures Word(WordBytes(n)) == n
  {
    var a, b, c := n / 0x100, n / 0x1_0000, n / 0x100_0000;
    assert b == a / 0x100 && c == b / 0x100 && c < 0x100;
  }
}

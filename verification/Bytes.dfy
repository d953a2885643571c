/** Bytes, names and the two ways the program moves them: in-place copies and 64-bit fields. */
module Bytes {
  type byte = b: int | 0 <= b < 256

  /** A `std::string` used as a name. The empty string means "none". */
  type Name = seq<byte>

  const HASHLEN := 32

  /** A record name as SHA-256 produces it. */
  type Hash = s: seq<byte> | |s| == HASHLEN witness seq(HASHLEN, i => 0)

  datatype Option<+T> = None | Some(value: T)

  const NO_ERR := 0
  const ERR_NOT_FOUND := -1
  const ERR_IO := -5
  const ERR_BUF_TOO_SMALL := -6

  function Zeros(n: nat): (r: seq<byte>)
    ensures |r| == n
  {
    seq(n, i => 0)
  }

  /** `memcpy(f + at, d, |d|)` on a value. */
  function Splice(f: seq<byte>, at: nat, d: seq<byte>): (r: seq<byte>)
    requires at + |d| <= |f|
    ensures |r| == |f|
  {
    f[..at] + d + f[at + |d|..]
  }

  /** A copy changes the bytes it covers and no others. */
  lemma SpliceBytes(f: seq<byte>, at: nat, d: seq<byte>, i: nat)
    requires at + |d| <= |f| && i < |f|
    ensures Splice(f, at, d)[i] == if at <= i < at + |d| then d[i - at] else f[i]
  {
  }

  /** Two adjacent copies are one copy of the concatenation. */
  lemma SpliceAdjacent(f: seq<byte>, at: nat, d: seq<byte>, e: seq<byte>)
    requires at + |d| + |e| <= |f|
    ensures Splice(Splice(f, at, d), at + |d|, e) == Splice(f, at, d + e)
  {
    var g := Splice(f, at, d);
    assert g[..at + |d|] == f[..at] + d;
    assert g[at + |d| + |e|..] == f[at + |d| + |e|..];
  }

  /** The low `k` bytes of `n`, least significant first: how a `uint64_t` is copied into a payload. */
  function LittleEndian(n: nat, k: nat): (r: seq<byte>)
    ensures |r| == k
  {
    if k == 0 then [] else [n % 256] + LittleEndian(n / 256, k - 1)
  }

  function FromLittleEndian(s: seq<byte>): (n: nat)
  {
    if s == [] then 0 else s[0] + 256 * FromLittleEndian(s[1..])
  }

  function Pow256(k: nat): (r: nat)
    ensures r >= 1
  {
    if k == 0 then 1 else 256 * Pow256(k - 1)
  }

  /** The weight of a byte grows with its place: what stands behind `k` bytes counts 256 to the power `k`. */
  lemma {:induction false} LittleEndianPlaces(s: seq<byte>, t: seq<byte>)
    ensures FromLittleEndian(s + t) == FromLittleEndian(s) + Pow256(|s|) * FromLittleEndian(t)
    ensures |s| == 1 ==> FromLittleEndian(s) == s[0]
    decreases |s|
  {
    if s == [] {
      assert s + t == t;
    } else {
      LittleEndianPlaces(s[1..], t);
      assert (s + t)[1..] == s[1..] + t;
      Reassociate(Pow256(|s| - 1), FromLittleEndian(t));
    }
  }

  lemma Reassociate(p: nat, x: nat)
    ensures 256 * (p * x) == (256 * p) * x
  {
  }

  lemma {:induction false} LittleEndianRoundTrip(n: nat, k: nat)
    requires n < Pow256(k)
    ensures FromLittleEndian(LittleEndian(n, k)) == n
  {
    if k == 0 {
    } else {
      assert n / 256 < Pow256(k - 1);
      LittleEndianRoundTrip(n / 256, k - 1);
      assert LittleEndian(n, k)[1..] == LittleEndian(n / 256, k - 1);
    }
  }
}

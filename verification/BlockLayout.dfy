/** A byte range laid out over fixed-size blocks: the address arithmetic shared by the
    block cache (blocks of the block size) and the block map (blocks of one hash). */
module BlockLayout {
  import opened Bytes

  ghost predicate Uniform(bs: nat, v: seq<seq<byte>>) {
    forall i :: 0 <= i < |v| ==> |v[i]| == bs
  }

  /** The address of block `b`. */
  function Start(bs: nat, b: nat): (a: nat) {
    b * bs
  }

  /** The block that holds byte `a`, and where in it. */
  function BlockIndex(bs: nat, a: nat): (b: nat)
    requires bs > 0
  {
    a / bs
  }

  function BlockOffset(bs: nat, a: nat): (o: nat)
    requires bs > 0
  {
    a % bs
  }

  lemma StartNext(bs: nat, b: nat)
    ensures Start(bs, b + 1) == Start(bs, b) + bs
  {
  }

  lemma Distribute(bs: nat, a: nat, b: nat)
    requires a <= b
    ensures b * bs == a * bs + (b - a) * bs
  {
  }

  lemma StartLe(bs: nat, a: nat, b: nat)
    requires a <= b
    ensures Start(bs, a) <= Start(bs, b)
  {
    Distribute(bs, a, b);
  }

  /** The concatenation of the blocks. */
  function Flat(bs: nat, v: seq<seq<byte>>): (r: seq<byte>)
    requires Uniform(bs, v)
    ensures |r| == Start(bs, |v|)
  {
    if v == [] then [] else
      StartNext(bs, |v| - 1);
      Flat(bs, v[..|v| - 1]) + v[|v| - 1]
  }

  lemma {:induction false} FlatConcat(bs: nat, u: seq<seq<byte>>, v: seq<seq<byte>>)
    requires Uniform(bs, u) && Uniform(bs, v)
    ensures Flat(bs, u + v) == Flat(bs, u) + Flat(bs, v)
    decreases |v|
  {
    if v == [] {
      assert u + v == u;
    } else {
      var w := v[..|v| - 1];
      assert (u + v)[..|u + v| - 1] == u + w;
      FlatConcat(bs, u, w);
    }
  }

  /** Block `b` sits at byte `b * bs`. */
  lemma FlatSplit(bs: nat, v: seq<seq<byte>>, b: nat)
    requires Uniform(bs, v) && b < |v|
    ensures Flat(bs, v) == Flat(bs, v[..b]) + v[b] + Flat(bs, v[b + 1..])
  {
    assert v == v[..b + 1] + v[b + 1..];
    FlatConcat(bs, v[..b + 1], v[b + 1..]);
    assert v[..b + 1][..b] == v[..b];
  }

  lemma Middle(f: seq<byte>, p: seq<byte>, m: seq<byte>, q: seq<byte>, from: nat, to: nat)
    requires f == p + m + q && from <= to <= |m|
    ensures f[|p| + from..|p| + to] == m[from..to]
  {
  }

  /** Reading inside one block reads the flat bytes at the block's address. */
  lemma FlatSlice(bs: nat, v: seq<seq<byte>>, b: nat, from: nat, to: nat)
    requires Uniform(bs, v) && b < |v| && from <= to <= bs
    ensures Start(bs, b) + to <= Start(bs, |v|)
    ensures Flat(bs, v)[Start(bs, b) + from..Start(bs, b) + to] == v[b][from..to]
  {
    hide Start;
    FlatSplit(bs, v, b);
    Middle(Flat(bs, v), Flat(bs, v[..b]), v[b], Flat(bs, v[b + 1..]), from, to);
  }

  lemma SpliceMiddle(p: seq<byte>, m: seq<byte>, q: seq<byte>, from: nat, d: seq<byte>)
    requires from + |d| <= |m|
    ensures p + Splice(m, from, d) + q == Splice(p + m + q, |p| + from, d)
  {
    var f := p + m + q;
    assert f[..|p| + from] == p + m[..from];
    assert f[|p| + from + |d|..] == m[from + |d|..] + q;
  }

  /** Writing inside one block writes the flat bytes at the block's address. */
  lemma FlatPatch(bs: nat, v: seq<seq<byte>>, b: nat, from: nat, d: seq<byte>)
    requires Uniform(bs, v) && b < |v| && from + |d| <= bs
    ensures Start(bs, b) + from + |d| <= Start(bs, |v|)
    ensures Uniform(bs, v[b := Splice(v[b], from, d)])
    ensures Flat(bs, v[b := Splice(v[b], from, d)]) == Splice(Flat(bs, v), Start(bs, b) + from, d)
  {
    hide Start, Splice;
    var u := v[b := Splice(v[b], from, d)];
    FlatSplit(bs, v, b);
    FlatSplit(bs, u, b);
    assert u[..b] == v[..b] && u[b + 1..] == v[b + 1..];
    SpliceMiddle(Flat(bs, v[..b]), v[b], Flat(bs, v[b + 1..]), from, d);
  }

  lemma FlatAppend(bs: nat, v: seq<seq<byte>>, x: seq<byte>)
    requires Uniform(bs, v) && |x| == bs
    ensures Flat(bs, v + [x]) == Flat(bs, v) + x
  {
    assert (v + [x])[..|v|] == v;
  }

  /** A shorter run of blocks is a prefix of a longer one. */
  lemma FlatPrefix(bs: nat, v: seq<seq<byte>>, k: nat)
    requires Uniform(bs, v) && k <= |v|
    ensures Start(bs, k) <= Start(bs, |v|)
    ensures Flat(bs, v)[..Start(bs, k)] == Flat(bs, v[..k])
  {
    hide Start;
    assert v == v[..k] + v[k..];
    FlatConcat(bs, v[..k], v[k..]);
  }

  lemma SplitEnds(bs: nat, st: nat, so: nat, ed: nat, eo: nat, size: nat)
    requires so < bs && eo < bs && Start(bs, st) + so + size == Start(bs, ed) + eo
    ensures st <= ed
    ensures st == ed ==> so + size < bs
  {
    hide Start;
    StartNext(bs, ed);
    if ed < st {
      StartLe(bs, ed + 1, st);
    }
  }

  lemma Address(bs: nat, a: nat)
    requires bs > 0
    ensures a == Start(bs, BlockIndex(bs, a)) + BlockOffset(bs, a) && BlockOffset(bs, a) < bs
  {
  }

  /** The first and last block of a byte range and the offsets in them, as the cache computes them. */
  lemma SplitRange(bs: nat, offset: nat, size: nat)
    requires bs > 0
    ensures BlockIndex(bs, offset) <= BlockIndex(bs, offset + size)
    ensures BlockIndex(bs, offset) == BlockIndex(bs, offset + size) ==> BlockOffset(bs, offset) + size < bs
    ensures offset == Start(bs, BlockIndex(bs, offset)) + BlockOffset(bs, offset)
    ensures offset + size == Start(bs, BlockIndex(bs, offset + size)) + BlockOffset(bs, offset + size)
    ensures BlockOffset(bs, offset) < bs && BlockOffset(bs, offset + size) < bs
  {
    Address(bs, offset);
    Address(bs, offset + size);
    hide Start, BlockIndex, BlockOffset;
    SplitEnds(bs, BlockIndex(bs, offset), BlockOffset(bs, offset),
              BlockIndex(bs, offset + size), BlockOffset(bs, offset + size), size);
  }

  lemma IndexMonotone(bs: nat, a: nat, b: nat)
    requires bs > 0 && a <= b
    ensures BlockIndex(bs, a) <= BlockIndex(bs, b)
  {
    SplitRange(bs, a, b - a);
  }

  /** A byte lies before the end of exactly those runs of blocks that include its block. */
  lemma BelowEnd(bs: nat, a: nat, n: nat)
    requires bs > 0
    ensures a < Start(bs, n) <==> BlockIndex(bs, a) < n
  {
    var b := BlockIndex(bs, a);
    Address(bs, a);
    hide Start, BlockIndex, BlockOffset;
    StartNext(bs, b);
    if b < n {
      StartLe(bs, b + 1, n);
    } else {
      StartLe(bs, n, b);
    }
  }
}

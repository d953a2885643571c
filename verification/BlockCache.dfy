/** The write-back block cache of an open file, and the file handle in front of it. */
module BlockCache {
  import opened Bytes
  import opened BlockLayout
  import opened BlockmapCodec
  import opened Ciphers
  import opened Capsules
  import opened Commits
  import opened FlatFile
  import opened Middleware

  datatype Stat = Stat(cached: bool, dirty: bool)

  // ---- what lies behind the cache ----

  /** The payload of a record, if it is stored and fits the reader's buffer. */
  function ReadData(st: Store, dc: Name, name: Name, room: nat): (r: Option<seq<byte>>) {
    var rec := Lookup(st, dc, name);
    if rec.None? || |rec.value.payload| > room then None else Some(rec.value.payload)
  }

  /** The client's copy of the block map: none without a block-map record, else the payload followed
      by zeros. After a failed read it is all zeros, and the client goes on with that; when this is the
      map of the version is said in `Reloads`. */
  function LoadedMap(st: Store, dc: Name, bmName: Name, cover: nat): (r: Option<seq<byte>>)
    ensures r.Some? ==> |r.value| == cover * HASHLEN
  {
    if bmName == [] then None else
      var p := ReadData(st, dc, bmName, cover * HASHLEN);
      if p.None? then Some(Zeros(cover * HASHLEN))
      else Some(p.value + Zeros(cover * HASHLEN - |p.value|))
  }

  /** A decrypted payload in a block buffer; bytes it does not reach are taken as zeros. */
  function Fit(bs: nat, d: seq<byte>): (r: seq<byte>)
    ensures |r| == bs
    ensures |d| == bs ==> r == d
  {
    if |d| >= bs then d[..bs] else d + Zeros(bs - |d|)
  }

  /** Block `i` as a fill finds it: zeros if the map has no name for it, else the decrypted record;
      nothing if that record cannot be read. */
  function Fetched(w: World, st: Store, dc: Name, key: seq<byte>, m: Option<seq<byte>>, cover: nat, bs: nat,
                   i: nat): (r: Option<seq<byte>>)
    requires m.Some? ==> |m.value| == cover * HASHLEN
    ensures r.Some? ==> |r.value| == bs
  {
    var h := Entry(m, cover, i);
    if h.None? then Some(Zeros(bs)) else
      var p := ReadData(st, dc, h.value, bs + AES_PAD_LEN);
      if p.None? then None else Some(Fit(bs, w.cipher.dec(key, p.value)))
  }

  /** What could be read can still be read when the store has grown. */
  lemma ReadDataKept(a: Store, b: Store, dc: Name, name: Name, room: nat)
    requires StoreExtends(a, b) && ReadData(a, dc, name, room).Some?
    ensures ReadData(b, dc, name, room) == ReadData(a, dc, name, room)
  {
  }

  lemma LoadedMapKept(a: Store, b: Store, dc: Name, bmName: Name, cover: nat)
    requires StoreExtends(a, b) && (bmName != [] ==> ReadData(a, dc, bmName, cover * HASHLEN).Some?)
    ensures LoadedMap(b, dc, bmName, cover) == LoadedMap(a, dc, bmName, cover)
  {
    hide ReadData, StoreExtends;
    if bmName != [] {
      ReadDataKept(a, b, dc, bmName, cover * HASHLEN);
    }
  }

  lemma FetchedKept(w: World, a: Store, b: Store, dc: Name, key: seq<byte>, m: Option<seq<byte>>, cover: nat, bs: nat,
                    i: nat)
    requires StoreExtends(a, b) && (m.Some? ==> |m.value| == cover * HASHLEN)
    requires Fetched(w, a, dc, key, m, cover, bs, i).Some?
    ensures Fetched(w, b, dc, key, m, cover, bs, i) == Fetched(w, a, dc, key, m, cover, bs, i)
  {
    hide ReadData, StoreExtends, Fit;
    var h := Entry(m, cover, i);
    if h.Some? {
      ReadDataKept(a, b, dc, h.value, bs + AES_PAD_LEN);
    }
  }

  /** The dirty blocks among the first `n`, encrypted, in increasing order. */
  function DirtyDescs(w: World, key: seq<byte>, bs: nat, stats: seq<Stat>, blocks: seq<seq<byte>>,
                      n: nat): (r: seq<Desc>)
    requires n <= |stats| == |blocks|
  {
    if n == 0 then [] else
      DirtyDescs(w, key, bs, stats, blocks, n - 1) +
      (if stats[n - 1].dirty then [Desc(w.cipher.enc(key, blocks[n - 1]), (n - 1) * bs)] else [])
  }

  class RecordCache {
    const backend: Backend
    const dc: Name
    const inodeName: Name
    const bmName: Name
    const key: seq<byte>
    const bs: nat
    const cover: nat

    var stats: seq<Stat>
    var blocks: seq<seq<byte>>
    var bm: Option<seq<byte>>

    /** The constructor's sizing: one block more than the file fills. */
    constructor (backend: Backend, dc: Name, inodeName: Name, bmName: Name, key: seq<byte>, bs: nat, cover: nat,
                 size: nat)
      requires bs > 0
      ensures this.backend == backend && this.dc == dc && this.inodeName == inodeName && this.bmName == bmName
      ensures this.key == key && this.bs == bs && this.cover == cover
      ensures Valid() && |stats| == BlockIndex(bs, size) + 1 && bm == None
      ensures forall i :: 0 <= i < |stats| ==> !stats[i].cached && !stats[i].dirty
    {
      this.backend, this.dc, this.inodeName, this.bmName := backend, dc, inodeName, bmName;
      this.key, this.bs, this.cover := key, bs, cover;
      stats := seq(BlockIndex(bs, size) + 1, i => Stat(false, false));
      blocks := seq(BlockIndex(bs, size) + 1, i => []);
      bm := None;
    }

    ghost function Map(): (m: Option<seq<byte>>)
      reads this, backend
      ensures bm.Some? ==> m == bm
    {
      if bm.Some? then bm else LoadedMap(backend.State(), dc, bmName, cover)
    }

    ghost function Behind(i: nat): (r: Option<seq<byte>>)
      reads this, backend
      requires Map().Some? ==> |Map().value| == cover * HASHLEN
    {
      Fetched(backend.w, backend.State(), dc, key, Map(), cover, bs, i)
    }

    predicate Cached(i: nat)
      reads this
    {
      i < |stats| && stats[i].cached
    }

    /** The coherence invariant: a dirty block is cached, a cached block is a whole block, and a clean
        cached block is what lies behind the cache. */
    ghost predicate Valid()
      reads this, backend
    {
      && bs > 0 && |stats| == |blocks|
      && Map() == LoadedMap(backend.State(), dc, bmName, cover)
      && (forall i :: 0 <= i < |stats| && stats[i].dirty ==> stats[i].cached)
      && (forall i :: 0 <= i < |stats| && stats[i].cached ==> |blocks[i]| == bs)
      && (forall i :: 0 <= i < |stats| && stats[i].cached && !stats[i].dirty ==> Behind(i) == Some(blocks[i]))
    }

    /** Block `i` as the client would see it, cached or not. */
    ghost function Logical(i: nat): (r: seq<byte>)
      reads this, backend
      requires Valid()
      ensures |r| == bs
    {
      if Cached(i) then blocks[i] else if Behind(i).Some? then Behind(i).value else Zeros(bs)
    }

    ghost function View(n: nat): (v: seq<seq<byte>>)
      reads this, backend
      requires Valid()
      ensures |v| == n && Uniform(bs, v)
      ensures forall i :: 0 <= i < n ==> v[i] == Logical(i)
    {
      seq(n, i requires i >= 0 reads this, backend requires Valid() => Logical(i))
    }

    /** The first `n` blocks as bytes. */
    ghost function Content(n: nat): (r: seq<byte>)
      reads this, backend
      requires Valid()
      ensures |r| == Start(bs, n)
    {
      Flat(bs, View(n))
    }

    /** More blocks do not change the bytes of the first ones. */
    lemma ContentPrefix(m: nat, n: nat, size: nat)
      requires Valid() && m <= n && size <= |Content(m)|
      ensures size <= |Content(n)| && Content(n)[..size] == Content(m)[..size]
    {
      hide Flat, Fetched, LoadedMap, Start;
      ViewsAgree(bs, View(m), View(n), size);
    }

    lemma Covers(size: nat, n: nat)
      requires Valid() && BlockIndex(bs, size) < n
      ensures size < |Content(n)|
    {
      hide Flat, Fetched, LoadedMap, Start;
      BelowEnd(bs, size, n);
    }

    /** Whether blocks `lo` to `hi` can be filled: the map is there or readable, and so is every block
        not yet cached. */
    ghost predicate Fetchable(lo: nat, hi: nat)
      reads this, backend
      requires Valid()
    {
      && (bm.None? && bmName != [] ==> ReadData(backend.State(), dc, bmName, cover * HASHLEN).Some?)
      && forall i :: lo <= i <= hi && !Cached(i) ==> Behind(i).Some?
    }

    /** Everything the block map names can be read. */
    ghost predicate Complete()
      reads this, backend
      requires Valid()
    {
      && (bm.None? && bmName != [] ==> ReadData(backend.State(), dc, bmName, cover * HASHLEN).Some?)
      && forall i: nat :: Cached(i) || Behind(i).Some?
    }

    /** The block map of the version this cache stands on, if there is one, is stored. */
    ghost predicate MapStored()
      reads backend
    {
      bmName != [] ==> ReadData(backend.State(), dc, bmName, cover * HASHLEN).Some?
    }

    /** What a cache holds and shows outlives whatever is added to the store. */
    twostate lemma Undisturbed()
      requires old(Valid() && MapStored()) && stats == old(stats) && blocks == old(blocks) && bm == old(bm)
      requires StoreExtends(old(backend.State()), backend.State())
      ensures Valid() && MapStored() && Map() == old(Map())
      ensures forall i: nat :: old(Behind(i)).Some? ==> Behind(i) == old(Behind(i))
      ensures old(Complete()) ==> Complete() && forall i: nat :: Logical(i) == old(Logical(i))
    {
      hide Fetched, LoadedMap, ReadData, StoreExtends;
      var a, b := old(backend.State()), backend.State();
      LoadedMapKept(a, b, dc, bmName, cover);
      if bmName != [] {
        ReadDataKept(a, b, dc, bmName, cover * HASHLEN);
      }
      forall i: nat | old(Behind(i)).Some?
        ensures Behind(i) == old(Behind(i))
      {
        FetchedKept(backend.w, a, b, dc, key, Map(), cover, bs, i);
      }
    }

    /** A cache without a dirty block can be dropped unnoticed. */
    twostate lemma NothingSent()
      requires old(Valid() && MapStored() && Complete()) && old(Pending()) == [] && Valid() && MapStored()
      requires |stats| == |old(stats)| && forall i :: 0 <= i < |stats| ==> stats[i] == Stat(false, false)
      requires forall i: nat :: old(Behind(i)).Some? ==> Behind(i) == old(Behind(i))
      ensures forall i :: 0 <= i < |stats| ==> !old(stats)[i].dirty
      ensures Complete() && forall i: nat :: Logical(i) == old(Logical(i))
    {
      hide Fetched, LoadedMap, ReadData;
      NoneDirty(backend.w, key, bs, old(stats), old(blocks), |old(stats)|);
    }

    lemma CompleteFetchable(lo: nat, hi: nat)
      requires Valid() && Complete()
      ensures Fetchable(lo, hi)
    {
    }

    /** The payload of a record through the storage backend. */
    method ReadRecordData(name: Name, room: nat) returns (ret: int, data: seq<byte>)
      ensures var r := ReadData(backend.State(), dc, name, room);
              if r.None? then ret < 0 else ret == NO_ERR && data == r.value
    {
      var rec := backend.ReadRecord(dc, name);
      if rec.None? {
        return ERR_NOT_FOUND, [];
      }
      if |rec.value.payload| > room {
        return ERR_BUF_TOO_SMALL, [];
      }
      return NO_ERR, rec.value.payload;
    }

    method FillBmcache() returns (ret: int)
      requires Valid()
      modifies this`bm
      ensures bm == old(Map()) && Valid()
      ensures ret == NO_ERR || ret < 0
      ensures ret == NO_ERR <==>
                old(bm.None? && bmName != [] ==> ReadData(backend.State(), dc, bmName, cover * HASHLEN).Some?)
      ensures forall i: nat :: Behind(i) == old(Behind(i))
    {
      ret := NO_ERR;
      if bm.None? && bmName != [] {
        bm := Some(Zeros(cover * HASHLEN));
        var data;
        ret, data := ReadRecordData(bmName, cover * HASHLEN);
        if ret < 0 {
          return;
        }
        bm := Some(data + Zeros(cover * HASHLEN - |data|));
      }
    }

    method BmCheck(i: nat) returns (r: Option<Hash>)
      requires bm.Some? ==> |bm.value| == cover * HASHLEN
      ensures r == Entry(bm, cover, i)
      ensures r.Some? <==> bm.Some? && i < cover && bm.value[i * HASHLEN] != 0
      ensures r.Some? ==> r.value == bm.value[i * HASHLEN..i * HASHLEN + HASHLEN]
    {
      if bm.None? {
        return None;
      }
      if i >= cover {
        return None;
      }
      var h := bm.value[i * HASHLEN..i * HASHLEN + HASHLEN];
      if h[0] == 0 {
        return None;
      }
      return Some(h);
    }

    /** Fetches one block that is not cached. */
    method FetchBlock(i: nat) returns (ret: int, block: seq<byte>)
      requires Valid() && bm == Map()
      ensures if Behind(i).None? then ret < 0 else ret == NO_ERR && block == Behind(i).value
    {
      var h := BmCheck(i);
      if h.None? {
        return NO_ERR, Zeros(bs);
      }
      var data;
      ret, data := ReadRecordData(h.value, bs + AES_PAD_LEN);
      if ret < 0 {
        return ret, [];
      }
      block := Fit(bs, backend.w.cipher.dec(key, data));
    }

    /** One turn of the fill loop: extends the vectors by one block if needed and caches block `i`. */
    method FillOne(i: nat) returns (ret: int)
      requires Valid() && bm == Map() && i <= |stats|
      modifies this`stats, this`blocks
      ensures Valid() && |stats| == if i < old(|stats|) then old(|stats|) else i + 1
      ensures ret == NO_ERR || ret < 0
      ensures ret == NO_ERR <==> old(Cached(i) || Behind(i).Some?)
      ensures ret == NO_ERR ==> Cached(i)
      ensures forall j: nat :: j != i ==> Cached(j) == old(Cached(j))
      ensures forall j: nat :: Behind(j) == old(Behind(j))
      ensures forall j: nat :: Logical(j) == old(Logical(j))
      ensures forall j :: 0 <= j < |stats| ==> stats[j].dirty == (j < old(|stats|) && old(stats)[j].dirty)
    {
      hide Fetched, LoadedMap;
      ret := NO_ERR;
      if i >= |stats| {
        stats := stats + [Stat(false, false)];
        blocks := blocks + [[]];
      }
      if !stats[i].cached {
        var block;
        ret, block := FetchBlock(i);
        if ret < 0 {
          return;
        }
        blocks := blocks[i := block];
        stats := stats[i := Stat(true, stats[i].dirty)];
      }
    }

    /** The fill: makes the blocks of a range cached and changes nothing a client can see. It fails
        exactly when a block cannot be read, or the map cannot be read and no fill has tried that
        before: a failed read leaves a map of zeros behind, which the next fill takes for the map. */
    method FillDcache(offset: nat, size: nat) returns (ret: int)
      requires Valid()
      modifies this`stats, this`blocks, this`bm
      ensures Valid() && |stats| >= old(|stats|) && bm == old(Map())
      ensures ret == NO_ERR || ret < 0
      ensures var st, ed := Clamp(BlockIndex(bs, offset), old(|stats|)), BlockIndex(bs, offset + size);
              && (ret == NO_ERR <==> old(Fetchable(st, ed)))
              && (ret == NO_ERR ==> forall i :: st <= i <= ed ==> Cached(i))
              && (ret == NO_ERR ==> |stats| == if ed < old(|stats|) then old(|stats|) else ed + 1)
      ensures forall i: nat :: Logical(i) == old(Logical(i))
      ensures forall i :: 0 <= i < |stats| ==> stats[i].dirty == (i < old(|stats|) && old(stats)[i].dirty)
      ensures old(Complete()) ==> Complete()
    {
      hide Fetched, LoadedMap;
      var st, ed := BlockIndex(bs, offset), BlockIndex(bs, offset + size);
      SplitRange(bs, offset, size);
      if st > |stats| {
        st := |stats|;
      }
      ret := FillBmcache();
      if ret < 0 {
        return;
      }
      var i := st;
      while i <= ed
        invariant st <= i <= ed + 1 && i <= |stats| && ret == NO_ERR
        invariant Valid() && bm == Map() == old(Map())
        invariant |stats| == if i < old(|stats|) then old(|stats|) else i
        invariant forall j :: st <= j < i ==> Cached(j) && old(Cached(j) || Behind(j).Some?)
        invariant forall j: nat :: Behind(j) == old(Behind(j))
        invariant forall j: nat :: Logical(j) == old(Logical(j))
        invariant forall j: nat :: j < st || j >= i ==> Cached(j) == old(Cached(j))
        invariant forall j: nat :: old(Cached(j)) ==> Cached(j)
        invariant forall j :: 0 <= j < |stats| ==> stats[j].dirty == (j < old(|stats|) && old(stats)[j].dirty)
      {
        ret := FillOne(i);
        if ret < 0 {
          return;
        }
        i := i + 1;
      }
    }

    /** `memcpy` out of one block. */
    method CopyOut(b: nat, from: nat, len: nat) returns (d: seq<byte>)
      requires Valid() && Cached(b) && from + len <= bs
      ensures var at := Start(bs, b) + from;
              at + len <= |Content(|stats|)| && d == Content(|stats|)[at..at + len]
    {
      hide Fetched, LoadedMap, Flat, Start, BlockIndex, BlockOffset;
      d := blocks[b][from..from + len];
      FlatSlice(bs, View(|stats|), b, from, from + len);
    }

    /** The copy of the whole blocks from `st` up to `ed`. */
    method CopyBlocks(st: nat, ed: nat) returns (out: seq<byte>)
      requires Valid() && st <= ed < |stats| && forall b :: st <= b < ed ==> Cached(b)
      ensures Start(bs, st) <= Start(bs, ed) <= |Content(|stats|)|
      ensures out == Content(|stats|)[Start(bs, st)..Start(bs, ed)]
    {
      hide Fetched, LoadedMap, Flat, Valid, View, Content, Start, Cached;
      ghost var c := Content(|stats|);
      StartLe(bs, st, |stats|);
      out := [];
      var b := st;
      while b < ed
        invariant st <= b <= ed && Start(bs, st) <= Start(bs, b) <= |c| && out == c[Start(bs, st)..Start(bs, b)]
      {
        var d := CopyOut(b, 0, bs);
        StartNext(bs, b);
        JoinSlices(c, Start(bs, st), Start(bs, b), Start(bs, b + 1));
        out := out + d;
        b := b + 1;
      }
    }

    /** The copy out of two or more blocks: the tail of the first, whole blocks, and one byte more
        than the head of the last. */
    method GatherSpan(st: nat, so: nat, ed: nat, eo: nat) returns (out: seq<byte>)
      requires Valid() && st < ed && so < bs && eo < bs && forall b :: st <= b <= ed ==> Cached(b)
      ensures var at, end := Start(bs, st) + so, Start(bs, ed) + eo + 1;
              at <= end <= |Content(|stats|)| && out == Content(|stats|)[at..end]
    {
      hide Fetched, LoadedMap, Flat, Valid, View, Content, Start;
      ghost var c, at := Content(|stats|), Start(bs, st) + so;
      StartNext(bs, st);
      assert Cached(ed);
      out := CopyOut(st, so, bs - so);
      if st + 1 < ed {
        var middle := CopyBlocks(st + 1, ed);
        JoinSlices(c, at, Start(bs, st + 1), Start(bs, ed));
        out := out + middle;
      }
      assert out == c[at..Start(bs, ed)];
      var tail := CopyOut(ed, 0, eo + 1);
      assert tail == c[Start(bs, ed)..Start(bs, ed) + eo + 1];
      JoinSlices(c, at, Start(bs, ed), Start(bs, ed) + eo + 1);
      out := out + tail;
    }

    method Gather(offset: nat, size: nat) returns (out: seq<byte>)
      requires Valid() && size > 0
      requires forall b :: BlockIndex(bs, offset) <= b <= BlockIndex(bs, offset + size) ==> Cached(b)
      ensures var end := offset + size + Overshoot(bs, offset, size);
              end <= |Content(|stats|)| && out == Content(|stats|)[offset..end]
    {
      hide Fetched, LoadedMap, Flat, View, Content, Start, BlockIndex, BlockOffset;
      var st, ed := BlockIndex(bs, offset), BlockIndex(bs, offset + size);
      SplitRange(bs, offset, size);
      if st == ed {
        out := CopyOut(st, BlockOffset(bs, offset), size);
      } else {
        out := GatherSpan(st, BlockOffset(bs, offset), ed, BlockOffset(bs, offset + size));
      }
    }

    /** `RecordCache::Read`: what it stores from the caller's buffer on. That is the range asked for,
        and one byte more when the range crosses a block boundary. */
    method Read(offset: nat, size: nat) returns (ret: int, out: seq<byte>)
      requires Valid() && size > 0
      modifies this`stats, this`blocks, this`bm
      ensures Valid() && |stats| >= old(|stats|) && bm == old(Map())
      ensures ret == NO_ERR || ret < 0
      ensures forall n: nat :: Content(n) == old(Content(n))
      ensures forall i: nat :: Logical(i) == old(Logical(i))
      ensures forall i :: 0 <= i < |stats| ==> stats[i].dirty == (i < old(|stats|) && old(stats)[i].dirty)
      ensures ret == NO_ERR <==> old(Fetchable(Clamp(BlockIndex(bs, offset), |stats|), BlockIndex(bs, offset + size)))
      ensures var end := offset + size + Overshoot(bs, offset, size);
              if ret == NO_ERR then end <= |Content(|stats|)| && out == Content(|stats|)[offset..end] else out == []
      ensures old(Complete()) ==> Complete()
    {
      hide Fetched, LoadedMap, Flat, Start, BlockIndex, BlockOffset;
      ret := FillDcache(offset, size);
      forall n: nat
        ensures Content(n) == old(Content(n))
      {
        assert View(n) == old(View(n));
      }
      if ret < 0 {
        return ret, [];
      }
      out := Gather(offset, size);
    }

    /** `memcpy` into one block, which becomes dirty. */
    method CopyIn(b: nat, from: nat, d: seq<byte>)
      requires Valid() && Cached(b) && from + |d| <= bs
      modifies this`stats, this`blocks
      ensures Valid() && |stats| == old(|stats|)
      ensures |Content(|stats|)| == old(|Content(|stats|)|) && Start(bs, b) + from + |d| <= |Content(|stats|)|
      ensures Content(|stats|) == Splice(old(Content(|stats|)), Start(bs, b) + from, d)
      ensures stats == old(stats)[b := Stat(true, true)]
    {
      hide Fetched, LoadedMap, Flat, Start, BlockIndex, BlockOffset;
      ghost var v := View(|stats|);
      FlatPatch(bs, v, b, from, d);
      blocks := blocks[b := Splice(blocks[b], from, d)];
      stats := stats[b := Stat(true, true)];
      assert View(|stats|) == v[b := Splice(v[b], from, d)];
    }

    /** `RecordCache::Write`: splices the caller's bytes into the file, and one byte more when the
        range crosses a block boundary; exactly the blocks of the range become dirty. */
    method Write(mem: seq<byte>, offset: nat, size: nat) returns (ret: int)
      requires Valid() && 0 < size < |mem|
      requires Fetchable(Clamp(BlockIndex(bs, offset), |stats|), BlockIndex(bs, offset + size))
      modifies this`stats, this`blocks, this`bm
      ensures Valid() && ret == NO_ERR
      ensures var ed := BlockIndex(bs, offset + size); |stats| == if ed < old(|stats|) then old(|stats|) else ed + 1
      ensures var n, k := |stats|, size + Overshoot(bs, offset, size);
              && offset + k <= |Content(n)| == old(|Content(n)|)
              && Content(n) == Splice(old(Content(n)), offset, mem[..k])
      ensures forall i :: 0 <= i < |stats| ==>
                stats[i].dirty == (|| BlockIndex(bs, offset) <= i <= BlockIndex(bs, offset + size)
                                   || (i < old(|stats|) && old(stats)[i].dirty))
      ensures old(Complete()) ==> Complete()
    {
      hide Fetched, LoadedMap, Flat, Start, BlockIndex, BlockOffset;
      ret := FillDcache(offset, size);
      ghost var n := |stats|;
      assert View(n) == old(View(n));
      label Filled:
      Scatter(mem, offset, size);
      assert forall i: nat :: Behind(i) == old@Filled(Behind(i)) && (old@Filled(Cached(i)) ==> Cached(i));
    }

    /** The copy into two or more blocks, the mirror image of `GatherSpan`. */
    method ScatterSpan(mem: seq<byte>, st: nat, so: nat, ed: nat, eo: nat)
      requires Valid() && st < ed && so < bs && eo < bs && forall b :: st <= b <= ed ==> Cached(b)
      requires Start(bs, ed) + eo < Start(bs, st) + so + |mem|
      modifies this`stats, this`blocks
      ensures Valid() && |stats| == old(|stats|) && |Content(|stats|)| == old(|Content(|stats|)|)
      ensures var at, end := Start(bs, st) + so, Start(bs, ed) + eo + 1;
              at < end <= |Content(|stats|)| && Content(|stats|) == Splice(old(Content(|stats|)), at, mem[..end - at])
      ensures forall i :: 0 <= i < |stats| ==> stats[i] == if st <= i <= ed then Stat(true, true) else old(stats)[i]
    {
      hide Fetched, LoadedMap, Flat, Splice, Valid, View, Content, Start;
      ghost var c, at := Content(|stats|), Start(bs, st) + so;
      StartNext(bs, st);
      StartLe(bs, st + 1, ed);
      CopyIn(st, so, mem[..bs - so]);
      assert old(Cached(ed));
      if st + 1 == ed {
        CopyIn(ed, 0, mem[bs - so..bs - so + eo + 1]);
        SpliceNext(c, at, mem, bs - so, bs - so + eo + 1);
      } else {
        var cur := bs - so;
        var b := st + 1;
        while b < ed
          invariant st < b <= ed && at + cur == Start(bs, b) <= |c| && |stats| == old(|stats|)
          invariant Valid() && |Content(|stats|)| == |c| && 0 <= cur <= |mem|
          invariant Content(|stats|) == Splice(c, at, mem[..cur])
          invariant forall i :: 0 <= i < |stats| ==> stats[i] == if st <= i < b then Stat(true, true) else old(stats)[i]
        {
          StartNext(bs, b);
          StartLe(bs, b + 1, ed);
          assert old(Cached(b));
          CopyIn(b, 0, mem[cur..cur + bs]);
          SpliceNext(c, at, mem, cur, cur + bs);
          cur := cur + bs;
          b := b + 1;
        }
        CopyIn(ed, 0, mem[cur..cur + eo + 1]);
        SpliceNext(c, at, mem, cur, cur + eo + 1);
      }
    }

    method Scatter(mem: seq<byte>, offset: nat, size: nat)
      requires Valid() && 0 < size < |mem|
      requires forall b :: BlockIndex(bs, offset) <= b <= BlockIndex(bs, offset + size) ==> Cached(b)
      modifies this`stats, this`blocks
      ensures Valid() && |stats| == old(|stats|)
      ensures var k := size + Overshoot(bs, offset, size);
              && offset + k <= |Content(|stats|)| == old(|Content(|stats|)|)
              && Content(|stats|) == Splice(old(Content(|stats|)), offset, mem[..k])
      ensures forall i :: 0 <= i < |stats| ==>
                stats[i] == if BlockIndex(bs, offset) <= i <= BlockIndex(bs, offset + size) then Stat(true, true)
                            else old(stats)[i]
    {
      hide Fetched, LoadedMap, Flat, Splice, View, Content, Start, BlockIndex, BlockOffset;
      var st, ed := BlockIndex(bs, offset), BlockIndex(bs, offset + size);
      SplitRange(bs, offset, size);
      if st == ed {
        CopyIn(st, BlockOffset(bs, offset), mem[..size]);
      } else {
        ScatterSpan(mem, st, BlockOffset(bs, offset), ed, BlockOffset(bs, offset + size));
      }
    }

    /** The blocks a flush sends. */
    ghost function Pending(): (descs: seq<Desc>)
      reads this
      requires |stats| == |blocks|
    {
      DirtyDescs(backend.w, key, bs, stats, blocks, |stats|)
    }

    /** The assumptions on the request a flush makes: a well-formed store, and no hash collision. */
    ghost predicate Flushable(clock: nat -> int)
      reads this, backend
      requires |stats| == |blocks|
    {
      && Fine(backend.w) && Inv(backend.w, backend.State())
      && (Pending() != [] ==> LegalModify(backend.w, backend.State(), dc, Pending(), key, clock))
    }

    /** `RecordCache::FlushCache`: sends the dirty blocks, encrypted, in increasing order, and drops
        the cache if the backend took them. The store only grows and the cache stays coherent either
        way: a flush that failed leaves all contents as they were, one that succeeded leaves the
        version the cache was opened on. */
    method FlushCache(clock: nat -> int, ok: nat -> bool) returns (ret: int)
      requires Valid() && backend.w.bs > 0 && |key| == AES_KEY_LEN && Parses(backend.State(), dc)
      modifies this`stats, this`blocks, backend
      ensures if old(Pending()) == [] then ret == NO_ERR && backend.State() == old(backend.State())
              else Outcome(backend.State(), ret)
                   == ModifyStep(backend.w, old(backend.State()), dc, old(Pending()), inodeName, key, clock, ok)
      ensures if ret < 0 then stats == old(stats) && blocks == old(blocks)
              else && |stats| == |blocks| == |old(stats)|
                   && forall i :: 0 <= i < |stats| ==> stats[i] == Stat(false, false)
      ensures old(Flushable(clock)) ==>
                Inv(backend.w, backend.State()) && StoreExtends(old(backend.State()), backend.State())
      ensures old(Flushable(clock) && MapStored()) ==>
                Valid() && MapStored() && forall i: nat :: old(Behind(i)).Some? ==> Behind(i) == old(Behind(i))
      ensures old(Flushable(clock) && MapStored() && Complete()) && ret < 0 ==>
                Complete() && forall i: nat :: Logical(i) == old(Logical(i))
    {
      hide ModifyStep, LoadedMap, Fetched, ReadData, Inv, StoreExtends, Parses, LegalModify;
      var descs := [];
      for i := 0 to |stats|
        invariant descs == DirtyDescs(backend.w, key, bs, stats, blocks, i)
      {
        if stats[i].dirty {
          descs := descs + [Desc(backend.w.cipher.enc(key, blocks[i]), i * bs)];
        }
      }
      ret := backend.WriteBlocks(dc, descs, inodeName, key, clock, ok);
      if old(Flushable(clock)) {
        RequestKeeps(backend.w, old(backend.State()), backend.State(), dc, descs, inodeName, key, clock, ok, ret);
        if old(MapStored()) {
          Undisturbed();
        }
      }
      if ret < 0 {
        return;
      }
      label Sent:
      for i := 0 to |stats|
        modifies this`stats, this`blocks
        invariant |stats| == |blocks| == |old(stats)|
        invariant forall j :: 0 <= j < i ==> stats[j] == Stat(false, false)
      {
        blocks := blocks[i := []];
        stats := stats[i := Stat(false, false)];
      }
      assert Map() == old@Sent(Map());
      assert forall i: nat :: !Cached(i);
    }
  }

  lemma {:induction false} NoneDirty(w: World, key: seq<byte>, bs: nat, stats: seq<Stat>, blocks: seq<seq<byte>>,
                                     n: nat)
    requires n <= |stats| == |blocks| && DirtyDescs(w, key, bs, stats, blocks, n) == []
    ensures forall i :: 0 <= i < n ==> !stats[i].dirty
  {
    if n == 0 {
    } else {
      NoneDirty(w, key, bs, stats, blocks, n - 1);
    }
  }

  /** The request of a flush, or none, keeps the store well-formed and loses no record. */
  lemma RequestKeeps(w: World, st: Store, st': Store, dc: Name, descs: seq<Desc>, inodeName: Name, key: seq<byte>,
                     clock: nat -> int, ok: nat -> bool, ret: int)
    requires Fine(w) && Inv(w, st) && (descs != [] ==> LegalModify(w, st, dc, descs, key, clock))
    requires if descs == [] then st' == st
             else Outcome(st', ret) == ModifyStep(w, st, dc, descs, inodeName, key, clock, ok)
    ensures Inv(w, st') && StoreExtends(st, st')
  {
    hide Inv, StoreExtends, ModifyStep, LegalModify;
    if descs == [] {
      ExtendsRefl(st);
    } else {
      ModifyKeepsInv(w, st, dc, descs, inodeName, key, clock, ok);
    }
  }

  /** Nothing beyond the file is dirty, and once the file has grown, every block from its old end to
      its new one is dirty. */
  ghost predicate DirtyRun(bs: nat, base: nat, size: nat, stats: seq<Stat>)
    requires bs > 0
  {
    && DirtyUpTo(BlockIndex(bs, size), size > 0, stats)
    && (size > base ==> DirtyFrom(BlockIndex(bs, base), BlockIndex(bs, size), stats))
  }

  ghost predicate DirtyUpTo(last: nat, any: bool, stats: seq<Stat>) {
    forall i :: 0 <= i < |stats| && stats[i].dirty ==> i <= last && any
  }

  ghost predicate DirtyFrom(first: nat, last: nat, stats: seq<Stat>) {
    forall i :: first <= i <= last && i < |stats| ==> stats[i].dirty
  }

  lemma DirtyMore(a: seq<Stat>, b: seq<Stat>, lo: nat, hi: nat, first: nat, last: nat, any: bool)
    requires DirtyUpTo(last, any, a) && last < |a| <= |b| && hi < |b|
    requires forall i :: 0 <= i < |b| ==> b[i].dirty == (lo <= i <= hi || (i < |a| && a[i].dirty))
    ensures DirtyUpTo(if hi > last then hi else last, true, b)
    ensures DirtyFrom(first, last, a) && lo <= last + 1 ==> DirtyFrom(first, if hi > last then hi else last, b)
    ensures lo <= first ==> DirtyFrom(first, hi, b)
  {
  }

  /** A write at or before the end keeps the run: this is what the clamp is for. */
  lemma DirtyRunGrows(bs: nat, base: nat, len: nat, at: nat, size: nat, lo: nat, hi: nat, a: seq<Stat>, b: seq<Stat>)
    requires bs > 0 && base <= len && at <= len && size > 0 && BlockIndex(bs, len) < |a|
    requires lo == BlockIndex(bs, at) && hi == BlockIndex(bs, at + size)
    requires DirtyRun(bs, base, len, a)
    requires |b| == if hi < |a| then |a| else hi + 1
    requires forall i :: 0 <= i < |b| ==> b[i].dirty == (lo <= i <= hi || (i < |a| && a[i].dirty))
    ensures var len' := if at + size > len then at + size else len;
            base <= len' && BlockIndex(bs, len') < |b| && DirtyRun(bs, base, len', b)
  {
    hide DirtyUpTo, DirtyFrom, BlockIndex;
    var first, last := BlockIndex(bs, base), BlockIndex(bs, len);
    IndexMonotone(bs, at, len);
    DirtyMore(a, b, lo, hi, first, last, len > 0);
    if at + size > len {
      IndexMonotone(bs, len, at + size);
      assert DirtyUpTo(hi, true, b) && DirtyFrom(first, hi, b);
    } else {
      IndexMonotone(bs, at + size, len);
      assert DirtyUpTo(last, true, b) && (len > base ==> DirtyFrom(first, last, b));
    }
  }

  lemma DirtyRunKept(bs: nat, base: nat, size: nat, a: seq<Stat>, b: seq<Stat>)
    requires bs > 0 && BlockIndex(bs, size) < |a| <= |b| && DirtyRun(bs, base, size, a)
    requires forall i :: 0 <= i < |b| ==> b[i].dirty == (i < |a| && a[i].dirty)
    ensures DirtyRun(bs, base, size, b)
  {
  }

  /** The handle of an open file: its size, its reference count and its cache. */
  class Inode {
    const cache: RecordCache
    var size: nat
    var refCount: nat
    ghost const base: nat  // the size it was opened with

    predicate Dirty(i: nat)
      reads cache
    {
      i < |cache.stats| && cache.stats[i].dirty
    }

    /** The vectors cover the file and one block more, and the dirty blocks are where they belong. */
    ghost predicate Valid()
      reads this, cache, cache.backend
      ensures Valid() ==> cache.bs > 0 && cache.Valid()
    {
      && cache.bs > 0 && cache.Valid()
      && base <= size && BlockIndex(cache.bs, size) < |cache.stats|
      && DirtyRun(cache.bs, base, size, cache.stats)
    }

    /** The contents of the file as this handle shows them. */
    ghost function File(): (c: seq<byte>)
      reads this, cache, cache.backend
      requires Valid()
      ensures |c| == size
    {
      cache.Covers(size, |cache.stats|);
      cache.Content(|cache.stats|)[..size]
    }

    /** A handle for a new file (`size` 0, no records) or for a stored version. */
    constructor (backend: Backend, dc: Name, inodeName: Name, bmName: Name, key: seq<byte>, bs: nat, cover: nat,
                 size: nat)
      requires bs > 0
      ensures cache.backend == backend && cache.dc == dc && cache.inodeName == inodeName && cache.bmName == bmName
      ensures cache.key == key && cache.bs == bs && cache.cover == cover
      ensures this.size == base == size && refCount == 0 && fresh(cache) && cache.bm == None
      ensures Valid() && forall i: nat :: !Dirty(i) && !cache.Cached(i)
    {
      this.size, this.base, refCount := size, size, 0;
      cache := new RecordCache(backend, dc, inodeName, bmName, key, bs, cover, size);
    }

    method Read(offset: nat, size: nat) returns (ret: int, readSize: nat, out: seq<byte>)
      requires Valid() && size > 0
      modifies cache`stats, cache`blocks, cache`bm
      ensures Valid() && File() == old(File())
      ensures forall i: nat :: Dirty(i) == old(Dirty(i))
      ensures forall i: nat :: cache.Logical(i) == old(cache.Logical(i))
      ensures ret == NO_ERR || ret < 0
      ensures if offset >= this.size then ret == NO_ERR && cache.bm == old(cache.bm)
              else && cache.bm == old(cache.Map())
                   && var n := if offset + size > this.size then this.size - offset else size;
                      ret == NO_ERR <==>
                        old(cache.Fetchable(BlockIndex(cache.bs, offset), BlockIndex(cache.bs, offset + n)))
      ensures ret == NO_ERR ==>
                && readSize <= |out| && out[..readSize] == FlatRead(File(), offset, size)
                && |out| == readSize + (if offset < this.size then Overshoot(cache.bs, offset, readSize) else 0)
                && readSize == (if offset >= this.size then 0
                                else if this.size - offset < size then this.size - offset else size)
                && forall j :: 0 <= j < readSize ==> out[j] == File()[offset + j]
      ensures old(cache.Complete()) ==> ret == NO_ERR && cache.Complete()
    {
      hide RecordCache.Valid, RecordCache.Content, RecordCache.Fetchable, RecordCache.Complete, Start, BlockIndex,
           Overshoot, DirtyRun;
      if offset >= this.size {
        return NO_ERR, 0, [];
      }
      readSize := size;
      if offset + size > this.size {
        readSize := this.size - offset;
      }
      ghost var m, stats := |cache.stats|, cache.stats;
      IndexMonotone(cache.bs, offset, this.size);
      cache.Covers(this.size, m);
      if cache.Complete() {
        cache.CompleteFetchable(Clamp(BlockIndex(cache.bs, offset), m), BlockIndex(cache.bs, offset + readSize));
      }
      ret, out := cache.Read(offset, readSize);
      DirtyRunKept(cache.bs, base, this.size, stats, cache.stats);
      cache.ContentPrefix(m, |cache.stats|, this.size);
      if ret == NO_ERR {
        CutBehind(cache.Content(|cache.stats|), this.size, offset, readSize, |out|);
        assert out[..readSize] == File()[offset..offset + readSize] == FlatRead(File(), offset, size);
      }
    }

    method Write(mem: seq<byte>, offset: nat, size: nat) returns (ret: int, writeSize: nat)
      requires Valid() && 0 < size < |mem|
      requires var at := Clamp(offset, this.size);
               cache.Fetchable(BlockIndex(cache.bs, at), BlockIndex(cache.bs, at + size))
      modifies this`size, cache`stats, cache`blocks, cache`bm
      ensures Valid() && ret == NO_ERR && writeSize == size
      ensures File() == CodedWrite(cache.bs, old(File()), mem, offset, size)
      ensures offset >= old(this.size) ==> File() == old(File()) + mem[..size]
      ensures offset < old(this.size) ==>
                && this.size == (if offset + size > old(this.size) then offset + size else old(this.size))
                && forall i :: 0 <= i < this.size ==>
                     File()[i] == if offset <= i < offset + size then mem[i - offset]
                                  else if i == offset + size && offset % cache.bs + size >= cache.bs then mem[size]
                                  else old(File())[i]
      ensures old(cache.Complete()) ==> cache.Complete()
    {
      hide RecordCache.Valid, RecordCache.Content, RecordCache.Fetchable, RecordCache.Complete, Start, BlockIndex,
           Overshoot, CodedWrite, Splice, DirtyRun;
      var at := offset;
      if at >= this.size {
        at := this.size;
      }
      IndexMonotone(cache.bs, at, this.size);
      ghost var stats := cache.stats;
      ghost var len, m, ed := this.size, |cache.stats|, BlockIndex(cache.bs, at + size);
      ghost var n := if ed < m then m else ed + 1;
      cache.Covers(len, m);
      cache.ContentPrefix(m, n, len);
      ghost var c := cache.Content(n);
      ret := cache.Write(mem, at, size);
      SpliceIsCodedWrite(cache.bs, c, len, mem, offset, size);
      CodedWriteBytes(cache.bs, c[..len], mem, offset, size);
      DirtyRunGrows(cache.bs, base, len, at, size, BlockIndex(cache.bs, at), ed, stats, cache.stats);
      if ret == NO_ERR && at + size > this.size {
        this.size := at + size;
      }
      writeSize := size;
    }

    method Ref()
      modifies this`refCount
      ensures refCount == old(refCount) + 1
    {
      refCount := refCount + 1;
    }

    /** A handle whose size, dirty flags and blocks are the same shows the same file. */
    twostate lemma SameFile()
      requires old(Valid()) && cache.Valid() && size == old(size) && |cache.stats| == old(|cache.stats|)
      requires forall i :: 0 <= i < |cache.stats| ==> cache.stats[i].dirty == old(cache.stats)[i].dirty
      requires forall i: nat :: cache.Logical(i) == old(cache.Logical(i))
      ensures Valid() && File() == old(File())
    {
      hide RecordCache.Valid, Fetched, LoadedMap, BlockIndex, Start, Flat, DirtyRun;
      var n := |cache.stats|;
      DirtyRunKept(cache.bs, base, size, old(cache.stats), cache.stats);
      assert cache.View(n) == old(cache.View(n));
    }

    /** Whatever is added to the store by others, an open file stays as it is. */
    twostate lemma Undisturbed()
      requires old(Valid() && cache.MapStored() && cache.Complete()) && size == old(size)
      requires cache.stats == old(cache.stats) && cache.blocks == old(cache.blocks) && cache.bm == old(cache.bm)
      requires StoreExtends(old(cache.backend.State()), cache.backend.State())
      ensures Valid() && cache.MapStored() && cache.Complete() && File() == old(File())
    {
      hide RecordCache.Valid, RecordCache.Complete, RecordCache.MapStored, DirtyRun, StoreExtends, BlockIndex;
      cache.Undisturbed();
      SameFile();
    }

    /** Whether the release of a handle commits a version: it is the last one, something is dirty and
        the request succeeds. */
    ghost predicate WillCommit(clock: nat -> int, ok: nat -> bool)
      reads this, cache, cache.backend
      requires |cache.stats| == |cache.blocks|
    {
      && refCount == 1 && cache.Pending() != []
      && ModifyStep(cache.backend.w, cache.backend.State(), cache.dc, cache.Pending(), cache.inodeName, cache.key,
                    clock, ok).ret == NO_ERR
    }

    /** The last release flushes the cache; the outcome of that flush is not reported. The cache stays
        coherent, and a release that commits nothing leaves the file as it was. */
    method Unref(clock: nat -> int, ok: nat -> bool) returns (count: nat)
      requires Valid() && refCount > 0
      requires cache.backend.w.bs > 0 && |cache.key| == AES_KEY_LEN && Parses(cache.backend.State(), cache.dc)
      modifies this`refCount, cache`stats, cache`blocks, cache.backend
      ensures count == refCount == old(refCount) - 1
      ensures var st, descs := old(cache.backend.State()), old(cache.Pending());
              cache.backend.State() == if count > 0 || descs == [] then st
                else ModifyStep(cache.backend.w, st, cache.dc, descs, cache.inodeName, cache.key, clock, ok).st
      ensures old(cache.Flushable(clock)) ==>
                && Inv(cache.backend.w, cache.backend.State())
                && StoreExtends(old(cache.backend.State()), cache.backend.State())
      ensures old(cache.Flushable(clock) && cache.MapStored()) ==> cache.Valid() && cache.MapStored()
      ensures old(cache.Flushable(clock) && cache.MapStored() && cache.Complete() && !WillCommit(clock, ok)) ==>
                Valid() && cache.Complete() && File() == old(File())
    {
      hide ModifyStep, RecordCache.Complete, RecordCache.MapStored, StoreExtends, Inv, Parses, BlockIndex, DirtyRun,
           DirtyDescs, Fetched, LoadedMap, LegalModify;
      refCount := refCount - 1;
      if refCount == 0 {
        var ret := cache.FlushCache(clock, ok);
        if old(cache.Flushable(clock) && cache.MapStored() && cache.Complete() && !WillCommit(clock, ok)) {
          if ret == NO_ERR {
            cache.NothingSent();
          }
          SameFile();
        }
      } else {
        ExtendsRefl(cache.backend.State());
        SameFile();
      }
      count := refCount;
    }
  }

  /** Two views of which one extends the other have the same first `size` bytes. */
  lemma ViewsAgree(bs: nat, u: seq<seq<byte>>, v: seq<seq<byte>>, size: nat)
    requires Uniform(bs, u) && Uniform(bs, v) && |u| <= |v| && v[..|u|] == u && size <= |Flat(bs, u)|
    ensures size <= |Flat(bs, v)| && Flat(bs, v)[..size] == Flat(bs, u)[..size]
  {
    hide Start;
    FlatPrefix(bs, v, |u|);
    assert Flat(bs, v)[..Start(bs, |u|)][..size] == Flat(bs, v)[..size];
  }

  lemma JoinSlices(c: seq<byte>, i: nat, j: nat, k: nat)
    requires i <= j <= k <= |c|
    ensures c[i..j] + c[j..k] == c[i..k]
  {
  }

  lemma CutBehind(c: seq<byte>, len: nat, offset: nat, n: nat, k: nat)
    requires offset + n <= len <= |c| && n <= k && offset + k <= |c|
    ensures c[offset..offset + k][..n] == c[..len][offset..offset + n]
  {
  }

  /** The splice that the cache performs, seen through the size of the file. */
  lemma SpliceIsCodedWrite(bs: nat, c: seq<byte>, len: nat, mem: seq<byte>, offset: nat, size: nat)
    requires bs > 0 && 0 < size < |mem| && len <= |c|
    requires var at := Clamp(offset, len); at + size + Overshoot(bs, at, size) <= |c|
    ensures var at := Clamp(offset, len);
            var k, len' := size + Overshoot(bs, at, size), if at + size > len then at + size else len;
            Splice(c, at, mem[..k])[..len'] == CodedWrite(bs, c[..len], mem, offset, size)
  {
  }

  lemma SpliceNext(c: seq<byte>, at: nat, mem: seq<byte>, i: nat, j: nat)
    requires i <= j <= |mem| && at + j <= |c|
    ensures Splice(Splice(c, at, mem[..i]), at + i, mem[i..j]) == Splice(c, at, mem[..j])
  {
    SpliceAdjacent(c, at, mem[..i], mem[i..j]);
    assert mem[..i] + mem[i..j] == mem[..j];
  }
}

/** A file from its creation on: what is read back after it was closed, after it was closed again, and
    when its block map cannot be loaded. */
module Lifecycles {
  import opened Bytes
  import opened BlockLayout
  import opened BlockmapCodec
  import opened Ciphers
  import opened Capsules
  import opened Commits
  import opened Histories
  import opened FlatFile
  import opened Middleware
  import opened BlockCache
  import opened Reloads
  import opened Sessions

  // ---- a map that cannot be loaded ----

  lemma {:induction false} FlatZeros(bs: nat, v: seq<seq<byte>>)
    requires Uniform(bs, v) && forall i :: 0 <= i < |v| ==> v[i] == Zeros(bs)
    ensures Flat(bs, v) == Zeros(Start(bs, |v|))
    decreases |v|
  {
    hide Start;
    if v == [] {
    } else {
      FlatZeros(bs, v[..|v| - 1]);
      StartNext(bs, |v| - 1);
    }
  }

  /** A handle whose map cannot be loaded has nothing but zeros behind its cache. */
  lemma UnloadedShowsZeros(c: RecordCache)
    requires c.Valid() && !c.MapStored()
    ensures c.Map().Some? && forall i: nat :: c.Behind(i) == Some(Zeros(c.bs))
  {
    forall i: nat
      ensures c.Behind(i) == Some(Zeros(c.bs))
    {
      EntryOfZeros(c.cover, i);
    }
  }

  lemma ZeroFile(ino: Inode)
    requires ino.Valid() && forall i: nat :: ino.cache.Logical(i) == Zeros(ino.cache.bs)
    ensures ino.File() == Zeros(ino.size)
  {
    hide Fetched, LoadedMap, BlockIndex, Start, Flat, DirtyRun;
    var c := ino.cache;
    c.Covers(ino.size, |c.stats|);
    FlatZeros(c.bs, c.View(|c.stats|));
  }

  /** The failing input of reading a version back. On a handle whose map cannot be loaded the first
      read fails, and every read after it succeeds and returns zeros. */
  method ReadTwice(ino: Inode, offset: nat, size: nat) returns (first: int, second: int, n: nat, out: seq<byte>)
    requires ino.Valid() && size > 0 && offset < ino.size
    requires ino.cache.bm.None? && !ino.cache.MapStored() && forall i: nat :: !ino.cache.Cached(i)
    modifies ino.cache`stats, ino.cache`blocks, ino.cache`bm
    ensures first < 0 && second == NO_ERR
    ensures 0 < n <= |out| && out[..n] == Zeros(n)
  {
    hide Fetched, LoadedMap, BlockIndex, Start, Flat, DirtyRun, Inode.File, Overshoot;
    UnloadedShowsZeros(ino.cache);
    first, n, out := ino.Read(offset, size);
    UnloadedShowsZeros(ino.cache);
    ZeroFile(ino);
    second, n, out := ino.Read(offset, size);
    ZeroFile(ino);
    ZerosRead(ino.size, offset, size);
  }

  lemma ZerosRead(len: nat, offset: nat, size: nat)
    requires offset < len && size > 0
    ensures var r := FlatRead(Zeros(len), offset, size); |r| > 0 && r == Zeros(|r|)
  {
  }

  // ---- from creation to the first reopening ----

  /** The request that stores the blocks of a new file. */
  ghost function BlockDescs(w: World, key: seq<byte>, bs: nat, vs: seq<seq<byte>>): (descs: seq<Desc>)
    ensures |descs| == |vs|
  {
    seq(|vs|, j requires 0 <= j < |vs| => Desc(w.cipher.enc(key, vs[j]), j * bs))
  }

  /** The blocks `vs` hold a new file with contents `c`, whatever lies behind its end in the last one. */
  ghost predicate Holds(bs: nat, c: seq<byte>, vs: seq<seq<byte>>)
    requires bs > 0
  {
    Uniform(bs, vs) && |vs| == BlockIndex(bs, |c|) + 1 && c <= Flat(bs, vs)
  }

  /** The request for a new file with contents `c` does not collide. */
  ghost predicate Storable(w: World, st: Store, dc: Name, key: seq<byte>, bs: nat, c: seq<byte>, clock: nat -> int)
    requires bs > 0
  {
    forall vs :: Holds(bs, c, vs) ==> LegalModify(w, st, dc, BlockDescs(w, key, bs, vs), key, clock)
  }

  lemma WrittenIsClosable(ino: Inode, clock: nat -> int)
    requires NewFile(ino) && Fine(ino.cache.backend.w) && Inv(ino.cache.backend.w, ino.cache.backend.State())
    requires Storable(ino.cache.backend.w, ino.cache.backend.State(), ino.cache.dc, ino.cache.key, ino.cache.bs,
                      ino.File(), clock)
    ensures ino.cache.Flushable(clock)
  {
    hide Fetched, LoadedMap, BlockIndex, Start, Flat, DirtyRun, LegalModify, Inv, DirtyDescs, Inode.File;
    var c, vs := ino.cache, ino.cache.View(Blocks(ino));
    NewFileFlush(ino);
    FileInBlocks(ino);
    assert Holds(c.bs, ino.File(), vs);
    assert c.Pending() == BlockDescs(c.backend.w, c.key, c.bs, vs);
  }

  /** A file is created, written and read in any way, closed and opened again: if its blocks are within
      the cover and no name starts with a zero byte, it starts with exactly the bytes that the coded
      operations leave, and with those that the flat ones do if none of them spills. */
  method WriteCloseReopen(be: Backend, dc: Name, key: seq<byte>, bs: nat, cover: nat, ops: seq<FileOp>,
                          clock: nat -> int, ok: nat -> bool) returns (committed: bool, again: Inode?)
    requires Fine(be.w) && be.w.bs == bs && Inv(be.w, be.State()) && |key| == AES_KEY_LEN
    requires Latest(be.State(), dc) == [] && forall i :: 0 <= i < |ops| ==> Proper(ops[i])
    requires var c := CodedRun(bs, [], ops, |ops|);
             && c != [] && (BlockIndex(bs, |c|) + 1) * bs < Pow256(SIZE_LEN)
             && Storable(be.w, be.State(), dc, key, bs, c, clock)
    modifies be
    ensures var k := BlockIndex(bs, |CodedRun(bs, [], ops, |ops|)|) + 1;
            && (committed <==> dc in old(be.capsules) && forall i :: 0 <= i < k + 2 ==> ok(i))
            && (committed ==>
                  && again != null && fresh(again) && again.Valid() && again.cache.key == key && again.size == k * bs
                  && var cap, v := CapsuleOf(be.State(), dc), Latest(be.State(), dc);
                     && Readable(cap, v) && |Entries(cap, v)| == k
                     && (k <= cover && (forall i :: 0 <= i < k ==> Passes(Entries(cap, v)[i])) ==>
                           && Usable(again)
                           && CodedRun(bs, [], ops, |ops|) <= again.File()
                           && (NoSpill(bs, [], ops) ==> FlatRun([], ops, |ops|) <= again.File())))
  {
    hide RecordCache.Valid, RecordCache.Complete, RecordCache.MapStored, RecordCache.Content, CodedRun, Storable,
         BlockIndex, Readable, Inv, Sound, Pow256, Proper, NoSpill, FlatRun, ReadsRight, RecordCache.Flushable, Passes,
         DirtyRun;
    var ino := new Inode(be, dc, [], [], key, bs, cover, 0);
    NewFileComplete(ino.cache);
    assert ino.File() == [];
    ino.Ref();
    var _ := RunOps(ino, ops);
    WrittenIsClosable(ino, clock);
    if NoSpill(bs, [], ops) {
      SameAsFlat(bs, ops);
    }
    committed, again := CloseAndReopen(ino, clock, ok, {});
  }

  lemma SameAsFlat(bs: nat, ops: seq<FileOp>)
    requires bs > 0 && (forall i :: 0 <= i < |ops| ==> Proper(ops[i])) && NoSpill(bs, [], ops)
    ensures CodedRun(bs, [], ops, |ops|) == FlatRun([], ops, |ops|)
  {
    hide NoSpill;
    NoSpillAgrees(bs, [], ops, ops, |ops|);
  }

  // ---- later sessions ----

  /** A handle on the latest version of `dc` in `st'` shows the blocks that one in `st` showed, as far
      as their map reaches, and behind them the blocks `vs`. */
  ghost predicate ShowsOldThenNew(w: World, st: Store, st': Store, dc: Name, key: seq<byte>, cover: nat,
                                  vs: seq<seq<byte>>)
  {
    var cap, v := CapsuleOf(st, dc), Latest(st, dc);
    var cap', v' := CapsuleOf(st', dc), Latest(st', dc);
    && Readable(cap, v) && Readable(cap', v') && |Entries(cap', v')| == |Entries(cap, v)| + |vs|
    && forall i: nat ::
         ShownBlock(w, st', dc, v', key, cover, w.bs, i)
           == if i < |Entries(cap, v)| then ShownBlock(w, st, dc, v, key, cover, w.bs, i)
              else Some(if i < |Entries(cap', v')| && Passes(Entries(cap', v')[i]) then vs[i - |Entries(cap, v)|]
                        else Zeros(w.bs))
  }

  lemma KeptBlock(w: World, a: Capsule, b: Capsule, v: Name, v': Name, key: seq<byte>, i: nat)
    requires Readable(a, v) && Readable(b, v') && Extends(a, b)
    requires Entries(a, v) <= Entries(b, v') && i < |Entries(a, v)|
    ensures NamedBlock(w, b, v', key, w.bs, i) == NamedBlock(w, a, v, key, w.bs, i)
  {
    assert Entries(a, v)[i] == Entries(b, v')[i];
  }

  /** The blocks of the version that a commit on a tracked file publishes. */
  lemma CommitBlocks(w: World, st: Store, op: Op, h: History, vs: seq<seq<byte>>)
    requires Fine(w) && Inv(w, st) && op.Modify? && op.descs != [] && Legal(w, st, op)
    requires Installs(w, st, op, op.dc) && Tracks(w, st, op.dc, h) && h.versions != [] && FixedKey(w, h.key)
    requires |op.descs| * w.bs < Pow256(SIZE_LEN)
    requires |vs| == |op.descs| && Uniform(w.bs, vs)
    requires forall j :: 0 <= j < |vs| ==> op.descs[j].data == w.cipher.enc(h.key, vs[j])
    ensures var st' := Step(w, st, op).st;
            var cap, v := CapsuleOf(st, op.dc), Latest(st, op.dc);
            var cap', v' := CapsuleOf(st', op.dc), Latest(st', op.dc);
            && Has(cap, Inode, v) && Has(cap', Inode, v') && Readable(cap, v) && Readable(cap', v')
            && RecordedSize(cap', v') == |vs| * w.bs && IssuedKey(w, cap', v') == h.key
            && |Entries(cap', v')| == |Entries(cap, v)| + |vs|
            && forall i: nat ::
                 NamedBlock(w, cap', v', h.key, w.bs, i)
                   == if i < |Entries(cap, v)| then NamedBlock(w, cap, v, h.key, w.bs, i)
                      else Some(if i < |Entries(cap', v')| && Passes(Entries(cap', v')[i])
                                then vs[i - |Entries(cap, v)|] else Zeros(w.bs))
  {
    hide Inv, ModifyStep, DataRecords, NoCollision, Batch, BaseOf, RecordedSize, IssuedKey, Pow256, LittleEndian,
         Rounds, NamedBlock, Readable, FixedKey, HoldsKeys, MapIsLog, Entries, Passes, Chained;
    var dc, st' := op.dc, Step(w, st, op).st;
    ModifyPublishes(w, st, dc, op.descs, op.inodeHash, op.aesKey, op.clock, op.ok);
    BaseTracked(w, st, dc, h, op.aesKey);
    LatestStored(w, st, dc, h);
    var cap, v := CapsuleOf(st, dc), Latest(st, dc);
    var cap', v' := CapsuleOf(st', dc), Latest(st', dc);
    var b := BaseOf(st, dc, op.aesKey).value;
    FirstRound(w, h.key);
    FixedPoint(w, h.key, |h.versions|);
    MapParts(cap, v);
    MapParts(cap', v');
    SizeField(w, cap', v', |vs| * w.bs, b.key);
    forall i: nat
      ensures NamedBlock(w, cap', v', h.key, w.bs, i)
           == if i < |Entries(cap, v)| then NamedBlock(w, cap, v, h.key, w.bs, i)
              else Some(if i < |Entries(cap', v')| && Passes(Entries(cap', v')[i])
                        then vs[i - |Entries(cap, v)|] else Zeros(w.bs))
    {
      if i < |Entries(cap, v)| {
        KeptBlock(w, cap, cap', v, v', h.key, i);
      } else if i < |Entries(cap', v')| {
        var j := i - |Entries(cap, v)|;
        PushedBlock(w, dc, b, op.descs, op.clock, cap', v', h.key, j, vs[j]);
      } else {
        BehindMap(w, cap', v', h.key, i);
      }
    }
  }

  lemma BehindMap(w: World, cap: Capsule, v: Name, key: seq<byte>, i: nat)
    requires Readable(cap, v) && i >= |Entries(cap, v)|
    ensures NamedBlock(w, cap, v, key, w.bs, i) == Some(Zeros(w.bs))
  {
  }

  /** The latest version of a tracked file is stored and its map is the log of its blocks. */
  lemma LatestStored(w: World, st: Store, dc: Name, h: History)
    requires Tracks(w, st, dc, h) && h.versions != []
    ensures var cap, v := CapsuleOf(st, dc), Latest(st, dc);
            Has(cap, Inode, v) && Readable(cap, v) && Entries(cap, v) == h.blocks
  {
    hide HoldsKeys, Readable, Entries;
  }

  /** What a file shows after a second or later commit, as the code has it, even with a key that is
      stable: the old blocks first and the flushed ones behind them, cut to the size of the flush. So a
      session that flushes no more blocks than the map had before shows none of its writes. */
  lemma LaterCommitShows(w: World, ops: seq<Op>, n: nat, dc: Name, cover: nat, vs: seq<seq<byte>>)
    requires LegalRun(w, ops) && n < |ops| && Installs(w, At(w, ops, n), ops[n], dc) && ops[n].Modify?
    requires var h := HistoryOf(w, ops, n, dc);
             && h.versions != [] && FixedKey(w, h.key) && |h.blocks| + |ops[n].descs| <= cover
             && (forall j :: 0 <= j < |vs| && j < |ops[n].descs| ==> ops[n].descs[j].data == w.cipher.enc(h.key, vs[j]))
    requires |vs| == |ops[n].descs| && Uniform(w.bs, vs) && |vs| * w.bs < Pow256(SIZE_LEN)
    ensures var h, st, st' := HistoryOf(w, ops, n, dc), At(w, ops, n), At(w, ops, n + 1);
            var cap', v' := CapsuleOf(st', dc), Latest(st', dc);
            && ShowsOldThenNew(w, st, st', dc, h.key, cover, vs)
            && RecordedSize(cap', v') == |vs| * w.bs && IssuedKey(w, cap', v') == h.key
            && (|vs| <= |h.blocks| ==> forall i :: 0 <= i < |vs| ==>
                  ShownBlock(w, st', dc, v', h.key, cover, w.bs, i)
                    == ShownBlock(w, st, dc, Latest(st, dc), h.key, cover, w.bs, i))
  {
    hide Tracks, Legal, Step, At, HistoryOf, Inv, RecordedSize, IssuedKey, Pow256, Readable, Entries, BaseOf, FixedKey,
         ShownBlock, NamedBlock, InodeShape, Installs;
    var h, st, st' := HistoryOf(w, ops, n, dc), At(w, ops, n), At(w, ops, n + 1);
    RunFacts(w, ops);
    HistoryTracked(w, ops, n, dc);
    StoreInvariant(w, ops, n);
    StoreInvariant(w, ops, n + 1);
    AtNext(w, ops, n);
    LegalAt(w, ops, n);
    InstallsOwn(w, st, ops[n], dc);
    CommitBlocks(w, st, ops[n], h, vs);
    LatestStored(w, st, dc, h);
    MapParts(CapsuleOf(st, dc), Latest(st, dc));
    MapParts(CapsuleOf(st', dc), Latest(st', dc));
    ShownExact(w, st, dc, Latest(st, dc), h.key, cover, w.bs);
    ShownExact(w, st', dc, Latest(st', dc), h.key, cover, w.bs);
  }

  lemma InstallsOwn(w: World, st: Store, op: Op, dc: Name)
    requires (op.Modify? ==> op.descs != []) && Installs(w, st, op, dc)
    ensures op.Modify? && op.dc == dc
  {
    hide Step;
  }
}

/** From the first write to the reopened file: the cache, the flush, the commit and the load together. */
module Sessions {
  import opened Bytes
  import opened BlockLayout
  import opened BlockmapCodec
  import opened MapSessions
  import opened Ciphers
  import opened Capsules
  import opened Commits
  import opened FlatFile
  import opened Middleware
  import opened BlockCache
  import opened Reloads

  // ---- what a flush sends ----

  function DirtySlots(stats: seq<Stat>, n: nat): (r: seq<nat>)
    requires n <= |stats|
  {
    if n == 0 then [] else DirtySlots(stats, n - 1) + (if stats[n - 1].dirty then [n - 1] else [])
  }

  /** The blocks of a flush: the dirty ones, each once, in increasing order, at their own offsets. */
  lemma {:induction false} FlushOrder(w: World, key: seq<byte>, bs: nat, stats: seq<Stat>, blocks: seq<seq<byte>>,
                                      n: nat)
    requires bs > 0 && n <= |stats| == |blocks|
    ensures var slots, descs := DirtySlots(stats, n), DirtyDescs(w, key, bs, stats, blocks, n);
            && |slots| == |descs| && Ascending(slots)
            && (forall j :: 0 <= j < |slots| ==>
                  slots[j] < n && stats[slots[j]].dirty &&
                  descs[j] == Desc(w.cipher.enc(key, blocks[slots[j]]), slots[j] * bs))
            && (forall i :: 0 <= i < n && stats[i].dirty ==> i in slots)
  {
    if n == 0 {
    } else {
      FlushOrder(w, key, bs, stats, blocks, n - 1);
    }
  }

  /** No holes. The write-offset clamp leaves the dirty blocks at or beyond the file-backed ones in one
      run that starts where those end, so a flush never skips a block there. */
  lemma {:induction false} FlushHasNoHole(bs: nat, base: nat, size: nat, stats: seq<Stat>, n: nat)
    requires bs > 0 && n <= |stats| && DirtyRun(bs, base, size, stats)
    ensures NoHole(BlockIndex(bs, base), DirtySlots(stats, n))
    ensures n > 0 && stats[n - 1].dirty ==>
              DirtySlots(stats, n) != [] && DirtySlots(stats, n)[|DirtySlots(stats, n)| - 1] == n - 1
    decreases n
  {
    hide DirtyRun, NoHole, BlockIndex;
    if n == 0 {
      NoHoleStarts(BlockIndex(bs, base));
    } else {
      FlushHasNoHole(bs, base, size, stats, n - 1);
      if stats[n - 1].dirty {
        if n - 1 > BlockIndex(bs, base) {
          PredecessorDirty(bs, base, size, stats, n - 1);
        }
        NoHoleGrows(BlockIndex(bs, base), DirtySlots(stats, n - 1), n - 1);
      } else {
        assert DirtySlots(stats, n) == DirtySlots(stats, n - 1);
      }
    }
  }

  lemma NoHoleStarts(first: nat)
    ensures NoHole(first, [])
  {
  }

  lemma NoHoleGrows(first: nat, slots: seq<nat>, slot: nat)
    requires NoHole(first, slots) && (slot > first ==> slots != [] && slots[|slots| - 1] == slot - 1)
    ensures NoHole(first, slots + [slot])
  {
    var s := slots + [slot];
    forall j | 0 <= j < |s| && s[j] >= first
      ensures s[j] == first || FollowsNeighbour(s, j)
    {
      assert j < |slots| ==> s[j] == slots[j] && (FollowsNeighbour(slots, j) ==> FollowsNeighbour(s, j));
    }
  }

  lemma PredecessorDirty(bs: nat, base: nat, size: nat, stats: seq<Stat>, i: nat)
    requires bs > 0 && i < |stats| && DirtyRun(bs, base, size, stats)
    requires stats[i].dirty && i > BlockIndex(bs, base)
    ensures stats[i - 1].dirty
  {
    hide BlockIndex;
    assert i <= BlockIndex(bs, size);
    if size <= base {
      IndexMonotone(bs, size, base);
    }
  }

  /** Across the modules: whatever was written to a file whose stored version has the block map `m`,
      the flush carries blocks for which the middleware's update loop, run with the stored size, is
      the indexed map update, and the end of the furthest block is the size of the updated map. */
  lemma FlushUpdatesMap(w: World, key: seq<byte>, bs: nat, m: seq<Hash>, size: nat, stats: seq<Stat>,
                        blocks: seq<seq<byte>>, news: seq<NewBlock>)
    requires bs > 0 && |stats| == |blocks| && DirtyRun(bs, Start(bs, |m|), size, stats)
    requires Carries(DirtyDescs(w, key, bs, stats, blocks, |stats|), news)
    ensures Slots(bs, news) == DirtySlots(stats, |stats|) && Orderly(bs, |m|, news)
    ensures var r := ApplyBlocks(bs, Start(bs, |m|), m, news);
            IndexedUpdate(m, Slots(bs, news), Names(news), r) && SizeAfter(bs, Start(bs, |m|), news) == Start(bs, |r|)
  {
    hide DirtyRun, ApplyBlocks, IndexedUpdate, NoHole, Ascending, BlockIndex, Start, DirtyDescs, DirtySlots, Slots,
         SizeAfter;
    FlushHasNoHole(bs, Start(bs, |m|), size, stats, |stats|);
    WholeBlocks(bs, |m|);
    FlushOrder(w, key, bs, stats, blocks, |stats|);
    OffsetsToSlots(bs, news, DirtySlots(stats, |stats|));
    SizeFollowsMap(bs, m, news);
  }

  /** The pushed blocks lie where the blocks of the request do. */
  ghost predicate Carries(descs: seq<Desc>, news: seq<NewBlock>) {
    |news| == |descs| && forall j :: 0 <= j < |news| ==> news[j].offset == descs[j].offset
  }

  /** One session of a client: the key and the cache it flushed, and the size the file then had. */
  datatype Session = Session(key: seq<byte>, stats: seq<Stat>, blocks: seq<seq<byte>>, size: nat)

  /** The session was opened with the size `base` and pushed the blocks `news`. */
  ghost predicate Flushed(w: World, bs: nat, base: nat, s: Session, news: seq<NewBlock>)
    requires bs > 0
  {
    && |s.stats| == |s.blocks| && DirtyRun(bs, base, s.size, s.stats)
    && Carries(DirtyDescs(w, s.key, bs, s.stats, s.blocks, |s.stats|), news)
  }

  /** Any number of sessions on one file, each opened with the size the one before it stored, whatever
      was written in them: with the stored size loaded, entry `i` of the map is always the name from
      the last session in which block `i` was dirty. */
  lemma {:induction false} MapOverFlushes(w: World, bs: nat, sessions: seq<Session>, pushed: seq<seq<NewBlock>>, n: nat)
    requires bs > 0 && n <= |sessions| == |pushed|
    requires forall k :: 0 <= k < n ==> Flushed(w, bs, VersionAfter(bs, pushed, k).size, sessions[k], pushed[k])
    ensures AllOrderly(bs, pushed, n)
    ensures forall k :: 0 <= k < n ==> Slots(bs, pushed[k]) == DirtySlots(sessions[k].stats, |sessions[k].stats|)
    ensures var v := VersionAfter(bs, pushed, n);
            && v.size == Start(bs, |v.entries|)
            && forall i: nat :: LastPushed(bs, pushed, n, i) == if i < |v.entries| then Some(v.entries[i]) else None
  {
    hide VersionAfter, Slots, DirtySlots, DirtyRun, Carries, DirtyDescs, Orderly, LastPushed, Start;
    if n == 0 {
    } else {
      MapOverFlushes(w, bs, sessions, pushed, n - 1);
      var s, v := sessions[n - 1], VersionAfter(bs, pushed, n - 1);
      FlushUpdatesMap(w, s.key, bs, v.entries, s.size, s.stats, s.blocks, pushed[n - 1]);
    }
    MapOverSessions(bs, pushed, n);
  }

  lemma OffsetsToSlots(bs: nat, news: seq<NewBlock>, slots: seq<nat>)
    requires bs > 0 && |news| == |slots| && forall j :: 0 <= j < |news| ==> news[j].offset == slots[j] * bs
    ensures Slots(bs, news) == slots && forall j :: 0 <= j < |news| ==> news[j].offset == Start(bs, slots[j])
  {
    hide BlockIndex, Start;
    forall j | 0 <= j < |news|
      ensures Slots(bs, news)[j] == slots[j] && news[j].offset == Start(bs, slots[j])
    {
      StartIs(bs, slots[j]);
      WholeBlocks(bs, slots[j]);
    }
  }

  lemma StartIs(bs: nat, b: nat)
    ensures Start(bs, b) == b * bs
  {
  }

  lemma WholeBlocks(bs: nat, n: nat)
    requires bs > 0
    ensures BlockIndex(bs, Start(bs, n)) == n
  {
    hide Start, BlockIndex;
    StartNext(bs, n);
    BelowEnd(bs, Start(bs, n), n);
    BelowEnd(bs, Start(bs, n), n + 1);
  }

  /** The first flush of a new file sends its blocks 0, 1, ... up to the one that holds the end. */
  lemma {:induction false} FirstFlush(w: World, key: seq<byte>, bs: nat, stats: seq<Stat>, blocks: seq<seq<byte>>,
                                      k: nat, n: nat)
    requires n <= |stats| == |blocks| && k <= |stats|
    requires forall i :: 0 <= i < |stats| ==> stats[i].dirty == (i < k)
    ensures var descs := DirtyDescs(w, key, bs, stats, blocks, n);
            && |descs| == (if n < k then n else k)
            && forall j :: 0 <= j < |descs| ==> descs[j] == Desc(w.cipher.enc(key, blocks[j]), j * bs)
  {
    if n == 0 {
    } else {
      FirstFlush(w, key, bs, stats, blocks, k, n - 1);
    }
  }

  // ---- what comes back ----

  /** The latest version of a file holds the blocks `vs`, their size and the key `key`. */
  ghost predicate Recorded(w: World, st: Store, dc: Name, key: seq<byte>, bs: nat, vs: seq<seq<byte>>) {
    var cap, v := CapsuleOf(st, dc), Latest(st, dc);
    && Has(cap, Inode, v) && Readable(cap, v) && |Entries(cap, v)| == |vs|
    && RecordedSize(cap, v) == |vs| * bs && IssuedKey(w, cap, v) == key
    && forall i :: 0 <= i < |vs| && Passes(Entries(cap, v)[i]) ==> NamedBlock(w, cap, v, key, bs, i) == Some(vs[i])
  }

  /** The first commit of a file records its blocks, size and key. A handle opened on it can load the
      map exactly when it is within the cover, and shows the blocks with passing names then. */
  lemma FirstCommitComesBack(w: World, st: Store, dc: Name, descs: seq<Desc>, key: seq<byte>, clock: nat -> int,
                             ok: nat -> bool, cover: nat, vs: seq<seq<byte>>)
    requires Fine(w) && Inv(w, st) && LegalModify(w, st, dc, descs, key, clock) && Latest(st, dc) == []
    requires |vs| == |descs| && Uniform(w.bs, vs) && |vs| * w.bs < Pow256(SIZE_LEN)
    requires forall j :: 0 <= j < |vs| ==> descs[j].data == w.cipher.enc(key, vs[j])
    requires ModifyStep(w, st, dc, descs, [], key, clock, ok).ret == NO_ERR
    ensures var st' := ModifyStep(w, st, dc, descs, [], key, clock, ok).st;
            && Recorded(w, st', dc, key, w.bs, vs)
            && var cap, v := CapsuleOf(st', dc), Latest(st', dc);
               && (ReadData(st', dc, cap[v].prev[1], cover * HASHLEN).Some? <==> |descs| <= cover)
               && forall i :: 0 <= i < |vs| ==>
                    ShownBlock(w, st', dc, v, key, cover, w.bs, i)
                      == Some(if |descs| <= cover && Passes(Entries(cap, v)[i]) then vs[i] else Zeros(w.bs))
  {
    hide Inv, ModifyStep, Publishes, DataRecords, NoCollision, Batch, Fetched, LoadedMap, ReadData;
    var st' := ModifyStep(w, st, dc, descs, [], key, clock, ok).st;
    ModifyPublishes(w, st, dc, descs, [], key, clock, ok);
    ModifyKeepsInv(w, st, dc, descs, [], key, clock, ok);
    PublishedRecorded(w, st, st', dc, descs, key, clock, vs);
    MapLoadsExact(w, st', dc, Latest(st', dc), cover);
    ShownExact(w, st', dc, Latest(st', dc), key, cover, w.bs);
  }

  lemma PublishedRecorded(w: World, st: Store, st': Store, dc: Name, descs: seq<Desc>, key: seq<byte>,
                          clock: nat -> int, vs: seq<seq<byte>>)
    requires Fine(w) && descs != [] && dc in st.capsules && dc in st'.capsules
    requires |vs| == |descs| && Uniform(w.bs, vs) && |vs| * w.bs < Pow256(SIZE_LEN)
    requires forall j :: 0 <= j < |vs| ==> descs[j].data == w.cipher.enc(key, vs[j])
    requires var base := Base([], [], [], key);
             Publishes(w, dc, st.capsules[dc], [], base, descs, clock, st'.capsules[dc], Latest(st', dc))
    ensures Recorded(w, st', dc, key, w.bs, vs)
  {
    hide DataRecords, LittleEndian, FromLittleEndian, RecordedSize, IssuedKey;
    var cap, v := st'.capsules[dc], Latest(st', dc);
    SizeField(w, cap, v, |vs| * w.bs, key);
    forall i | 0 <= i < |vs| && Passes(Entries(cap, v)[i])
      ensures NamedBlock(w, cap, v, key, w.bs, i) == Some(vs[i])
    {
      PushedBlock(w, dc, Base([], [], [], key), descs, clock, cap, v, key, i, vs[i]);
    }
  }

  /** A block that a commit pushed is the block that was encrypted, if its name passes. */
  lemma PushedBlock(w: World, dc: Name, b: Base, descs: seq<Desc>, clock: nat -> int, cap: Capsule, v: Name,
                    key: seq<byte>, j: nat, block: seq<byte>)
    requires Fine(w) && j < |descs| && descs[j].data == w.cipher.enc(key, block) && |block| == w.bs
    requires var data := DataRecords(w, Or(b.data, dc), descs, clock);
             && Readable(cap, v) && Entries(cap, v) == b.entries + NamesOf(w, data)
             && w.nameOf(data[j]) in cap && cap[w.nameOf(data[j])] == data[j]
    ensures var i := |b.entries| + j;
            i < |Entries(cap, v)| &&
            NamedBlock(w, cap, v, key, w.bs, i) == Some(if Passes(Entries(cap, v)[i]) then block else Zeros(w.bs))
  {
    hide DataRecords;
    DataRecordAt(w, Or(b.data, dc), descs, clock, j);
  }

  // ---- the code, end to end ----

  method Apply(ino: Inode, op: FileOp) returns (out: seq<byte>)
    requires ino.Valid() && ino.cache.Complete() && Proper(op)
    modifies ino`size, ino.cache`stats, ino.cache`blocks, ino.cache`bm
    ensures ino.Valid() && ino.cache.Complete()
    ensures ino.File() == CodedStep(ino.cache.bs, old(ino.File()), op)
    ensures op.Read? ==> out == FlatRead(old(ino.File()), op.offset, op.size)
  {
    hide Inode.Valid, RecordCache.Valid, RecordCache.Complete, RecordCache.Fetchable, Inode.File, BlockIndex,
         CodedWrite, FlatRead;
    match op {
      case Write(mem, offset, size) =>
        ghost var at := Clamp(offset, ino.size);
        ino.cache.CompleteFetchable(BlockIndex(ino.cache.bs, at), BlockIndex(ino.cache.bs, at + size));
        var _, _ := ino.Write(mem, offset, size);
        out := [];
      case Read(offset, size) =>
        var _, k, bytes := ino.Read(offset, size);
        out := bytes[..k];
    }
  }

  /** Read your writes, through the code: what a write was given is what a read of that place returns. */
  method WriteThenRead(ino: Inode, mem: seq<byte>, offset: nat, size: nat) returns (out: seq<byte>)
    requires ino.Valid() && ino.cache.Complete() && 0 < size < |mem|
    modifies ino`size, ino.cache`stats, ino.cache`blocks, ino.cache`bm
    ensures ino.Valid() && ino.cache.Complete() && out == mem[..size]
  {
    hide Inode.Valid, RecordCache.Valid, RecordCache.Complete, Inode.File, CodedWrite, FlatWrite, FlatRead;
    var at := if offset < ino.size then offset else ino.size;
    ReadBack(ino.cache.bs, ino.File(), mem, offset, size);
    var _ := Apply(ino, Write(mem, offset, size));
    out := Apply(ino, Read(at, size));
  }

  /** Every read among the operations done so far returned the bytes the file then held. */
  ghost predicate ReadsRight(bs: nat, c: seq<byte>, ops: seq<FileOp>, outs: seq<seq<byte>>)
    requires bs > 0 && forall i :: 0 <= i < |ops| ==> Proper(ops[i])
  {
    && |outs| <= |ops|
    && forall i :: 0 <= i < |outs| && ops[i].Read? ==>
         outs[i] == FlatRead(CodedRun(bs, c, ops, i), ops[i].offset, ops[i].size)
  }

  lemma OneMoreOp(bs: nat, c: seq<byte>, ops: seq<FileOp>, outs: seq<seq<byte>>, out: seq<byte>)
    requires bs > 0 && (forall i :: 0 <= i < |ops| ==> Proper(ops[i])) && |outs| < |ops| && ReadsRight(bs, c, ops, outs)
    requires var op := ops[|outs|]; op.Read? ==> out == FlatRead(CodedRun(bs, c, ops, |outs|), op.offset, op.size)
    ensures ReadsRight(bs, c, ops, outs + [out])
  {
    hide CodedRun, FlatRead;
  }

  /** Any sequence of reads and writes on an open file: the file is the one `FlatFile` describes for
      the code, and every read returned the bytes it then held. */
  method RunOps(ino: Inode, ops: seq<FileOp>) returns (outs: seq<seq<byte>>)
    requires ino.Valid() && ino.cache.Complete() && forall i :: 0 <= i < |ops| ==> Proper(ops[i])
    modifies ino`size, ino.cache`stats, ino.cache`blocks, ino.cache`bm
    ensures ino.Valid() && ino.cache.Complete()
    ensures ino.File() == CodedRun(ino.cache.bs, old(ino.File()), ops, |ops|)
    ensures |outs| == |ops| && ReadsRight(ino.cache.bs, old(ino.File()), ops, outs)
  {
    hide Inode.Valid, RecordCache.Valid, RecordCache.Complete, Inode.File, CodedStep, FlatRead, ReadsRight, Proper;
    ghost var bs, c := ino.cache.bs, ino.File();
    outs := [];
    StartOps(bs, c, ops);
    for i := 0 to |ops|
      invariant ino.Valid() && ino.cache.Complete() && |outs| == i
      invariant ino.File() == CodedRun(bs, c, ops, i) && ReadsRight(bs, c, ops, outs)
    {
      var out := Apply(ino, ops[i]);
      OneMoreOp(bs, c, ops, outs, out);
      RunUnfolds(bs, c, ops, i);
      outs := outs + [out];
    }
  }

  lemma StartOps(bs: nat, c: seq<byte>, ops: seq<FileOp>)
    requires bs > 0 && forall i :: 0 <= i < |ops| ==> Proper(ops[i])
    ensures CodedRun(bs, c, ops, 0) == c && ReadsRight(bs, c, ops, [])
  {
  }

  /** The metadata of the latest version. The code aborts on an inode record that is missing or has
      another shape, which is what happens to a file that was closed before its first commit. */
  method ReadFileMeta(be: Backend, dc: Name) returns (ret: int, v: Name, size: nat, key: seq<byte>, bm: Name)
    requires dc in be.index ==> var r := Lookup(be.State(), dc, be.index[dc]); r.Some? && InodeShape(r.value)
    ensures ret == if dc in be.index then NO_ERR else ERR_NOT_FOUND
    ensures ret == NO_ERR ==>
              var cap := CapsuleOf(be.State(), dc);
              && v == Latest(be.State(), dc) && v in cap && InodeShape(cap[v]) && bm == cap[v].prev[1]
              && size == RecordedSize(cap, v) && key == IssuedKey(be.w, cap, v)
  {
    ret, v := be.GetInodeName(dc);
    size, key, bm := 0, [], [];
    if ret < 0 {
      return;
    }
    var r := be.ReadRecord(dc, v);
    bm := r.value.prev[1];
    size := FromLittleEndian(r.value.payload[..SIZE_LEN]);
    key := be.w.cipher.dec(be.w.mwKey, r.value.payload[SIZE_LEN..]);
  }

  /** A handle for a new file with something written to it. */
  ghost predicate NewFile(ino: Inode)
    reads ino, ino.cache, ino.cache.backend
  {
    && ino.Valid() && ino.base == 0 && ino.size > 0
    && ino.cache.inodeName == [] && ino.cache.bmName == []
  }

  /** The blocks of a new file and the request its last close makes. */
  lemma NewFileFlush(ino: Inode)
    requires NewFile(ino)
    ensures var c, k := ino.cache, BlockIndex(ino.cache.bs, ino.size) + 1;
            var descs := c.Pending();
            && |descs| == k <= |c.stats|
            && forall j :: 0 <= j < k ==>
                 descs[j] == Desc(c.backend.w.cipher.enc(c.key, c.Logical(j)), j * c.bs)
  {
    var c, k := ino.cache, BlockIndex(ino.cache.bs, ino.size) + 1;
    assert BlockIndex(c.bs, 0) == 0;
    hide Fetched, LoadedMap, BlockIndex;
    assert forall i :: 0 <= i < |c.stats| ==> c.stats[i].dirty == (i < k);
    FirstFlush(c.backend.w, c.key, c.bs, c.stats, c.blocks, k, |c.stats|);
  }

  /** A handle on a new file shows zeros behind what was written to it. */
  lemma NewFileComplete(c: RecordCache)
    requires c.Valid() && c.bmName == []
    ensures c.Complete() && c.MapStored()
  {
  }

  /** What the close of a new file may rely on. */
  ghost predicate Closable(ino: Inode, clock: nat -> int)
    reads ino, ino.cache, ino.cache.backend
  {
    var c := ino.cache;
    && NewFile(ino) && c.Flushable(clock) && |c.key| == AES_KEY_LEN && ino.refCount > 0
    && c.backend.w.bs == c.bs && Latest(c.backend.State(), c.dc) == [] && Blocks(ino) * c.bs < Pow256(SIZE_LEN)
  }

  /** The number of blocks of a file: up to the one that holds its end. */
  ghost function Blocks(ino: Inode): (k: nat)
    reads ino, ino.cache, ino.cache.backend
    requires ino.Valid()
  {
    BlockIndex(ino.cache.bs, ino.size) + 1
  }

  /** The close of a new file commits it exactly when it is the last one, the file exists and every
      record write goes through; then its blocks are stored. Otherwise the file stays without a version,
      and the handle as it was, although after the last close the program drops it. */
  method Close(ino: Inode, clock: nat -> int, ok: nat -> bool) returns (committed: bool)
    requires Closable(ino, clock)
    modifies ino`refCount, ino.cache`stats, ino.cache`blocks, ino.cache.backend
    ensures var be := ino.cache.backend;
            Inv(be.w, be.State()) && StoreExtends(old(be.State()), be.State())
    ensures committed <==>
              && old(ino.refCount) == 1 && ino.cache.dc in old(ino.cache.backend.capsules)
              && forall i :: 0 <= i < old(Blocks(ino)) + 2 ==> ok(i)
    ensures !committed ==> Latest(ino.cache.backend.State(), ino.cache.dc) == []
    ensures !committed ==> Usable(ino) && ino.File() == old(ino.File())
    ensures committed ==>
              Recorded(ino.cache.backend.w, ino.cache.backend.State(), ino.cache.dc, ino.cache.key, ino.cache.bs,
                       old(ino.cache.View(Blocks(ino))))
  {
    hide ModifyStep, Inv, StoreExtends, Recorded, Fetched, LoadedMap, DirtyDescs, BlockIndex, NoCollision, Batch,
         BaseOf, Parses, Pow256, ReadData, ShownBlock;
    ghost var c := ino.cache;
    ghost var w, st, descs, vs := c.backend.w, c.backend.State(), c.Pending(), c.View(Blocks(ino));
    NewFileFlush(ino);
    NewFileComplete(c);
    BaseFound(w, st, c.dc, c.key);
    ModifyAtomic(w, st, c.dc, descs, [], c.key, clock, ok);
    if ino.WillCommit(clock, ok) {
      FirstCommitComesBack(w, st, c.dc, descs, c.key, clock, ok, c.cover, vs);
    }
    var _ := ino.Unref(clock, ok);
    var _, v := ino.cache.backend.GetInodeName(ino.cache.dc);
    committed := v != [];
  }

  /** Opening a stored file: a handle with the size, key and block map of its latest version. */
  method OpenStored(be: Backend, dc: Name, bs: nat, cover: nat) returns (ret: int, ino: Inode?)
    requires bs > 0
    requires dc in be.index ==> var r := Lookup(be.State(), dc, be.index[dc]); r.Some? && InodeShape(r.value)
    ensures ret == if dc in be.index then NO_ERR else ERR_NOT_FOUND
    ensures ret == NO_ERR ==>
              var cap, v := CapsuleOf(be.State(), dc), Latest(be.State(), dc);
              && ino != null && fresh(ino) && fresh(ino.cache) && v in cap && InodeShape(cap[v])
              && ino.Valid() && ino.size == ino.base == RecordedSize(cap, v) && ino.refCount == 0
              && ino.cache.backend == be && ino.cache.dc == dc
              && ino.cache.inodeName == v && ino.cache.bmName == cap[v].prev[1]
              && ino.cache.key == IssuedKey(be.w, cap, v) && ino.cache.bs == bs && ino.cache.cover == cover
              && ino.cache.bm == None && forall i: nat :: !ino.cache.Cached(i)
    ensures ret != NO_ERR ==> ino == null
  {
    hide RecordedSize, IssuedKey;
    var v, size, key, bm;
    ret, v, size, key, bm := ReadFileMeta(be, dc);
    if ret < 0 {
      return ret, null;
    }
    ino := new Inode(be, dc, v, bm, key, bs, cover, size);
  }

  /** What a handle on a stored version shows in its clean blocks, at any time. The map can be loaded
      exactly if it is within the cover. If it is, they are the version's blocks; if not, they are
      zeros, which the handle shows as soon as its first, failed fill is behind it. */
  lemma CleanBlocksShow(c: RecordCache, cap: Capsule, v: Name)
    requires c.Valid() && Inv(c.backend.w, c.backend.State())
    requires cap == CapsuleOf(c.backend.State(), c.dc) && Has(cap, Inode, v) && InodeShape(cap[v])
    requires c.bmName == cap[v].prev[1]
    ensures Readable(cap, v) && (c.MapStored() <==> |Entries(cap, v)| <= c.cover)
    ensures forall i: nat ::
              c.Behind(i) == if c.MapStored() then NamedBlock(c.backend.w, cap, v, c.key, c.bs, i)
                             else Some(Zeros(c.bs))
    ensures forall i: nat :: !(i < |c.stats| && c.stats[i].dirty) && c.Behind(i).Some? ==>
              c.Logical(i) == c.Behind(i).value
  {
    hide Inv, Fetched, LoadedMap, ReadData, NamedBlock, Readable, InodeShape;
    var st := c.backend.State();
    VersionParts(c.backend.w, st, c.dc, v);
    MapLoadsExact(c.backend.w, st, c.dc, v, c.cover);
    ShownExact(c.backend.w, st, c.dc, v, c.key, c.cover, c.bs);
    forall i: nat
      ensures c.Behind(i) == ShownBlock(c.backend.w, st, c.dc, v, c.key, c.cover, c.bs, i)
    {
    }
  }

  /** A handle just opened on a recorded version. */
  lemma Reopened(c: RecordCache, vs: seq<seq<byte>>, cap: Capsule, v: Name)
    requires c.Valid() && (forall i: nat :: !c.Cached(i)) && c.bm.None? && Uniform(c.bs, vs)
    requires cap == CapsuleOf(c.backend.State(), c.dc) && v == Latest(c.backend.State(), c.dc)
    requires Inv(c.backend.w, c.backend.State()) && v in cap && InodeShape(cap[v]) && c.bmName == cap[v].prev[1]
    requires Recorded(c.backend.w, c.backend.State(), c.dc, c.key, c.bs, vs)
    ensures Readable(cap, v) && |Entries(cap, v)| == |vs| && (c.MapStored() <==> |vs| <= c.cover)
    ensures forall i :: 0 <= i < |vs| ==>
              c.Logical(i) == if |vs| <= c.cover && Passes(Entries(cap, v)[i]) then vs[i] else Zeros(c.bs)
    ensures |vs| <= c.cover ==> c.Complete()
    ensures |vs| <= c.cover && (forall i :: 0 <= i < |vs| ==> Passes(Entries(cap, v)[i])) ==> c.View(|vs|) == vs
  {
    hide Inv, Fetched, LoadedMap, ReadData, Readable, InodeShape;
    CleanBlocksShow(c, cap, v);
  }

  /** Opening a file with a recorded version. */
  method Reopen(be: Backend, dc: Name, bs: nat, cover: nat, ghost key: seq<byte>, ghost vs: seq<seq<byte>>)
    returns (ino: Inode)
    requires bs > 0 && Uniform(bs, vs) && Inv(be.w, be.State()) && Recorded(be.w, be.State(), dc, key, bs, vs)
    ensures fresh(ino) && fresh(ino.cache) && ino.Valid() && ino.cache.bm.None?
    ensures ino.cache.backend == be && ino.cache.dc == dc && ino.cache.bs == bs && ino.cache.key == key
    ensures ino.size == |vs| * bs
    ensures var cap, v := CapsuleOf(be.State(), dc), Latest(be.State(), dc);
            && Readable(cap, v) && |Entries(cap, v)| == |vs| && (ino.cache.MapStored() <==> |vs| <= cover)
            && (forall i :: 0 <= i < |vs| ==>
                  ino.cache.Logical(i) == if |vs| <= cover && Passes(Entries(cap, v)[i]) then vs[i] else Zeros(bs))
            && (|vs| <= cover ==> Usable(ino))
            && (|vs| <= cover && (forall i :: 0 <= i < |vs| ==> Passes(Entries(cap, v)[i])) ==>
                  ino.File() == Flat(bs, vs))
  {
    hide Inv, Recorded, Fetched, LoadedMap, BlockIndex, Start, Flat, Closed, RecordedSize, IssuedKey, DirtyRun,
         ReadData, Passes, NamedBlock;
    RecordedShape(be.w, be.State(), dc, key, bs, vs);
    var _, found := OpenStored(be, dc, bs, cover);
    ino := found;
    Reopened(ino.cache, vs, CapsuleOf(be.State(), dc), Latest(be.State(), dc));
    if ino.cache.View(|vs|) == vs {
      WholeFile(ino, vs);
    }
  }

  /** Session round trip. The last close of a new file, whatever was written to it, followed by a new
      open. The reopened file has the same key, its size is rounded up to the end of the block that
      holds the old end, and each block comes back as it was, unless its name starts with a zero byte or
      the file has more blocks than the cover, in which case it comes back as zeros. So otherwise every
      byte below the old size is read back. Other open files notice nothing. */
  method CloseAndReopen(ino: Inode, clock: nat -> int, ok: nat -> bool, ghost others: set<Inode>)
    returns (committed: bool, again: Inode?)
    requires Closable(ino, clock) && forall o :: o in others ==> o.cache != ino.cache && Usable(o)
    modifies ino`refCount, ino.cache`stats, ino.cache`blocks, ino.cache.backend
    ensures committed <==>
              && old(ino.refCount) == 1 && ino.cache.dc in old(ino.cache.backend.capsules)
              && forall i :: 0 <= i < old(Blocks(ino)) + 2 ==> ok(i)
    ensures !committed ==> again == null && Usable(ino) && ino.File() == old(ino.File())
    ensures committed ==>
              && again != null && fresh(again) && again.Valid()
              && (Usable(again) <==> old(Blocks(ino)) <= ino.cache.cover)
              && again.cache.backend == ino.cache.backend && again.cache.dc == ino.cache.dc
              && again.cache.key == ino.cache.key && again.size == old(Blocks(ino)) * ino.cache.bs
              && var st := again.cache.backend.State();
                 var cap, v := CapsuleOf(st, ino.cache.dc), Latest(st, ino.cache.dc);
                 && Readable(cap, v) && |Entries(cap, v)| == old(Blocks(ino))
                 && (forall i :: 0 <= i < old(Blocks(ino)) ==>
                       again.cache.Logical(i)
                         == if old(Blocks(ino)) <= ino.cache.cover && Passes(Entries(cap, v)[i])
                            then old(ino.cache.Logical(i)) else Zeros(ino.cache.bs))
                 && (old(Blocks(ino)) <= ino.cache.cover
                     && (forall i :: 0 <= i < old(Blocks(ino)) ==> Passes(Entries(cap, v)[i])) ==>
                       ino.size <= |again.File()| && again.File()[..ino.size] == old(ino.File()))
    ensures forall o :: o in others ==> StaysAsItWas(o)
  {
    hide Inv, Recorded, Fetched, LoadedMap, BlockIndex, LegalModify, Start, Flat, StoreExtends, Inode.Valid,
         RecordCache.Valid, Inode.File, Readable, RecordCache.Complete, RecordCache.MapStored, ReadData, Passes;
    ghost var k, vs := Blocks(ino), ino.cache.View(Blocks(ino));
    FileInBlocks(ino);
    committed := Close(ino, clock, ok);
    again := null;
    forall o | o in others
      ensures StaysAsItWas(o)
    {
      OtherKept(o);
    }
    if committed {
      again := Reopen(ino.cache.backend, ino.cache.dc, ino.cache.bs, ino.cache.cover, ino.cache.key, vs);
    }
  }

  /** An open file all of which can be read. */
  ghost predicate Usable(ino: Inode)
    reads ino, ino.cache, ino.cache.backend
  {
    ino.Valid() && ino.cache.MapStored() && ino.cache.Complete()
  }

  /** The file is open and readable before and after, with the same contents. */
  twostate predicate StaysAsItWas(o: Inode)
    reads o, o.cache, o.cache.backend
  {
    old(Usable(o)) && Usable(o) && o.File() == old(o.File())
  }

  /** An open file that no step touched, in a store that only grew, is as it was. */
  twostate lemma OtherKept(o: Inode)
    requires old(Usable(o)) && o.size == old(o.size)
    requires o.cache.stats == old(o.cache.stats) && o.cache.blocks == old(o.cache.blocks)
    requires o.cache.bm == old(o.cache.bm)
    requires o.cache.backend.State() == old(o.cache.backend.State())
             || StoreExtends(old(o.cache.backend.State()), o.cache.backend.State())
    ensures StaysAsItWas(o)
  {
    hide Inode.Valid, RecordCache.Valid, RecordCache.MapStored, RecordCache.Complete, StoreExtends, Inode.File;
    if o.cache.backend.State() == old(o.cache.backend.State()) {
      ExtendsRefl(o.cache.backend.State());
    }
    o.Undisturbed();
  }

  /** Isolation. Closing a file, whether or not it is the last close, and wherever the flush stops,
      leaves every other open file as it was. */
  method CloseBeside(ino: Inode, clock: nat -> int, ok: nat -> bool, ghost others: set<Inode>) returns (count: nat)
    requires ino.Valid() && ino.refCount > 0 && |ino.cache.key| == AES_KEY_LEN && ino.cache.Flushable(clock)
    requires forall o :: o in others ==> o.cache != ino.cache && Usable(o)
    modifies ino`refCount, ino.cache`stats, ino.cache`blocks, ino.cache.backend
    ensures count == ino.refCount == old(ino.refCount) - 1
    ensures Inv(ino.cache.backend.w, ino.cache.backend.State())
    ensures forall o :: o in others ==> StaysAsItWas(o)
  {
    hide RecordCache.Valid, RecordCache.MapStored, RecordCache.Complete, StoreExtends, Inode.File, Inode.Valid, Usable,
         StaysAsItWas, Inv, Parses, ModifyStep, LegalModify, BaseOf;
    BaseFound(ino.cache.backend.w, ino.cache.backend.State(), ino.cache.dc, ino.cache.key);
    count := ino.Unref(clock, ok);
    forall o | o in others
      ensures StaysAsItWas(o)
    {
      OtherKept(o);
    }
  }

  /** Work on one file goes on across the close of another: what was done before and after it is one
      run of the flat specification. */
  method WorkAcrossClose(ino: Inode, before: seq<FileOp>, after: seq<FileOp>, other: Inode, clock: nat -> int,
                         ok: nat -> bool)
    returns (outs: seq<seq<byte>>)
    requires Usable(ino) && other.cache != ino.cache
    requires forall i :: 0 <= i < |before + after| ==> Proper((before + after)[i])
    requires other.Valid() && other.refCount > 0 && |other.cache.key| == AES_KEY_LEN && other.cache.Flushable(clock)
    modifies ino`size, ino.cache`stats, ino.cache`blocks, ino.cache`bm
    modifies other`refCount, other.cache`stats, other.cache`blocks, other.cache.backend
    ensures Usable(ino) && ino.File() == CodedRun(ino.cache.bs, old(ino.File()), before + after, |before + after|)
    ensures |outs| == |before + after| && ReadsRight(ino.cache.bs, old(ino.File()), before + after, outs)
  {
    hide RecordCache.Valid, RecordCache.MapStored, RecordCache.Complete, Inode.File, Inode.Valid, CodedRun, ReadsRight,
         Proper;
    ghost var bs, c := ino.cache.bs, ino.File();
    assert forall i :: 0 <= i < |before| ==> before[i] == (before + after)[i];
    assert forall i :: 0 <= i < |after| ==> after[i] == (before + after)[|before| + i];
    outs := RunOps(ino, before);
    var _ := CloseBeside(other, clock, ok, {ino});
    assert ino in {ino};
    var more := RunOps(ino, after);
    RunsJoin(bs, c, before, after, outs, more);
    outs := outs + more;
  }

  lemma RunsJoin(bs: nat, c: seq<byte>, a: seq<FileOp>, b: seq<FileOp>, outs: seq<seq<byte>>, more: seq<seq<byte>>)
    requires bs > 0 && (forall i :: 0 <= i < |a| ==> Proper(a[i])) && (forall i :: 0 <= i < |b| ==> Proper(b[i]))
    requires |outs| == |a| && |more| == |b|
    requires ReadsRight(bs, c, a, outs) && ReadsRight(bs, CodedRun(bs, c, a, |a|), b, more)
    ensures forall i :: 0 <= i < |a + b| ==> Proper((a + b)[i])
    ensures CodedRun(bs, CodedRun(bs, c, a, |a|), b, |b|) == CodedRun(bs, c, a + b, |a + b|)
    ensures ReadsRight(bs, c, a + b, outs + more)
  {
    hide CodedRun, FlatRead, Proper;
    forall i | 0 <= i <= |a| {
      RunPrefix(bs, c, a, b, i);
    }
    forall i | 0 <= i <= |b| {
      RunSuffix(bs, c, a, b, i);
    }
  }

  lemma {:induction false} RunPrefix(bs: nat, c: seq<byte>, a: seq<FileOp>, b: seq<FileOp>, n: nat)
    requires bs > 0 && n <= |a|
    requires (forall i :: 0 <= i < |a| ==> Proper(a[i])) && (forall i :: 0 <= i < |b| ==> Proper(b[i]))
    ensures CodedRun(bs, c, a + b, n) == CodedRun(bs, c, a, n)
  {
    hide CodedStep, Proper;
    if n == 0 {
    } else {
      RunPrefix(bs, c, a, b, n - 1);
    }
  }

  lemma {:induction false} RunSuffix(bs: nat, c: seq<byte>, a: seq<FileOp>, b: seq<FileOp>, n: nat)
    requires bs > 0 && n <= |b|
    requires (forall i :: 0 <= i < |a| ==> Proper(a[i])) && (forall i :: 0 <= i < |b| ==> Proper(b[i]))
    ensures CodedRun(bs, c, a + b, |a| + n) == CodedRun(bs, CodedRun(bs, c, a, |a|), b, n)
  {
    hide CodedStep, Proper, CodedRun;
    if n == 0 {
      RunPrefix(bs, c, a, b, |a|);
      StartOps(bs, CodedRun(bs, c, a, |a|), b);
    } else {
      RunSuffix(bs, c, a, b, n - 1);
      RunUnfolds(bs, c, a + b, |a| + n - 1);
      RunUnfolds(bs, CodedRun(bs, c, a, |a|), b, n - 1);
      assert (a + b)[|a| + n - 1] == b[n - 1];
    }
  }

  /** A file lies in its blocks. */
  lemma FileInBlocks(ino: Inode)
    requires ino.Valid()
    ensures ino.size <= Start(ino.cache.bs, Blocks(ino))
    ensures ino.File() == Flat(ino.cache.bs, ino.cache.View(Blocks(ino)))[..ino.size]
  {
    var k := Blocks(ino);
    hide Fetched, LoadedMap, BlockIndex, Start, Flat, DirtyRun;
    ino.cache.Covers(ino.size, k);
    ino.cache.ContentPrefix(k, |ino.cache.stats|, ino.size);
  }

  /** A file of whole blocks is what they hold. */
  lemma WholeFile(ino: Inode, vs: seq<seq<byte>>)
    requires ino.Valid() && ino.size == |vs| * ino.cache.bs && ino.cache.View(|vs|) == vs
    ensures ino.File() == Flat(ino.cache.bs, vs)
  {
    var c := ino.cache;
    assert ino.size == Start(c.bs, |vs|) == |c.Content(|vs|)|;
    hide Start, Flat, Fetched, LoadedMap, BlockIndex, DirtyRun;
    WholeBlocks(c.bs, |vs|);
    c.ContentPrefix(|vs|, |c.stats|, ino.size);
  }

  lemma RecordedShape(w: World, st: Store, dc: Name, key: seq<byte>, bs: nat, vs: seq<seq<byte>>)
    requires Recorded(w, st, dc, key, bs, vs) && Inv(w, st)
    ensures var cap, v := CapsuleOf(st, dc), Latest(st, dc);
            && dc in st.index && v in cap && InodeShape(cap[v]) && Lookup(st, dc, v) == Some(cap[v])
            && RecordedSize(cap, v) == |vs| * bs && IssuedKey(w, cap, v) == key
  {
    hide WellFormed, NamedBlock;
    NamesAreHashes(w, dc, CapsuleOf(st, dc));
  }
}

/** Whole runs of the middleware: any sequence of creations and modifications of any files, each
    write of which may fail. */
module Histories {
  import opened Bytes
  import opened BlockLayout
  import opened BlockmapCodec
  import opened Ciphers
  import opened Capsules
  import opened Commits

  datatype Op =
    | Create(time: int, stored: bool)
    | Modify(dc: Name, descs: seq<Desc>, inodeHash: Name, aesKey: seq<byte>, clock: nat -> int, ok: nat -> bool)

  predicate Shaped(ops: seq<Op>) {
    forall i :: 0 <= i < |ops| && ops[i].Modify? ==> ops[i].descs != []
  }

  function Step(w: World, st: Store, op: Op): (r: Outcome)
    requires op.Modify? ==> op.descs != []
  {
    match op
    case Create(time, stored) => CreateStep(w, st, time, stored)
    case Modify(dc, descs, inodeHash, aesKey, clock, ok) => ModifyStep(w, st, dc, descs, inodeHash, aesKey, clock, ok)
  }

  /** The store after the first `n` requests. */
  function At(w: World, ops: seq<Op>, n: nat): (st: Store)
    requires n <= |ops| && Shaped(ops)
  {
    if n == 0 then Store(map[], map[]) else Step(w, At(w, ops, n - 1), ops[n - 1]).st
  }

  /** The assumptions on one request: hashes do not collide, and creations do not share a clock tick. */
  ghost predicate Legal(w: World, st: Store, op: Op) {
    match op
    case Create(time, _) => w.nameOf(MetaRecord(time)) !in st.capsules
    case Modify(dc, descs, _, aesKey, clock, _) => LegalModify(w, st, dc, descs, aesKey, clock)
  }

  ghost predicate LegalRun(w: World, ops: seq<Op>) {
    && Fine(w) && Shaped(ops)
    && forall i :: 0 <= i < |ops| ==> Legal(w, At(w, ops, i), ops[i])
  }

  /** Every reachable store is closed: each name reachable from the index, through back links or
      block maps, names a stored record of the right kind. */
  lemma {:induction false} StoreInvariant(w: World, ops: seq<Op>, n: nat)
    requires LegalRun(w, ops) && n <= |ops|
    ensures Inv(w, At(w, ops, n))
  {
    hide Inv, LegalRun, Legal, Step;
    RunFacts(w, ops);
    if n == 0 {
      EmptyInv(w);
    } else {
      StoreInvariant(w, ops, n - 1);
      LegalAt(w, ops, n - 1);
      StepKeeps(w, At(w, ops, n - 1), ops[n - 1]);
    }
  }

  lemma RunFacts(w: World, ops: seq<Op>)
    requires LegalRun(w, ops)
    ensures Fine(w) && forall i :: 0 <= i < |ops| && ops[i].Modify? ==> ops[i].descs != []
  {
    hide Legal, At;
  }

  lemma LegalAt(w: World, ops: seq<Op>, n: nat)
    requires LegalRun(w, ops) && n < |ops|
    ensures Legal(w, At(w, ops, n), ops[n])
  {
    hide Legal, At;
  }

  lemma AtNext(w: World, ops: seq<Op>, n: nat)
    requires Shaped(ops) && n < |ops|
    ensures At(w, ops, n + 1) == Step(w, At(w, ops, n), ops[n]).st
  {
    hide Step;
  }

  lemma EmptyInv(w: World)
    ensures Inv(w, Store(map[], map[]))
  {
  }

  lemma StepKeeps(w: World, st: Store, op: Op)
    requires Fine(w) && Inv(w, st) && (op.Modify? ==> op.descs != []) && Legal(w, st, op)
    ensures Inv(w, Step(w, st, op).st) && StoreExtends(st, Step(w, st, op).st)
  {
    hide Inv, StoreExtends, LegalModify, ModifyStep, CreateStep;
    match op
    case Create(time, stored) => CreateKeepsInv(w, st, time, stored);
    case Modify(dc, descs, inodeHash, aesKey, clock, ok) =>
      ModifyKeepsInv(w, st, dc, descs, inodeHash, aesKey, clock, ok);
  }

  /** Nothing stored ever changes or disappears. */
  lemma {:induction false} RecordsPersist(w: World, ops: seq<Op>, m: nat, n: nat)
    requires LegalRun(w, ops) && m <= n <= |ops|
    ensures StoreExtends(At(w, ops, m), At(w, ops, n))
  {
    hide Inv, LegalRun, Legal, At, Step, StoreExtends;
    RunFacts(w, ops);
    if m == n {
      ExtendsRefl(At(w, ops, m));
    } else {
      RecordsPersist(w, ops, m, n - 1);
      StoreInvariant(w, ops, n - 1);
      LegalAt(w, ops, n - 1);
      AtNext(w, ops, n - 1);
      StepKeeps(w, At(w, ops, n - 1), ops[n - 1]);
      ExtendsTrans(At(w, ops, m), At(w, ops, n - 1), At(w, ops, n));
    }
  }

  /** Version immutability: the file that an inode record stands for, its blocks, size and key, is
      the same in every later state of every run. */
  lemma VersionImmutable(w: World, ops: seq<Op>, m: nat, n: nat, dc: Name, v: Name)
    requires LegalRun(w, ops) && m <= n <= |ops|
    requires Has(CapsuleOf(At(w, ops, m), dc), Inode, v)
    ensures var a, b := CapsuleOf(At(w, ops, m), dc), CapsuleOf(At(w, ops, n), dc);
            && Readable(a, v) && Readable(b, v)
            && VersionBlocks(b, v) == VersionBlocks(a, v)
            && RecordedSize(b, v) == RecordedSize(a, v)
            && IssuedKey(w, b, v) == IssuedKey(w, a, v)
  {
    hide Readable, Legal, At, VersionBlocks, RecordedSize, IssuedKey, WellFormed;
    RecordsPersist(w, ops, m, n);
    StoreInvariant(w, ops, m);
    var a, b := CapsuleOf(At(w, ops, m), dc), CapsuleOf(At(w, ops, n), dc);
    ClosedReadable(w, dc, a, v);
    ReadableExtends(w, a, b, v);
  }

  // ---- the history of one file ----

  /** Inode names installed, their block maps, data-block names committed, all in order, and the key of
      the first commit. */
  datatype History = History(versions: seq<Name>, maps: seq<Name>, blocks: seq<Name>, key: seq<byte>)

  predicate Installs(w: World, st: Store, op: Op, dc: Name)
    requires op.Modify? ==> op.descs != []
  {
    op.Modify? && op.dc == dc && Step(w, st, op).ret == NO_ERR
  }

  function BlocksPushed(w: World, st: Store, op: Op): (r: seq<Name>)
    requires op.Modify?
  {
    var b := BaseOf(st, op.dc, op.aesKey);
    if b.None? then [] else NamesOf(w, DataRecords(w, Or(b.value.data, op.dc), op.descs, op.clock))
  }

  function HistoryOf(w: World, ops: seq<Op>, n: nat, dc: Name): (h: History)
    requires n <= |ops| && Shaped(ops)
  {
    if n == 0 then History([], [], [], []) else
      var h, st, op := HistoryOf(w, ops, n - 1, dc), At(w, ops, n - 1), ops[n - 1];
      if !Installs(w, st, op, dc) then h else Extended(w, st, op, h)
  }

  /** The name of the block map that the latest inode refers to. */
  function LatestMap(st: Store, dc: Name): (n: Name) {
    var r := Lookup(st, dc, Latest(st, dc));
    if r.Some? && |r.value.prev| == 2 then r.value.prev[1] else []
  }

  function Extended(w: World, st: Store, op: Op, h: History): (r: History)
    requires op.Modify? && op.descs != []
  {
    History(h.versions + [Latest(Step(w, st, op).st, op.dc)],
            h.maps + [LatestMap(Step(w, st, op).st, op.dc)],
            h.blocks + BlocksPushed(w, st, op),
            if h.versions == [] then op.aesKey else h.key)
  }

  function Before(dc: Name, ns: seq<Name>, i: nat): (n: Name)
    requires i <= |ns|
  {
    if i == 0 then dc else ns[i - 1]
  }

  /** Records `ns` of one kind, each linking first to the one before and the oldest to the META record. */
  ghost predicate Chained(dc: Name, cap: Capsule, kind: Kind, ns: seq<Name>) {
    forall i :: 0 <= i < |ns| ==>
      Has(cap, kind, ns[i]) && cap[ns[i]].prev != [] && cap[ns[i]].prev[0] == Before(dc, ns, i)
  }

  /** The key a version holds after `i` rounds of encrypt-and-truncate. */
  function Rounds(w: World, key: seq<byte>, i: nat): (k: seq<byte>)
  {
    if i == 0 then key else
      var c := w.cipher.enc(w.mwKey, Rounds(w, key, i - 1));
      if |c| < AES_KEY_LEN then c else c[..AES_KEY_LEN]
  }

  ghost predicate HoldsKeys(w: World, cap: Capsule, vs: seq<Name>, key: seq<byte>) {
    forall i :: 0 <= i < |vs| ==>
      && vs[i] in cap && InodeShape(cap[vs[i]])
      && cap[vs[i]].payload[SIZE_LEN..] == w.cipher.enc(w.mwKey, Rounds(w, key, i))
  }

  /** The latest version's block map lists exactly the committed data blocks. */
  ghost predicate MapIsLog(cap: Capsule, v: Name, blocks: seq<Name>) {
    && blocks != [] && Readable(cap, v) && Entries(cap, v) == blocks
    && cap[cap[v].prev[1]].prev[1] == blocks[|blocks| - 1]
  }

  /** Each version refers to its block map. */
  ghost predicate RefersTo(cap: Capsule, versions: seq<Name>, maps: seq<Name>) {
    && |versions| == |maps|
    && forall i :: 0 <= i < |versions| ==>
         versions[i] in cap && |cap[versions[i]].prev| == 2 && cap[versions[i]].prev[1] == maps[i]
  }

  ghost predicate Tracks(w: World, st: Store, dc: Name, h: History) {
    var cap := CapsuleOf(st, dc);
    && Chained(dc, cap, Inode, h.versions) && Chained(dc, cap, DataBlock, h.blocks)
    && Chained(dc, cap, BlockMap, h.maps) && RefersTo(cap, h.versions, h.maps)
    && HoldsKeys(w, cap, h.versions, h.key)
    && (h.versions == [] ==> Latest(st, dc) == [] && h.blocks == [])
    && (h.versions != [] ==>
          && dc in st.capsules && Latest(st, dc) == h.versions[|h.versions| - 1]
          && MapIsLog(cap, Latest(st, dc), h.blocks) && |h.key| == AES_KEY_LEN)
  }

  /** What does not move the index keeps the history. */
  lemma TracksStable(w: World, st: Store, st': Store, dc: Name, h: History)
    requires Tracks(w, st, dc, h) && Latest(st', dc) == Latest(st, dc)
    requires Extends(CapsuleOf(st, dc), CapsuleOf(st', dc)) && (dc in st.capsules ==> dc in st'.capsules)
    ensures Tracks(w, st', dc, h)
  {
    hide MapIsLog, Chained, HoldsKeys, Extends, RefersTo;
    var a, b := CapsuleOf(st, dc), CapsuleOf(st', dc);
    ChainStable(dc, a, b, Inode, h.versions);
    ChainStable(dc, a, b, BlockMap, h.maps);
    RefersStable(a, b, h.versions, h.maps);
    ChainStable(dc, a, b, DataBlock, h.blocks);
    KeysStable(w, a, b, h.versions, h.key);
    if h.versions != [] {
      MapStable(w, a, b, Latest(st, dc), h.blocks);
    }
  }

  lemma ChainStable(dc: Name, a: Capsule, b: Capsule, kind: Kind, ns: seq<Name>)
    requires Chained(dc, a, kind, ns) && Extends(a, b)
    ensures Chained(dc, b, kind, ns)
  {
    hide Before;
  }

  lemma RefersStable(a: Capsule, b: Capsule, versions: seq<Name>, maps: seq<Name>)
    requires RefersTo(a, versions, maps) && Extends(a, b)
    ensures RefersTo(b, versions, maps)
  {
  }

  lemma KeysStable(w: World, a: Capsule, b: Capsule, vs: seq<Name>, key: seq<byte>)
    requires HoldsKeys(w, a, vs, key) && Extends(a, b)
    ensures HoldsKeys(w, b, vs, key)
  {
    hide Rounds, InodeShape;
  }

  lemma MapStable(w: World, a: Capsule, b: Capsule, v: Name, blocks: seq<Name>)
    requires MapIsLog(a, v, blocks) && Extends(a, b)
    ensures MapIsLog(b, v, blocks)
  {
    hide Readable;
    ReadableExtends(w, a, b, v);
    MapParts(a, v);
  }

  lemma ChainGrows(dc: Name, a: Capsule, b: Capsule, kind: Kind, ns: seq<Name>, more: seq<Name>)
    requires Chained(dc, a, kind, ns) && Extends(a, b)
    requires forall j :: 0 <= j < |more| ==>
               && Has(b, kind, more[j]) && b[more[j]].prev != []
               && b[more[j]].prev[0] == Before(Before(dc, ns, |ns|), more, j)
    ensures Chained(dc, b, kind, ns + more)
  {
    var all := ns + more;
    forall i | 0 <= i < |all|
      ensures Has(b, kind, all[i]) && b[all[i]].prev != [] && b[all[i]].prev[0] == Before(dc, all, i)
    {
      if i < |ns| {
        assert Before(dc, all, i) == Before(dc, ns, i);
      } else {
        var j := i - |ns|;
        assert Before(dc, all, i) == Before(Before(dc, ns, |ns|), more, j);
        assert Has(b, kind, more[j]);
      }
    }
  }

  /** The base of a request is the end of a history. */
  ghost predicate BasedOn(w: World, h: History, latest: Name, b: Base, aesKey: seq<byte>) {
    && b.entries == h.blocks
    && (h.versions == [] ==>
          latest == [] && b.bm == [] && b.data == [] && h.blocks == [] && h.maps == [] && b.key == aesKey)
    && (h.versions != [] ==>
          && latest != [] && latest == h.versions[|h.versions| - 1]
          && h.maps != [] && b.bm != [] && b.bm == h.maps[|h.maps| - 1]
          && h.blocks != [] && b.data != [] && b.data == h.blocks[|h.blocks| - 1]
          && b.key == Rounds(w, h.key, |h.versions|))
  }

  lemma BaseTracked(w: World, st: Store, dc: Name, h: History, aesKey: seq<byte>)
    requires Fine(w) && Inv(w, st) && Tracks(w, st, dc, h) && BaseOf(st, dc, aesKey).Some?
    ensures BasedOn(w, h, Latest(st, dc), BaseOf(st, dc, aesKey).value, aesKey)
  {
    hide Rounds, WellFormed, Parse, Entries, Readable, Chained, HoldsKeys, Before;
    if h.versions != [] {
      var cap, v, n := CapsuleOf(st, dc), Latest(st, dc), |h.versions| - 1;
      NamesAreHashes(w, dc, cap);
      MapParts(cap, v);
      LastStored(dc, cap, DataBlock, h.blocks);
      LastStored(dc, cap, Inode, h.versions);
      LastStored(dc, cap, BlockMap, h.maps);
      LastKey(w, cap, h.versions, h.key);
    }
  }

  lemma LastStored(dc: Name, cap: Capsule, kind: Kind, ns: seq<Name>)
    requires Chained(dc, cap, kind, ns) && ns != []
    ensures ns[|ns| - 1] in cap
  {
  }

  lemma LastKey(w: World, cap: Capsule, vs: seq<Name>, key: seq<byte>)
    requires Fine(w) && HoldsKeys(w, cap, vs, key) && vs != []
    ensures var v := vs[|vs| - 1];
            && v in cap && InodeShape(cap[v])
            && cap[v].payload[SIZE_LEN..SIZE_LEN + AES_KEY_LEN] == Rounds(w, key, |vs|)
  {
    hide Rounds;
    var n := |vs| - 1;
    RoundsStep(w, key, n);
    KeyField(cap[vs[n]].payload, w.cipher.enc(w.mwKey, Rounds(w, key, n)));
  }

  lemma KeyField(payload: seq<byte>, c: seq<byte>)
    requires |payload| == INODE_PAYLOAD_SIZE && payload[SIZE_LEN..] == c && |c| >= AES_KEY_LEN
    ensures payload[SIZE_LEN..SIZE_LEN + AES_KEY_LEN] == c[..AES_KEY_LEN]
  {
  }

  lemma RoundsStep(w: World, key: seq<byte>, n: nat)
    requires Fine(w)
    ensures |w.cipher.enc(w.mwKey, Rounds(w, key, n))| >= AES_KEY_LEN
    ensures Rounds(w, key, n + 1) == w.cipher.enc(w.mwKey, Rounds(w, key, n))[..AES_KEY_LEN]
  {
  }

  lemma VersionsGrow(w: World, dc: Name, a: Capsule, cap: Capsule, h: History, latest: Name, b: Base, descs: seq<Desc>,
                     clock: nat -> int, v: Name, aesKey: seq<byte>)
    requires descs != [] && Publishes(w, dc, a, latest, b, descs, clock, cap, v) && BasedOn(w, h, latest, b, aesKey)
    requires Chained(dc, a, Inode, h.versions)
    ensures Chained(dc, cap, Inode, h.versions + [v])
  {
    hide DataRecords, Entries, Rounds;
    ChainGrows(dc, a, cap, Inode, h.versions, [v]);
  }

  lemma MapsGrow(w: World, dc: Name, a: Capsule, cap: Capsule, h: History, latest: Name, b: Base, descs: seq<Desc>,
                 clock: nat -> int, v: Name, aesKey: seq<byte>)
    requires descs != [] && Publishes(w, dc, a, latest, b, descs, clock, cap, v) && BasedOn(w, h, latest, b, aesKey)
    requires Chained(dc, a, BlockMap, h.maps) && RefersTo(a, h.versions, h.maps)
    ensures v in cap && |cap[v].prev| == 2 && Chained(dc, cap, BlockMap, h.maps + [cap[v].prev[1]])
    ensures RefersTo(cap, h.versions + [v], h.maps + [cap[v].prev[1]])
  {
    hide DataRecords, Entries, Rounds, Chained;
    ChainGrows(dc, a, cap, BlockMap, h.maps, [cap[v].prev[1]]);
    RefersStable(a, cap, h.versions, h.maps);
  }

  lemma BlocksGrow(w: World, dc: Name, a: Capsule, cap: Capsule, h: History, latest: Name, b: Base, descs: seq<Desc>,
                   clock: nat -> int, v: Name, aesKey: seq<byte>)
    requires descs != [] && Publishes(w, dc, a, latest, b, descs, clock, cap, v) && BasedOn(w, h, latest, b, aesKey)
    requires Chained(dc, a, DataBlock, h.blocks)
    ensures var names := NamesOf(w, DataRecords(w, Or(b.data, dc), descs, clock));
            Chained(dc, cap, DataBlock, h.blocks + names) && MapIsLog(cap, v, h.blocks + names)
  {
    hide DataRecords, Rounds, Readable, Extends, Entries, Chained, NamesOf, Before;
    var first := Or(b.data, dc);
    var names := NamesOf(w, DataRecords(w, first, descs, clock));
    StartsBehind(dc, h.blocks, b.data);
    forall j | 0 <= j < |names|
      ensures Has(cap, DataBlock, names[j]) && cap[names[j]].prev != []
      ensures cap[names[j]].prev[0] == Before(first, names, j)
    {
      PushedLinks(w, first, descs, clock, cap, j);
    }
    ChainGrows(dc, a, cap, DataBlock, h.blocks, names);
    LastName(w, DataRecords(w, first, descs, clock));
    MapParts(cap, v);
  }

  lemma StartsBehind(dc: Name, ns: seq<Name>, last: Name)
    requires if ns == [] then last == [] else last != [] && last == ns[|ns| - 1]
    ensures Or(last, dc) == Before(dc, ns, |ns|)
  {
  }

  lemma LastName(w: World, rs: seq<Record>)
    requires rs != []
    ensures NamesOf(w, rs)[|rs| - 1] == w.nameOf(rs[|rs| - 1])
  {
  }

  lemma PushedLinks(w: World, first: Name, descs: seq<Desc>, clock: nat -> int, cap: Capsule, j: nat)
    requires j < |descs|
    requires var data := DataRecords(w, first, descs, clock);
             w.nameOf(data[j]) in cap && cap[w.nameOf(data[j])] == data[j]
    ensures var names := NamesOf(w, DataRecords(w, first, descs, clock));
            && Has(cap, DataBlock, names[j]) && cap[names[j]].prev != []
            && cap[names[j]].prev[0] == Before(first, names, j)
  {
    hide DataRecords;
    DataRecordAt(w, first, descs, clock, j);
  }

  lemma KeysGrow(w: World, dc: Name, a: Capsule, cap: Capsule, h: History, latest: Name, b: Base, descs: seq<Desc>,
                 clock: nat -> int, v: Name, aesKey: seq<byte>)
    requires descs != [] && Publishes(w, dc, a, latest, b, descs, clock, cap, v) && BasedOn(w, h, latest, b, aesKey)
    requires HoldsKeys(w, a, h.versions, h.key)
    ensures HoldsKeys(w, cap, h.versions + [v], if h.versions == [] then aesKey else h.key)
  {
    hide DataRecords, Entries;
    MapParts(cap, v);
    assert cap[v].payload[SIZE_LEN..] == w.cipher.enc(w.mwKey, b.key);
  }

  /** A commit extends the history by its inode name and its data-block names. */
  lemma CommitTracks(w: World, st: Store, op: Op, h: History)
    requires Fine(w) && Inv(w, st) && op.Modify? && op.descs != [] && Legal(w, st, op)
    requires Installs(w, st, op, op.dc) && Tracks(w, st, op.dc, h)
    ensures Tracks(w, Step(w, st, op).st, op.dc, Extended(w, st, op, h))
  {
    hide Inv, ModifyStep, Publishes, DataRecords, NoCollision, Batch, BaseOf, BasedOn, Chained, HoldsKeys, MapIsLog,
         RefersTo;
    var dc, r := op.dc, Step(w, st, op);
    ModifyPublishes(w, st, dc, op.descs, op.inodeHash, op.aesKey, op.clock, op.ok);
    var b, v, latest := BaseOf(st, dc, op.aesKey).value, Latest(r.st, dc), Latest(st, dc);
    var a, cap := st.capsules[dc], r.st.capsules[dc];
    BaseTracked(w, st, dc, h, op.aesKey);
    VersionsGrow(w, dc, a, cap, h, latest, b, op.descs, op.clock, v, op.aesKey);
    BlocksGrow(w, dc, a, cap, h, latest, b, op.descs, op.clock, v, op.aesKey);
    KeysGrow(w, dc, a, cap, h, latest, b, op.descs, op.clock, v, op.aesKey);
    MapsGrow(w, dc, a, cap, h, latest, b, op.descs, op.clock, v, op.aesKey);
  }

  /** Every reachable store carries exactly the history of every file. */
  lemma {:induction false} HistoryTracked(w: World, ops: seq<Op>, n: nat, dc: Name)
    requires LegalRun(w, ops) && n <= |ops|
    ensures Tracks(w, At(w, ops, n), dc, HistoryOf(w, ops, n, dc))
  {
    hide Inv, Tracks, Extended, Step, LegalRun, Legal, At, HistoryOf;
    RunFacts(w, ops);
    if n == 0 {
      EmptyTracks(w, dc);
      RunStart(w, ops, dc);
    } else {
      HistoryTracked(w, ops, n - 1, dc);
      StoreInvariant(w, ops, n - 1);
      LegalAt(w, ops, n - 1);
      AtNext(w, ops, n - 1);
      HistoryNext(w, ops, n - 1, dc);
      var st, op, h := At(w, ops, n - 1), ops[n - 1], HistoryOf(w, ops, n - 1, dc);
      if Installs(w, st, op, dc) {
        CommitTracks(w, st, op, h);
      } else {
        OtherTracks(w, st, op, dc, h);
      }
    }
  }

  lemma RunStart(w: World, ops: seq<Op>, dc: Name)
    requires Shaped(ops)
    ensures At(w, ops, 0) == Store(map[], map[]) && HistoryOf(w, ops, 0, dc) == History([], [], [], [])
  {
  }

  lemma HistoryNext(w: World, ops: seq<Op>, n: nat, dc: Name)
    requires Shaped(ops) && n < |ops|
    ensures var h, st, op := HistoryOf(w, ops, n, dc), At(w, ops, n), ops[n];
            HistoryOf(w, ops, n + 1, dc) == if Installs(w, st, op, dc) then Extended(w, st, op, h) else h
  {
    hide Step, Extended, At;
  }

  lemma EmptyTracks(w: World, dc: Name)
    ensures Tracks(w, Store(map[], map[]), dc, History([], [], [], []))
  {
  }

  /** A failed request, or one for another file, leaves the history of this file. */
  lemma OtherTracks(w: World, st: Store, op: Op, dc: Name, h: History)
    requires Fine(w) && Inv(w, st) && (op.Modify? ==> op.descs != []) && Legal(w, st, op)
    requires !Installs(w, st, op, dc) && Tracks(w, st, dc, h)
    ensures Tracks(w, Step(w, st, op).st, dc, h)
  {
    hide Inv, ModifyStep, CreateStep, LegalModify, HoldsKeys, Chained, MapIsLog, RefersTo;
    var r := Step(w, st, op);
    StepKeeps(w, st, op);
    match op {
      case Create(time, stored) =>
        CreateKeepsInv(w, st, time, stored);
        assert h.versions != [] ==> dc in st.capsules;
        assert dc == w.nameOf(MetaRecord(time)) ==> Latest(st, dc) == [];
      case Modify(d, descs, inodeHash, aesKey, clock, ok) =>
        ModifyAtomic(w, st, d, descs, inodeHash, aesKey, clock, ok);
    }
    TracksStable(w, st, r.st, dc, h);
  }

  // ---- what the history says ----

  /** Following first back links: the name reached after `k` steps. */
  function Walk(cap: Capsule, n: Name, k: nat): (r: Option<Name>)
    decreases k
  {
    if k == 0 then Some(n)
    else if n in cap && cap[n].prev != [] then Walk(cap, cap[n].prev[0], k - 1)
    else None
  }

  /** The shape of a complete chain: it visits `ns` from the newest to the oldest, each once, then the
      META record, and ends there. */
  ghost predicate VisitsAll(dc: Name, cap: Capsule, start: Name, ns: seq<Name>) {
    && (forall k :: 0 <= k < |ns| ==> Walk(cap, start, k) == Some(ns[|ns| - 1 - k]))
    && Walk(cap, start, |ns|) == Some(dc) && Walk(cap, start, |ns| + 1) == None
    && (forall i, j :: 0 <= i < j < |ns| ==> ns[i] != ns[j])
  }

  lemma {:induction false} WalkChain(dc: Name, cap: Capsule, kind: Kind, ns: seq<Name>, m: nat, k: nat)
    requires Chained(dc, cap, kind, ns) && k <= m <= |ns|
    ensures Walk(cap, Before(dc, ns, m), k) == Some(Before(dc, ns, m - k))
    decreases k
  {
    hide Chained;
    if k == 0 {
    } else {
      ChainLink(dc, cap, kind, ns, m - 1);
      WalkChain(dc, cap, kind, ns, m - 1, k - 1);
    }
  }

  lemma ChainHas(dc: Name, cap: Capsule, kind: Kind, ns: seq<Name>, i: nat)
    requires Chained(dc, cap, kind, ns) && i < |ns|
    ensures Has(cap, kind, ns[i])
  {
  }

  lemma ChainLink(dc: Name, cap: Capsule, kind: Kind, ns: seq<Name>, i: nat)
    requires Chained(dc, cap, kind, ns) && i < |ns|
    ensures ns[i] in cap && cap[ns[i]].prev != [] && cap[ns[i]].prev[0] == Before(dc, ns, i)
    ensures Before(dc, ns, i + 1) == ns[i]
  {
  }

  lemma {:induction false} WalkFurther(cap: Capsule, n: Name, k: nat)
    requires Walk(cap, n, k).Some?
    ensures Walk(cap, n, k + 1) == Walk(cap, Walk(cap, n, k).value, 1)
    decreases k
  {
    if k == 0 {
    } else {
      WalkFurther(cap, cap[n].prev[0], k - 1);
    }
  }

  /** A chain that ends at the META record cannot meet itself. */
  lemma {:induction false} ChainDistinct(dc: Name, cap: Capsule, kind: Kind, ns: seq<Name>, i: nat, j: nat)
    requires Chained(dc, cap, kind, ns) && Has(cap, Meta, dc) && kind != Meta && i < j < |ns|
    ensures ns[i] != ns[j]
  {
    assert Has(cap, kind, ns[i]) && Has(cap, kind, ns[j]) && Has(cap, kind, ns[j - 1]);
    if i == 0 {
    } else {
      ChainDistinct(dc, cap, kind, ns, i - 1, j - 1);
    }
  }

  lemma ChainVisitsAll(w: World, dc: Name, cap: Capsule, kind: Kind, ns: seq<Name>)
    requires Closed(w, dc, cap) && Chained(dc, cap, kind, ns) && kind != Meta && ns != []
    ensures VisitsAll(dc, cap, ns[|ns| - 1], ns)
  {
    hide Chained, Walk;
    var start := Before(dc, ns, |ns|);
    forall k | 0 <= k <= |ns|
      ensures Walk(cap, start, k) == Some(Before(dc, ns, |ns| - k))
    {
      WalkChain(dc, cap, kind, ns, |ns|, k);
    }
    WalkFurther(cap, start, |ns|);
    assert cap[dc].prev == [] by { assert WellFormed(dc, cap, cap[dc]); }
    WalkEnds(cap, dc);
    forall i, j | 0 <= i < j < |ns|
      ensures ns[i] != ns[j]
    {
      ChainDistinct(dc, cap, kind, ns, i, j);
    }
  }

  lemma WalkEnds(cap: Capsule, n: Name)
    requires n in cap && cap[n].prev == []
    ensures Walk(cap, n, 1) == None
  {
  }

  /** Chain completeness. In every reachable store, a file that has ever been committed can be walked
      back from the index: first links from the latest inode visit every committed version exactly
      once and end at the META record; first links from its block map do the same for the block map of
      every version, and those from the block map's latest data block for every committed data block;
      and the block map lists those data blocks in write order. */
  lemma ChainComplete(w: World, ops: seq<Op>, n: nat, dc: Name)
    requires LegalRun(w, ops) && n <= |ops|
    requires HistoryOf(w, ops, n, dc).versions != []
    ensures var st, h := At(w, ops, n), HistoryOf(w, ops, n, dc);
            var cap := CapsuleOf(st, dc);
            && Readable(cap, Latest(st, dc)) && Has(cap, Meta, dc)
            && VisitsAll(dc, cap, Latest(st, dc), h.versions)
            && VisitsAll(dc, cap, cap[Latest(st, dc)].prev[1], h.maps) && |h.maps| == |h.versions|
            && (forall i :: 0 <= i < |h.versions| ==>
                  Readable(cap, h.versions[i]) && cap[h.versions[i]].prev[1] == h.maps[i])
            && VisitsAll(dc, cap, cap[cap[Latest(st, dc)].prev[1]].prev[1], h.blocks)
            && Entries(cap, Latest(st, dc)) == h.blocks
  {
    hide VisitsAll, Chained, HoldsKeys, Legal, At, HistoryOf, Readable, WellFormed, Entries;
    HistoryTracked(w, ops, n, dc);
    StoreInvariant(w, ops, n);
    var st, h := At(w, ops, n), HistoryOf(w, ops, n, dc);
    var cap := CapsuleOf(st, dc);
    MapParts(cap, Latest(st, dc));
    ChainVisitsAll(w, dc, cap, Inode, h.versions);
    ChainVisitsAll(w, dc, cap, BlockMap, h.maps);
    ChainVisitsAll(w, dc, cap, DataBlock, h.blocks);
    forall i | 0 <= i < |h.versions|
      ensures Readable(cap, h.versions[i])
    {
      ChainHas(dc, cap, Inode, h.versions, i);
      ClosedReadable(w, dc, cap, h.versions[i]);
    }
  }

  /** A file that was never committed has no latest version. */
  lemma NeverCommitted(w: World, ops: seq<Op>, n: nat, dc: Name)
    requires LegalRun(w, ops) && n <= |ops|
    ensures HistoryOf(w, ops, n, dc).versions == [] <==> Latest(At(w, ops, n), dc) == []
  {
    hide Chained, HoldsKeys, Legal, At, HistoryOf, WellFormed, Entries, MapIsLog;
    HistoryTracked(w, ops, n, dc);
    StoreInvariant(w, ops, n);
    var st, h := At(w, ops, n), HistoryOf(w, ops, n, dc);
    if h.versions != [] {
      LastStored(dc, CapsuleOf(st, dc), Inode, h.versions);
      NamesAreHashes(w, dc, CapsuleOf(st, dc));
    }
  }

  lemma {:induction false} HistoryPrefix(w: World, ops: seq<Op>, m: nat, n: nat, dc: Name)
    requires Shaped(ops) && m <= n <= |ops|
    ensures HistoryOf(w, ops, m, dc).versions <= HistoryOf(w, ops, n, dc).versions
    decreases n
  {
    hide At, Step;
    if m == n {
    } else {
      HistoryPrefix(w, ops, m, n - 1, dc);
    }
  }

  /** Linear history. Of two commits on one file the later names a version installed by the earlier
      or after it, hence not the version the earlier one named: no two commits share a base. */
  lemma LinearHistory(w: World, ops: seq<Op>, i: nat, j: nat, dc: Name)
    requires LegalRun(w, ops) && i < j < |ops|
    requires Installs(w, At(w, ops, i), ops[i], dc) && Installs(w, At(w, ops, j), ops[j], dc)
    ensures ops[i].Modify? && ops[j].Modify?
    ensures var vs := HistoryOf(w, ops, j, dc).versions;
            && vs != [] && ops[j].inodeHash == vs[|vs| - 1]
            && vs[|vs| - 1] !in HistoryOf(w, ops, i, dc).versions
    ensures ops[i].inodeHash != ops[j].inodeHash
    ensures Latest(At(w, ops, i), dc) != Latest(At(w, ops, j), dc)
  {
    hide LegalRun, At, HistoryOf, Installs;
    VersionsBetween(w, ops, i, j, dc);
    ChainCompleteDistinct(w, ops, j, dc);
    CommitBase(w, ops, i, dc);
    CommitBase(w, ops, j, dc);
    NeverReturns(w, ops, i, i, j, dc);
  }

  /** Once a commit has moved the index away from a version, it never points to that version again:
      two states of a run with a commit of the file between them have different latest versions. */
  lemma NeverReturns(w: World, ops: seq<Op>, m: nat, i: nat, n: nat, dc: Name)
    requires LegalRun(w, ops) && m <= i < n <= |ops| && Installs(w, At(w, ops, i), ops[i], dc)
    ensures Latest(At(w, ops, m), dc) != Latest(At(w, ops, n), dc)
  {
    hide LegalRun, At, HistoryOf, Installs;
    VersionsBetween(w, ops, i, n, dc);
    HistoryPrefix(w, ops, m, i, dc);
    ChainCompleteDistinct(w, ops, n, dc);
    NeverCommitted(w, ops, m, dc);
    NeverCommitted(w, ops, n, dc);
    LatestAt(w, ops, m, dc);
    LatestAt(w, ops, n, dc);
  }

  /** The index moves by commits of the file only. So the latest version is the same in two states of
      a run exactly when the file was not committed between them. */
  lemma IndexMovesExact(w: World, ops: seq<Op>, m: nat, n: nat, dc: Name)
    requires LegalRun(w, ops) && m <= n <= |ops|
    ensures Latest(At(w, ops, m), dc) == Latest(At(w, ops, n), dc)
       <==> forall i :: m <= i < n ==> !Installs(w, At(w, ops, i), ops[i], dc)
  {
    hide Legal, At, HistoryOf, Installs;
    if i :| m <= i < n && Installs(w, At(w, ops, i), ops[i], dc) {
      NeverReturns(w, ops, m, i, n, dc);
    } else {
      NothingInstalled(w, ops, m, n, dc);
      LatestAt(w, ops, m, dc);
      LatestAt(w, ops, n, dc);
    }
  }

  lemma {:induction false} NothingInstalled(w: World, ops: seq<Op>, m: nat, n: nat, dc: Name)
    requires Shaped(ops) && m <= n <= |ops|
    requires forall i :: m <= i < n ==> !Installs(w, At(w, ops, i), ops[i], dc)
    ensures HistoryOf(w, ops, m, dc) == HistoryOf(w, ops, n, dc)
    decreases n
  {
    hide At, Installs, Extended;
    if m == n {
    } else {
      NothingInstalled(w, ops, m, n - 1, dc);
    }
  }

  lemma LatestAt(w: World, ops: seq<Op>, n: nat, dc: Name)
    requires LegalRun(w, ops) && n <= |ops|
    ensures var vs := HistoryOf(w, ops, n, dc).versions;
            Latest(At(w, ops, n), dc) == if vs == [] then [] else vs[|vs| - 1]
  {
    hide Legal, At, HistoryOf, Tracks;
    HistoryTracked(w, ops, n, dc);
    LatestIsLast(w, At(w, ops, n), dc, HistoryOf(w, ops, n, dc));
  }

  lemma VersionsBetween(w: World, ops: seq<Op>, i: nat, j: nat, dc: Name)
    requires LegalRun(w, ops) && i < j <= |ops| && Installs(w, At(w, ops, i), ops[i], dc)
    ensures Shaped(ops)
    ensures |HistoryOf(w, ops, i, dc).versions| < |HistoryOf(w, ops, j, dc).versions|
    ensures HistoryOf(w, ops, i, dc).versions <= HistoryOf(w, ops, j, dc).versions
  {
    hide Legal, At, Step, Extended;
    HistoryPrefix(w, ops, i + 1, j, dc);
    ExtendedGrows(w, At(w, ops, i), ops[i], HistoryOf(w, ops, i, dc));
  }

  lemma CommitBase(w: World, ops: seq<Op>, i: nat, dc: Name)
    requires LegalRun(w, ops) && i < |ops| && Installs(w, At(w, ops, i), ops[i], dc)
    ensures ops[i].Modify? && ops[i].inodeHash == Latest(At(w, ops, i), dc)
    ensures var vs := HistoryOf(w, ops, i, dc).versions;
            Latest(At(w, ops, i), dc) == if vs == [] then [] else vs[|vs| - 1]
  {
    hide Legal, At, HistoryOf, Tracks;
    BaseIsLatest(w, At(w, ops, i), ops[i]);
    LatestAt(w, ops, i, dc);
  }

  lemma ExtendedGrows(w: World, st: Store, op: Op, h: History)
    requires op.Modify? && op.descs != []
    ensures |Extended(w, st, op, h).versions| == |h.versions| + 1 && h.versions <= Extended(w, st, op, h).versions
  {
  }

  lemma ChainCompleteDistinct(w: World, ops: seq<Op>, n: nat, dc: Name)
    requires LegalRun(w, ops) && n <= |ops|
    ensures var vs := HistoryOf(w, ops, n, dc).versions;
            forall i, j :: 0 <= i < j < |vs| ==> vs[i] != vs[j]
  {
    hide Legal, At, HistoryOf, Readable, WellFormed, Walk;
    if HistoryOf(w, ops, n, dc).versions != [] {
      ChainComplete(w, ops, n, dc);
    }
  }

  lemma BaseIsLatest(w: World, st: Store, op: Op)
    requires op.Modify? && op.descs != [] && Step(w, st, op).ret == NO_ERR
    ensures op.inodeHash == Latest(st, op.dc)
  {
    hide BaseOf, Batch, WriteAll;
  }

  lemma LatestIsLast(w: World, st: Store, dc: Name, h: History)
    requires Tracks(w, st, dc, h)
    ensures Latest(st, dc) == if h.versions == [] then [] else h.versions[|h.versions| - 1]
  {
  }

  /** The block map over any number of sessions, as written. The map a commit publishes is the indexed
      update of the map before it exactly when the flush carries the blocks directly behind that map
      and no others; and the size it records covers the map exactly when it is the first commit. */
  lemma CommitUpdatesMap(w: World, ops: seq<Op>, n: nat, dc: Name)
    requires LegalRun(w, ops) && n < |ops| && Installs(w, At(w, ops, n), ops[n], dc)
    requires ops[n].Modify? && |HistoryOf(w, ops, n + 1, dc).blocks| * w.bs < Pow256(SIZE_LEN)
    ensures BaseOf(At(w, ops, n), dc, ops[n].aesKey).Some?
    ensures var m := BaseOf(At(w, ops, n), dc, ops[n].aesKey).value.entries;
            var cap, v := CapsuleOf(At(w, ops, n + 1), dc), Latest(At(w, ops, n + 1), dc);
            var descs := ops[n].descs;
            && m == HistoryOf(w, ops, n, dc).blocks
            && Readable(cap, v) && |Entries(cap, v)| == |m| + |descs| && m <= Entries(cap, v)
            && (IndexedUpdate(m, FlushSlots(w, descs), Entries(cap, v)[|m|..], Entries(cap, v)) <==>
                  forall j :: 0 <= j < |descs| ==> FlushSlots(w, descs)[j] == |m| + j)
            && (RecordedSize(cap, v) == |Entries(cap, v)| * w.bs <==> HistoryOf(w, ops, n, dc).versions == [])
  {
    hide Tracks, Legal, Step, At, HistoryOf, IndexedUpdate, Inv, RecordedSize, Pow256, Extended, Readable, Entries,
         BaseOf, FlushSlots;
    var st, op, h := At(w, ops, n), ops[n], HistoryOf(w, ops, n, dc);
    HistoryTracked(w, ops, n, dc);
    StoreInvariant(w, ops, n);
    AtNext(w, ops, n);
    HistoryNext(w, ops, n, dc);
    LegalAt(w, ops, n);
    CommitMap(w, st, op, h);
    BlocksDistinct(w, ops, n + 1, dc);
    var cap, v := CapsuleOf(At(w, ops, n + 1), dc), Latest(At(w, ops, n + 1), dc);
    MapParts(cap, v);
    MapExact(w, BaseOf(st, dc, op.aesKey).value.entries, op.descs, Entries(cap, v));
  }

  lemma MapExact(w: World, m: seq<Hash>, descs: seq<Desc>, e: seq<Hash>)
    requires w.bs > 0 && m <= e && |e| == |m| + |descs|
    requires forall i, j :: 0 <= i < j < |e| ==> e[i] != e[j]
    ensures IndexedUpdate(m, FlushSlots(w, descs), e[|m|..], e) <==>
              forall j :: 0 <= j < |descs| ==> FlushSlots(w, descs)[j] == |m| + j
    ensures |descs| * w.bs == |e| * w.bs <==> m == []
  {
    hide FlushSlots, IndexedUpdate;
    assert e == m + e[|m|..];
    forall h | h in m
      ensures h !in e[|m|..]
    {
    }
    AppendExact(m, FlushSlots(w, descs), e[|m|..]);
    Scaled(w.bs, |m|, |descs|);
  }

  lemma Scaled(bs: nat, m: nat, n: nat)
    requires bs > 0
    ensures n * bs == (m + n) * bs <==> m == 0
  {
    assert (m + n) * bs == m * bs + n * bs;
    assert m > 0 ==> (m - 1) * bs >= 0;
    assert (m - 1) * bs == m * bs - bs;
  }

  lemma BlocksDistinct(w: World, ops: seq<Op>, n: nat, dc: Name)
    requires LegalRun(w, ops) && n <= |ops|
    ensures var bs := HistoryOf(w, ops, n, dc).blocks;
            forall i, j :: 0 <= i < j < |bs| ==> bs[i] != bs[j]
  {
    hide Legal, At, HistoryOf, Readable, WellFormed, Walk, Tracks;
    if HistoryOf(w, ops, n, dc).versions != [] {
      ChainComplete(w, ops, n, dc);
    } else {
      HistoryTracked(w, ops, n, dc);
      NoBlocks(w, At(w, ops, n), dc, HistoryOf(w, ops, n, dc));
    }
  }

  lemma NoBlocks(w: World, st: Store, dc: Name, h: History)
    requires Tracks(w, st, dc, h) && h.versions == []
    ensures h.blocks == []
  {
  }

  /** One commit on a tracked file: the map it publishes and the size it records. */
  lemma CommitMap(w: World, st: Store, op: Op, h: History)
    requires Fine(w) && Inv(w, st) && op.Modify? && op.descs != [] && Legal(w, st, op)
    requires Installs(w, st, op, op.dc) && Tracks(w, st, op.dc, h)
    requires |Extended(w, st, op, h).blocks| * w.bs < Pow256(SIZE_LEN)
    ensures BaseOf(st, op.dc, op.aesKey).Some?
    ensures var cap, v := CapsuleOf(Step(w, st, op).st, op.dc), Latest(Step(w, st, op).st, op.dc);
            && BaseOf(st, op.dc, op.aesKey).value.entries == h.blocks
            && Readable(cap, v) && Entries(cap, v) == Extended(w, st, op, h).blocks
            && h.blocks <= Entries(cap, v) && |Entries(cap, v)| == |h.blocks| + |op.descs|
            && RecordedSize(cap, v) == |op.descs| * w.bs
            && (h.versions == [] <==> h.blocks == [])
  {
    hide Inv, ModifyStep, DataRecords, NoCollision, Batch, BaseOf, Chained, HoldsKeys, RecordedSize, Pow256,
         LittleEndian, Rounds;
    var dc, r := op.dc, Step(w, st, op);
    ModifyPublishes(w, st, dc, op.descs, op.inodeHash, op.aesKey, op.clock, op.ok);
    BaseTracked(w, st, dc, h, op.aesKey);
    var b, v, cap := BaseOf(st, dc, op.aesKey).value, Latest(r.st, dc), r.st.capsules[dc];
    StartLe(w.bs, |op.descs|, |h.blocks| + |op.descs|);
    SizeField(w, cap, v, |op.descs| * w.bs, b.key);
  }

  function FlushSlots(w: World, descs: seq<Desc>): (r: seq<nat>)
    ensures |r| == |descs|
  {
    seq(|descs|, j requires 0 <= j < |descs| => if w.bs == 0 then 0 else BlockIndex(w.bs, descs[j].offset))
  }

  /** The file key. The key a client gets for version `i` is the first committer's key after `i`
      rounds of encrypt-and-truncate; only the first version is sure to give the key that was issued. */
  lemma KeyRounds(w: World, ops: seq<Op>, n: nat, dc: Name, i: nat)
    requires LegalRun(w, ops) && n <= |ops| && i < |HistoryOf(w, ops, n, dc).versions|
    ensures var h, cap := HistoryOf(w, ops, n, dc), CapsuleOf(At(w, ops, n), dc);
            && h.versions[i] in cap && InodeShape(cap[h.versions[i]])
            && IssuedKey(w, cap, h.versions[i]) == Rounds(w, h.key, i)
            && (i == 0 ==> IssuedKey(w, cap, h.versions[i]) == h.key)
  {
    hide Legal, At, HistoryOf, MapIsLog, Chained;
    HistoryTracked(w, ops, n, dc);
  }

  /** All versions give the issued key exactly when it is a fixed point of encrypt-and-truncate. */
  lemma {:induction false} KeyStableExact(w: World, key: seq<byte>)
    requires Fine(w)
    ensures (forall i: nat :: Rounds(w, key, i) == key) <==> FixedKey(w, key)
  {
    FirstRound(w, key);
    if Rounds(w, key, 1) == key {
      forall i: nat
        ensures Rounds(w, key, i) == key
      {
        FixedPoint(w, key, i);
      }
    }
  }

  /** On runs: once a file has two versions, all of them hand out the key it was created with exactly
      when that key is a fixed point of encrypt-and-truncate under the middleware's key. */
  lemma RunKeysExact(w: World, ops: seq<Op>, n: nat, dc: Name)
    requires LegalRun(w, ops) && n <= |ops| && |HistoryOf(w, ops, n, dc).versions| >= 2
    ensures var h, cap := HistoryOf(w, ops, n, dc), CapsuleOf(At(w, ops, n), dc);
            && (forall i :: 0 <= i < |h.versions| ==> h.versions[i] in cap && InodeShape(cap[h.versions[i]]))
            && ((forall i :: 0 <= i < |h.versions| ==> IssuedKey(w, cap, h.versions[i]) == h.key) <==>
                  FixedKey(w, h.key))
  {
    hide LegalRun, At, HistoryOf, Rounds, FixedKey, IssuedKey, InodeShape;
    RunFacts(w, ops);
    var h, cap := HistoryOf(w, ops, n, dc), CapsuleOf(At(w, ops, n), dc);
    forall i | 0 <= i < |h.versions|
      ensures h.versions[i] in cap && InodeShape(cap[h.versions[i]])
      ensures IssuedKey(w, cap, h.versions[i]) == Rounds(w, h.key, i)
    {
      KeyRounds(w, ops, n, dc, i);
    }
    KeyStableExact(w, h.key);
    FirstRound(w, h.key);
    if forall i :: 0 <= i < |h.versions| ==> IssuedKey(w, cap, h.versions[i]) == h.key {
      assert IssuedKey(w, cap, h.versions[1]) == Rounds(w, h.key, 1);
    }
    if FixedKey(w, h.key) {
      assert forall i: nat :: Rounds(w, h.key, i) == h.key;
      assert forall i :: 0 <= i < |h.versions| ==> IssuedKey(w, cap, h.versions[i]) == Rounds(w, h.key, i);
    }
  }

  ghost predicate FixedKey(w: World, key: seq<byte>) {
    var c := w.cipher.enc(w.mwKey, key);
    AES_KEY_LEN <= |c| && c[..AES_KEY_LEN] == key
  }

  lemma FirstRound(w: World, key: seq<byte>)
    requires Fine(w)
    ensures Rounds(w, key, 1) == key <==> FixedKey(w, key)
  {
    RoundsStep(w, key, 0);
  }

  lemma {:induction false} FixedPoint(w: World, key: seq<byte>, i: nat)
    requires Fine(w) && Rounds(w, key, 1) == key
    ensures Rounds(w, key, i) == key
  {
    if i == 0 {
    } else {
      FixedPoint(w, key, i - 1);
      assert Rounds(w, key, 1) == Rounds(w, Rounds(w, key, i - 1), 1);
    }
  }
}

/** One commit: what a single `Modify` or `CreateNew` keeps, hides and publishes. */
module Commits {
  import opened Bytes
  import opened BlockmapCodec
  import opened Ciphers
  import opened Capsules

  /** What the base of a batch mentions is stored. */
  ghost predicate BaseOk(dc: Name, cap: Capsule, latest: Name, b: Base) {
    && (latest == [] || Has(cap, Inode, latest))
    && (b.bm == [] || Has(cap, BlockMap, b.bm))
    && (b.data == [] || Has(cap, DataBlock, b.data))
    && (forall i :: 0 <= i < |b.entries| ==> Has(cap, DataBlock, b.entries[i]))
    && |b.key| == AES_KEY_LEN
  }

  /** In a well-formed store a request for a known file always finds its base. */
  lemma BaseFound(w: World, st: Store, dc: Name, aesKey: seq<byte>)
    requires Inv(w, st) && |aesKey| == AES_KEY_LEN
    ensures Parses(st, dc)
    ensures BaseOf(st, dc, aesKey).Some?
    ensures BaseOk(dc, CapsuleOf(st, dc), Latest(st, dc), BaseOf(st, dc, aesKey).value)
  {
    if dc in st.capsules {
      NamesAreHashes(w, dc, st.capsules[dc]);
    }
    if Latest(st, dc) != [] {
      var cap := st.capsules[dc];
      assert WellFormed(dc, cap, cap[st.index[dc]]);
    }
  }

  lemma NamesAreHashes(w: World, dc: Name, cap: Capsule)
    requires Closed(w, dc, cap)
    ensures forall n :: n in cap ==> |n| == HASHLEN
  {
    hide WellFormed;
    forall n | n in cap
      ensures |n| == HASHLEN
    {
      assert w.nameOf(cap[n]) == n;
    }
  }

  /** Each data record of a batch is supported by the ones before it. */
  lemma {:induction false} DataSupported(w: World, dc: Name, cap: Capsule, first: Name, descs: seq<Desc>,
                                         clock: nat -> int, rs: seq<Record>, n: nat)
    requires |descs| <= |rs| && rs[..|descs|] == DataRecords(w, first, descs, clock)
    requires NoCollision(w, dc, cap, rs) && LinksBack(dc, cap, DataBlock, first) && n <= |descs|
    ensures Supported(w, dc, cap, rs, n)
  {
    hide Added, NoCollision, DataRecords;
    if n == 0 {
    } else {
      DataSupported(w, dc, cap, first, descs, clock, rs, n - 1);
      AddedHas(w, dc, cap, rs, n - 1);
      DataRecordAt(w, first, descs, clock, n - 1);
      var data := DataRecords(w, first, descs, clock);
      assert rs[n - 1] == data[n - 1];
      if n > 1 {
        DataRecordAt(w, first, descs, clock, n - 2);
        assert rs[n - 2] == data[n - 2];
      }
    }
  }

  /** The push order data, block map, inode keeps every prefix of a batch supported. */
  lemma BatchSupported(w: World, dc: Name, cap: Capsule, latest: Name, b: Base, descs: seq<Desc>, clock: nat -> int,
                       n: nat)
    requires Fine(w) && descs != [] && BaseOk(dc, cap, latest, b) && n <= |descs| + 2
    requires NoCollision(w, dc, cap, Batch(w, dc, latest, b, descs, clock))
    ensures Supported(w, dc, cap, Batch(w, dc, latest, b, descs, clock), n)
  {
    hide WellFormed, NoCollision, InodeRecord, Added;
    var rs, k := Batch(w, dc, latest, b, descs, clock), |descs|;
    var data := DataRecords(w, Or(b.data, dc), descs, clock);
    assert rs[..k] == data;
    if n <= k {
      DataSupported(w, dc, cap, Or(b.data, dc), descs, clock, rs, n);
    } else {
      BatchSupported(w, dc, cap, latest, b, descs, clock, n - 1);
      if n == k + 1 {
        MapSupported(w, dc, cap, b, descs, clock, rs);
      } else {
        InodeSupported(w, dc, cap, latest, b, k, clock(k + 1), rs);
      }
    }
  }

  lemma InodeSupported(w: World, dc: Name, cap: Capsule, latest: Name, b: Base, k: nat, time: int, rs: seq<Record>)
    requires Fine(w) && |rs| == k + 2 && NoCollision(w, dc, cap, rs)
    requires |b.key| == AES_KEY_LEN && (latest == [] || Has(cap, Inode, latest))
    requires rs[k].kind == BlockMap && rs[k + 1] == InodeRecord(w, latest, dc, b, k, w.nameOf(rs[k]), time)
    ensures WellFormed(dc, Added(w, cap, rs, k + 1), rs[k + 1])
  {
    hide Added;
    AddedHas(w, dc, cap, rs, k + 1);
    assert |w.cipher.enc(w.mwKey, b.key)| == AES_KEY_LEN + AES_PAD_LEN;
  }

  lemma MapSupported(w: World, dc: Name, cap: Capsule, b: Base, descs: seq<Desc>, clock: nat -> int, rs: seq<Record>)
    requires descs != [] && |descs| < |rs| && NoCollision(w, dc, cap, rs)
    requires b.bm == [] || Has(cap, BlockMap, b.bm)
    requires forall i :: 0 <= i < |b.entries| ==> Has(cap, DataBlock, b.entries[i])
    requires rs[..|descs|] == DataRecords(w, Or(b.data, dc), descs, clock)
    requires rs[|descs|] == MapRecord(w, dc, b, DataRecords(w, Or(b.data, dc), descs, clock), clock(|descs|))
    ensures WellFormed(dc, Added(w, cap, rs, |descs|), rs[|descs|])
  {
    hide Added, NoCollision, DataRecords;
    var k, data := |descs|, DataRecords(w, Or(b.data, dc), descs, clock);
    var a := Added(w, cap, rs, k);
    AddedHas(w, dc, cap, rs, k);
    forall j | 0 <= j < k
      ensures Has(a, DataBlock, w.nameOf(data[j]))
    {
      DataRecordAt(w, Or(b.data, dc), descs, clock, j);
      assert rs[j] == data[j];
    }
    var m := b.entries + NamesOf(w, data);
    ParseUndoesSerialise(m);
    forall i | 0 <= i < |m|
      ensures Has(a, DataBlock, m[i])
    {
    }
  }

  /** The assumption on one request: a block to write, a 16-byte key, no hash collision in its batch. */
  ghost predicate LegalModify(w: World, st: Store, dc: Name, descs: seq<Desc>, aesKey: seq<byte>, clock: nat -> int) {
    && descs != [] && |aesKey| == AES_KEY_LEN
    && var b := BaseOf(st, dc, aesKey);
       b.Some? ==> NoCollision(w, dc, CapsuleOf(st, dc), Batch(w, dc, Latest(st, dc), b.value, descs, clock))
  }

  /** What is on the server when the writes of a supported batch stop, wherever that is. */
  lemma BatchWritten(w: World, st: Store, dc: Name, rs: seq<Record>, ok: nat -> bool)
    requires Inv(w, st) && NoCollision(w, dc, CapsuleOf(st, dc), rs)
    requires forall n :: 0 <= n <= |rs| ==> Supported(w, dc, CapsuleOf(st, dc), rs, n)
    ensures var p := WriteAll(w, st.capsules, dc, rs, ok);
            && (forall d :: d in p.caps ==> Closed(w, d, p.caps[d]))
            && (forall d :: d in p.caps <==> d in st.capsules)
            && (forall d :: d in st.capsules ==> Extends(st.capsules[d], p.caps[d]))
            && (forall d :: d in st.capsules && d != dc ==> p.caps[d] == st.capsules[d])
            && (dc in st.capsules ==> p.caps[dc] == Added(w, st.capsules[dc], rs, p.done))
            && (p.done == |rs| && rs != [] ==> dc in st.capsules)
  {
    hide Closed, Supported, NoCollision, WriteAll, Added;
    assert forall i :: 0 <= i < |rs| ==> w.nameOf(rs[i]) != dc by { NamesApart(w, dc, CapsuleOf(st, dc), rs); }
    WriteAllAdds(w, st.capsules, dc, rs, ok);
    if dc in st.capsules {
      var p := WriteAll(w, st.capsules, dc, rs, ok);
      AddedClosed(w, dc, st.capsules[dc], rs, p.done);
      AddedHas(w, dc, st.capsules[dc], rs, p.done);
    }
  }

  lemma NamesApart(w: World, dc: Name, cap: Capsule, rs: seq<Record>)
    requires NoCollision(w, dc, cap, rs)
    ensures forall i :: 0 <= i < |rs| ==> w.nameOf(rs[i]) != dc
  {
  }

  /** The batch of a legal request, as one value with what is known about it. */
  lemma LegalBatch(w: World, st: Store, dc: Name, descs: seq<Desc>, aesKey: seq<byte>, clock: nat -> int)
    requires Fine(w) && Inv(w, st) && LegalModify(w, st, dc, descs, aesKey, clock)
    ensures BaseOf(st, dc, aesKey).Some?
    ensures var rs := Batch(w, dc, Latest(st, dc), BaseOf(st, dc, aesKey).value, descs, clock);
            && NoCollision(w, dc, CapsuleOf(st, dc), rs)
            && forall n :: 0 <= n <= |rs| ==> Supported(w, dc, CapsuleOf(st, dc), rs, n)
  {
    hide Inv, BaseOk, Batch, NoCollision, Supported;
    BaseFound(w, st, dc, aesKey);
    var b := BaseOf(st, dc, aesKey).value;
    forall n | 0 <= n <= |descs| + 2 {
      BatchSupported(w, dc, CapsuleOf(st, dc), Latest(st, dc), b, descs, clock, n);
    }
  }

  /** Wherever a `Modify` stops, the store stays well-formed and no record is lost or changed. */
  lemma ModifyKeepsInv(w: World, st: Store, dc: Name, descs: seq<Desc>, inodeHash: Name, aesKey: seq<byte>,
                       clock: nat -> int, ok: nat -> bool)
    requires Fine(w) && Inv(w, st) && LegalModify(w, st, dc, descs, aesKey, clock)
    ensures var r := ModifyStep(w, st, dc, descs, inodeHash, aesKey, clock, ok);
            Inv(w, r.st) && StoreExtends(st, r.st)
  {
    hide Closed, Supported, NoCollision, WriteAll, BaseOf, Added;
    LegalBatch(w, st, dc, descs, aesKey, clock);
    var b, latest := BaseOf(st, dc, aesKey).value, Latest(st, dc);
    var rs := Batch(w, dc, latest, b, descs, clock);
    BatchWritten(w, st, dc, rs, ok);
    if inodeHash == latest && WriteAll(w, st.capsules, dc, rs, ok).done == |rs| {
      LastRecordStored(w, st, dc, rs);
    }
  }

  lemma LastRecordStored(w: World, st: Store, dc: Name, rs: seq<Record>)
    requires dc in st.capsules && rs != [] && NoCollision(w, dc, st.capsules[dc], rs)
    ensures var caps := st.capsules[dc := Added(w, st.capsules[dc], rs, |rs|)];
            Lookup(Store(st.index, caps), dc, w.nameOf(rs[|rs| - 1])) == Some(rs[|rs| - 1])
  {
    AddedHas(w, dc, st.capsules[dc], rs, |rs|);
  }

  /** Atomicity. A failed request changes the latest version of no file. A successful one changes
      that of its own file only, to the last record of its batch; it succeeds exactly when it was
      based on the version that was the latest, its file exists and every write went through. Either
      way its file is in the index afterwards: a request for an unknown file fails but leaves an entry
      with the empty name behind. */
  lemma ModifyAtomic(w: World, st: Store, dc: Name, descs: seq<Desc>, inodeHash: Name, aesKey: seq<byte>,
                     clock: nat -> int, ok: nat -> bool)
    requires Fine(w) && Inv(w, st) && LegalModify(w, st, dc, descs, aesKey, clock)
    ensures var r := ModifyStep(w, st, dc, descs, inodeHash, aesKey, clock, ok);
            && (forall d :: d != dc || r.ret != NO_ERR ==> Latest(r.st, d) == Latest(st, d))
            && (forall d :: d != dc ==> CapsuleOf(r.st, d) == CapsuleOf(st, d))
            && (r.ret == NO_ERR <==>
                  && inodeHash == Latest(st, dc) && dc in st.capsules
                  && forall i :: 0 <= i < |descs| + 2 ==> ok(i))
            && (r.ret == NO_ERR ==> Latest(r.st, dc) != [])
            && dc in r.st.index && (forall d :: d != dc ==> (d in r.st.index <==> d in st.index))
            && (dc !in st.index && dc !in st.capsules ==> r.ret != NO_ERR && r.st.index[dc] == [])
  {
    hide Inv, Closed, Supported, NoCollision, WriteAll, BaseOf, Added, Batch, Extends;
    LegalBatch(w, st, dc, descs, aesKey, clock);
    var rs := Batch(w, dc, Latest(st, dc), BaseOf(st, dc, aesKey).value, descs, clock);
    BatchWritten(w, st, dc, rs, ok);
    if dc in st.capsules {
      WriteAllDone(w, st.capsules, dc, rs, ok);
    }
  }

  /** How a request fails. One that does not name the latest version is refused before it writes. One
      that does, on an existing file, stores the records before its first failing write and no other. */
  lemma ModifyStopsAt(w: World, st: Store, dc: Name, descs: seq<Desc>, inodeHash: Name, aesKey: seq<byte>,
                      clock: nat -> int, ok: nat -> bool, k: nat)
    requires Fine(w) && Inv(w, st) && LegalModify(w, st, dc, descs, aesKey, clock)
    ensures BaseOf(st, dc, aesKey).Some?
    ensures var r := ModifyStep(w, st, dc, descs, inodeHash, aesKey, clock, ok);
            var rs := Batch(w, dc, Latest(st, dc), BaseOf(st, dc, aesKey).value, descs, clock);
            && (inodeHash != Latest(st, dc) ==> r.ret == ERR_NOT_FOUND && r.st.capsules == st.capsules)
            && (inodeHash == Latest(st, dc) && dc in st.capsules
                && k < |rs| && !ok(k) && (forall i :: 0 <= i < k ==> ok(i))
                ==> r.ret == ERR_IO && r.st.capsules == st.capsules[dc := Added(w, st.capsules[dc], rs, k)])
            && (dc !in st.capsules ==> r.ret < 0 && r.st.capsules == st.capsules)
  {
    hide Inv, Closed, Supported, NoCollision, WriteAll, BaseOf, Added, Batch, Extends;
    LegalBatch(w, st, dc, descs, aesKey, clock);
    var rs := Batch(w, dc, Latest(st, dc), BaseOf(st, dc, aesKey).value, descs, clock);
    NamesApart(w, dc, CapsuleOf(st, dc), rs);
    WriteAllAdds(w, st.capsules, dc, rs, ok);
    if dc in st.capsules && k < |rs| && !ok(k) && forall i :: 0 <= i < k ==> ok(i) {
      WriteAllStopsAt(w, st.capsules, dc, rs, ok, k);
    }
  }

  lemma {:induction false} WriteAllStopsAt(w: World, caps: map<Name, Capsule>, dc: Name, rs: seq<Record>,
                                           ok: nat -> bool, k: nat)
    requires dc in caps && k < |rs| && !ok(k) && forall i :: 0 <= i < k ==> ok(i)
    ensures WriteAll(w, caps, dc, rs, ok).done == k
    decreases |rs|
  {
    var n := |rs| - 1;
    if k == n {
      WriteAllDone(w, caps, dc, rs[..n], ok);
    } else {
      WriteAllStopsAt(w, caps, dc, rs[..n], ok, k);
    }
  }

  lemma {:induction false} WriteAllDone(w: World, caps: map<Name, Capsule>, dc: Name, rs: seq<Record>, ok: nat -> bool)
    requires dc in caps
    ensures dc in WriteAll(w, caps, dc, rs, ok).caps
    ensures WriteAll(w, caps, dc, rs, ok).done == |rs| <==> forall i :: 0 <= i < |rs| ==> ok(i)
    decreases |rs|
  {
    if rs == [] {
    } else {
      WriteAllDone(w, caps, dc, rs[..|rs| - 1], ok);
    }
  }

  // ---- the file a version stands for ----

  ghost predicate Readable(cap: Capsule, v: Name) {
    && v in cap && InodeShape(cap[v])
    && cap[v].prev[1] in cap && BlockMapShape(cap[cap[v].prev[1]])
    && forall i :: 0 <= i < |Entries(cap, v)| ==> Entries(cap, v)[i] in cap
  }

  ghost function Entries(cap: Capsule, v: Name): (m: seq<Hash>)
    requires v in cap && InodeShape(cap[v]) && cap[v].prev[1] in cap && BlockMapShape(cap[cap[v].prev[1]])
  {
    Parse(cap[cap[v].prev[1]].payload)
  }

  lemma MapParts(cap: Capsule, v: Name)
    requires Readable(cap, v)
    ensures v in cap && InodeShape(cap[v]) && cap[v].prev[1] in cap && BlockMapShape(cap[cap[v].prev[1]])
    ensures Entries(cap, v) == Parse(cap[cap[v].prev[1]].payload)
  {
  }

  /** The (encrypted) block contents reached through a version's block map. */
  ghost function VersionBlocks(cap: Capsule, v: Name): (r: seq<seq<byte>>)
    requires Readable(cap, v)
    ensures |r| == |Entries(cap, v)|
  {
    var m := Entries(cap, v);
    seq(|m|, i requires 0 <= i < |m| => cap[m[i]].payload)
  }

  ghost function RecordedSize(cap: Capsule, v: Name): (n: nat)
    requires v in cap && InodeShape(cap[v])
  {
    FromLittleEndian(cap[v].payload[..SIZE_LEN])
  }

  /** The file key a client gets for a version. */
  ghost function IssuedKey(w: World, cap: Capsule, v: Name): (k: seq<byte>)
    requires v in cap && InodeShape(cap[v])
  {
    w.cipher.dec(w.mwKey, cap[v].payload[SIZE_LEN..])
  }

  lemma SizeField(w: World, cap: Capsule, v: Name, size: nat, key: seq<byte>)
    requires Fine(w) && v in cap && InodeShape(cap[v]) && size < Pow256(SIZE_LEN)
    requires cap[v].payload == LittleEndian(size, SIZE_LEN) + w.cipher.enc(w.mwKey, key)
    ensures RecordedSize(cap, v) == size && IssuedKey(w, cap, v) == key
  {
    hide LittleEndian, FromLittleEndian, Pow256;
    LittleEndianRoundTrip(size, SIZE_LEN);
    assert cap[v].payload[..SIZE_LEN] == LittleEndian(size, SIZE_LEN);
    assert cap[v].payload[SIZE_LEN..] == w.cipher.enc(w.mwKey, key);
  }

  lemma ClosedReadable(w: World, dc: Name, cap: Capsule, v: Name)
    requires Closed(w, dc, cap) && Has(cap, Inode, v)
    ensures Readable(cap, v)
  {
    assert WellFormed(dc, cap, cap[v]);
    assert WellFormed(dc, cap, cap[cap[v].prev[1]]);
  }

  /** A version that survives unchanged stands for the same file. */
  lemma ReadableExtends(w: World, a: Capsule, b: Capsule, v: Name)
    requires Extends(a, b) && Readable(a, v)
    ensures Readable(b, v)
    ensures Entries(b, v) == Entries(a, v) && VersionBlocks(b, v) == VersionBlocks(a, v)
    ensures RecordedSize(b, v) == RecordedSize(a, v) && IssuedKey(w, b, v) == IssuedKey(w, a, v)
  {
    assert Entries(b, v) == Entries(a, v);
  }

  /** The record `v` as the inode record of a version that a batch of `descs` publishes on base `b`. */
  ghost predicate Publishes(w: World, dc: Name, old': Capsule, latest: Name, b: Base, descs: seq<Desc>,
                            clock: nat -> int, cap: Capsule, v: Name)
    requires descs != []
  {
    var data := DataRecords(w, Or(b.data, dc), descs, clock);
    && Extends(old', cap) && Has(cap, Inode, v) && Readable(cap, v)
    && Entries(cap, v) == b.entries + NamesOf(w, data)
    && (forall j :: 0 <= j < |data| ==> w.nameOf(data[j]) in cap && cap[w.nameOf(data[j])] == data[j])
    && cap[v].prev[0] == Or(latest, dc)
    && Has(cap, BlockMap, cap[v].prev[1]) && cap[cap[v].prev[1]].prev[0] == Or(b.bm, dc)
    && cap[cap[v].prev[1]].prev[1] == w.nameOf(data[|data| - 1])
    && cap[v].payload == LittleEndian(|descs| * w.bs, SIZE_LEN) + w.cipher.enc(w.mwKey, b.key)
  }

  lemma BatchPublishes(w: World, dc: Name, cap: Capsule, latest: Name, b: Base, descs: seq<Desc>, clock: nat -> int,
                       v: Name)
    requires descs != []
    requires var rs := Batch(w, dc, latest, b, descs, clock);
             && NoCollision(w, dc, cap, rs) && Closed(w, dc, Added(w, cap, rs, |rs|)) && v == w.nameOf(rs[|rs| - 1])
    ensures var rs := Batch(w, dc, latest, b, descs, clock);
            Publishes(w, dc, cap, latest, b, descs, clock, Added(w, cap, rs, |rs|), v)
  {
    hide Closed, NoCollision, Added, DataRecords, WellFormed;
    var rs, n := Batch(w, dc, latest, b, descs, clock), |descs|;
    var data := DataRecords(w, Or(b.data, dc), descs, clock);
    AddedHas(w, dc, cap, rs, |rs|);
    var a := Added(w, cap, rs, |rs|);
    assert a[w.nameOf(rs[n + 1])] == rs[n + 1] && a[w.nameOf(rs[n])] == rs[n];
    ParseUndoesSerialise(b.entries + NamesOf(w, data));
    ClosedReadable(w, dc, a, v);
    assert forall j :: 0 <= j < n ==> rs[j] == data[j];
  }

  /** What a successful `Modify` publishes: the old blocks followed by all the flushed ones, a size
      that counts only this flush, and the key it took from the base. */
  lemma ModifyPublishes(w: World, st: Store, dc: Name, descs: seq<Desc>, inodeHash: Name, aesKey: seq<byte>,
                        clock: nat -> int, ok: nat -> bool)
    requires Fine(w) && Inv(w, st) && LegalModify(w, st, dc, descs, aesKey, clock)
    requires ModifyStep(w, st, dc, descs, inodeHash, aesKey, clock, ok).ret == NO_ERR
    ensures BaseOf(st, dc, aesKey).Some? && dc in st.capsules
    ensures var r := ModifyStep(w, st, dc, descs, inodeHash, aesKey, clock, ok);
            && dc in r.st.capsules
            && Publishes(w, dc, st.capsules[dc], Latest(st, dc), BaseOf(st, dc, aesKey).value, descs, clock,
                         r.st.capsules[dc], Latest(r.st, dc))
  {
    hide Inv, Closed, Supported, NoCollision, WriteAll, BaseOf, Added, Publishes;
    LegalBatch(w, st, dc, descs, aesKey, clock);
    ModifyAtomic(w, st, dc, descs, inodeHash, aesKey, clock, ok);
    var b := BaseOf(st, dc, aesKey).value;
    var rs := Batch(w, dc, Latest(st, dc), b, descs, clock);
    BatchWritten(w, st, dc, rs, ok);
    BatchPublishes(w, dc, st.capsules[dc], Latest(st, dc), b, descs, clock, w.nameOf(rs[|rs| - 1]));
  }

  /** The version `v'`, which pushed `n` data blocks, links back to the version `v`: its inode to that
      inode, its block map to that block map, its first data block to the last one of that version.
      The links of a first version go to the META record. */
  ghost predicate LinksBackTo(dc: Name, cap: Capsule, v: Name, cap': Capsule, v': Name, n: nat) {
    && Readable(cap', v') && 0 < n <= |Entries(cap', v')|
    && var first := Entries(cap', v')[|Entries(cap', v')| - n];
       && first in cap' && cap'[first].prev != []
       && if v == [] then cap'[v'].prev[0] == cap'[cap'[v'].prev[1]].prev[0] == cap'[first].prev[0] == dc
          else && Readable(cap, v) && cap'[v'].prev[0] == v
               && cap'[cap'[v'].prev[1]].prev[0] == cap[v].prev[1]
               && cap'[first].prev[0] == cap[cap[v].prev[1]].prev[1]
  }

  lemma ModifyLinksBack(w: World, st: Store, dc: Name, descs: seq<Desc>, inodeHash: Name, aesKey: seq<byte>,
                        clock: nat -> int, ok: nat -> bool)
    requires Fine(w) && Inv(w, st) && LegalModify(w, st, dc, descs, aesKey, clock)
    requires ModifyStep(w, st, dc, descs, inodeHash, aesKey, clock, ok).ret == NO_ERR
    ensures var st' := ModifyStep(w, st, dc, descs, inodeHash, aesKey, clock, ok).st;
            LinksBackTo(dc, CapsuleOf(st, dc), Latest(st, dc), CapsuleOf(st', dc), Latest(st', dc), |descs|)
  {
    hide Inv, ModifyStep, DataRecords, NoCollision, Batch, LittleEndian, Parse;
    ModifyPublishes(w, st, dc, descs, inodeHash, aesKey, clock, ok);
    BaseFound(w, st, dc, aesKey);
    var b := BaseOf(st, dc, aesKey).value;
    DataRecordAt(w, Or(b.data, dc), descs, clock, 0);
    if Latest(st, dc) != [] {
      LatestReadable(w, st, dc);
    }
  }

  lemma LatestReadable(w: World, st: Store, dc: Name)
    requires Inv(w, st) && Latest(st, dc) != []
    ensures var cap, v := CapsuleOf(st, dc), Latest(st, dc);
            && dc in st.capsules && Readable(cap, v)
            && cap[v].prev[1] != [] && cap[cap[v].prev[1]].prev[1] != []
  {
    var cap, v := CapsuleOf(st, dc), Latest(st, dc);
    ClosedReadable(w, dc, cap, v);
    NamesAreHashes(w, dc, cap);
    assert WellFormed(dc, cap, cap[v]) && WellFormed(dc, cap, cap[cap[v].prev[1]]);
  }

  lemma NewCapsuleClosed(w: World, time: int)
    ensures var dc := w.nameOf(MetaRecord(time)); Closed(w, dc, map[dc := MetaRecord(time)])
  {
  }

  /** `CreateNew` with a new name keeps the store well-formed and every other file as it was. */
  lemma CreateKeepsInv(w: World, st: Store, time: int, ok: bool)
    requires Inv(w, st) && w.nameOf(MetaRecord(time)) !in st.capsules
    ensures var r := CreateStep(w, st, time, ok);
            var dc := w.nameOf(MetaRecord(time));
            && Inv(w, r.st) && StoreExtends(st, r.st)
            && (forall d :: d != dc ==> Latest(r.st, d) == Latest(st, d) && CapsuleOf(r.st, d) == CapsuleOf(st, d))
            && (r.ret == NO_ERR <==> ok)
            && (r.ret == NO_ERR ==> dc in r.st.capsules && r.st.capsules[dc] == map[dc := MetaRecord(time)])
            && (r.ret == NO_ERR ==> dc in r.st.index) && (r.ret != NO_ERR ==> r.st == st)
            && Latest(r.st, dc) == []
  {
    hide Closed;
    NewCapsuleClosed(w, time);
  }

  /** A creation leaves the latest version of every file as it was exactly when its write fails or the
      name it gets has no version yet. The name depends on the clock alone, so a second creation in
      one tick can meet a file with versions; that file is then the one that loses them. */
  lemma CreateForgetsExact(w: World, st: Store, time: int, ok: bool)
    ensures var r, dc := CreateStep(w, st, time, ok), w.nameOf(MetaRecord(time));
            && ((forall d :: Latest(r.st, d) == Latest(st, d)) <==> !ok || Latest(st, dc) == [])
            && (forall d :: d != dc ==> Latest(r.st, d) == Latest(st, d))
            && (ok ==> r.ret == NO_ERR && Latest(r.st, dc) == [])
  {
    var r, dc := CreateStep(w, st, time, ok), w.nameOf(MetaRecord(time));
    assert ok ==> Latest(r.st, dc) == [];
  }
}

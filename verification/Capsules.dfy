/** Hash-linked records and what one request does to them.

    A file is a capsule: a set of records named by the hash of their headers. The middleware's index
    points to the latest inode record of each file. `Modify` is specified by the batch of records it
    composes and by how far the writes of that batch get. */
module Capsules {
  import opened Bytes
  import opened BlockmapCodec
  import opened Ciphers

  datatype Kind = Meta | Directory | Inode | BlockMap | DataBlock

  /** A record: the header fields that the name depends on, and the payload (the header holds its hash). */
  datatype Record = Record(kind: Kind, prev: seq<Name>, payload: seq<byte>, time: int)

  /** One directory of the record server. */
  type Capsule = map<Name, Record>

  datatype Store = Store(index: map<Name, Name>, capsules: map<Name, Capsule>)

  /** The environment of a run: the header hash, the cipher, the middleware's key, the block size. */
  datatype World = World(nameOf: Record -> Hash, cipher: Cipher, mwKey: seq<byte>, bs: nat)

  /** A dirty block on its way to the middleware. */
  datatype Desc = Desc(data: seq<byte>, offset: nat)

  ghost predicate Fine(w: World) {
    w.bs > 0 && Sound(w.cipher)
  }

  const SIZE_LEN := 8
  const INODE_PAYLOAD_SIZE := SIZE_LEN + AES_KEY_LEN + AES_PAD_LEN

  // ---- what a request finds ----

  /** `index_[dc]`, with the empty name for an unknown file. */
  function Latest(st: Store, dc: Name): (n: Name) {
    if dc in st.index then st.index[dc] else []
  }

  /** What `Modify` takes from the stored version: names of block map and latest data block, the
      parsed map, and the first 16 bytes behind the size field as the file key. */
  datatype Base = Base(bm: Name, data: Name, entries: seq<Hash>, key: seq<byte>)

  function Lookup(st: Store, dc: Name, n: Name): (r: Option<Record>) {
    if dc in st.capsules && n in st.capsules[dc] then Some(st.capsules[dc][n]) else None
  }

  predicate InodeShape(r: Record) {
    |r.prev| == 2 && |r.payload| == INODE_PAYLOAD_SIZE
  }

  predicate BlockMapShape(r: Record) {
    |r.prev| == 2 && |r.payload| % HASHLEN == 0
  }

  /** The records a request reads parse, when they are there. */
  predicate Parses(st: Store, dc: Name) {
    var ino := Lookup(st, dc, Latest(st, dc));
    ino.Some? ==>
      && InodeShape(ino.value)
      && var bm := Lookup(st, dc, ino.value.prev[1]); bm.Some? ==> BlockMapShape(bm.value)
  }

  function BaseOf(st: Store, dc: Name, aesKey: seq<byte>): (r: Option<Base>) {
    if Latest(st, dc) == [] then Some(Base([], [], [], aesKey)) else
      var ino := Lookup(st, dc, Latest(st, dc));
      if ino.None? || !InodeShape(ino.value) then None else
        var bm := Lookup(st, dc, ino.value.prev[1]);
        if bm.None? || !BlockMapShape(bm.value) then None else
          Some(Base(ino.value.prev[1], bm.value.prev[1], Parse(bm.value.payload),
                    ino.value.payload[SIZE_LEN..SIZE_LEN + AES_KEY_LEN]))
  }

  // ---- the batch a request composes ----

  function Or(n: Name, dc: Name): (r: Name) {
    if n != [] then n else dc
  }

  function LinkAt(w: World, first: Name, rs: seq<Record>, j: nat): (r: Name)
    requires j <= |rs|
  {
    if j == 0 then first else w.nameOf(rs[j - 1])
  }

  /** The data records: each links to the one before, the first to `first`. */
  function DataRecords(w: World, first: Name, descs: seq<Desc>, clock: nat -> int): (r: seq<Record>)
    ensures |r| == |descs|
  {
    if descs == [] then [] else
      var n := |descs| - 1;
      var p := DataRecords(w, first, descs[..n], clock);
      p + [Record(DataBlock, [LinkAt(w, first, p, n)], descs[n].data, clock(n))]
  }

  lemma {:induction false} DataRecordAt(w: World, first: Name, descs: seq<Desc>, clock: nat -> int, j: nat)
    requires j < |descs|
    ensures var r := DataRecords(w, first, descs, clock);
            r[j] == Record(DataBlock, [LinkAt(w, first, r, j)], descs[j].data, clock(j))
    decreases |descs|
  {
    var n := |descs| - 1;
    var p, r := DataRecords(w, first, descs[..n], clock), DataRecords(w, first, descs, clock);
    assert r[..n] == p;
    assert LinkAt(w, first, r, j) == LinkAt(w, first, r[..n], j);
    if j == n {
    } else {
      DataRecordAt(w, first, descs[..n], clock, j);
      assert r[j] == p[j];
    }
  }

  function NamesOf(w: World, rs: seq<Record>): (r: seq<Hash>)
    ensures |r| == |rs|
  {
    seq<Hash>(|rs|, i requires 0 <= i < |rs| => w.nameOf(rs[i]))
  }

  function MapRecord(w: World, dc: Name, b: Base, data: seq<Record>, time: int): (r: Record)
    requires data != []
  {
    Record(BlockMap, [Or(b.bm, dc), w.nameOf(data[|data| - 1])], Serialise(b.entries + NamesOf(w, data)), time)
  }

  function InodeRecord(w: World, latest: Name, dc: Name, b: Base, blocks: nat, bm: Hash, time: int): (r: Record) {
    Record(Inode, [Or(latest, dc), bm], LittleEndian(blocks * w.bs, SIZE_LEN) + w.cipher.enc(w.mwKey, b.key), time)
  }

  /** All records of one request, in push order: data blocks, block map, inode. */
  function Batch(w: World, dc: Name, latest: Name, b: Base, descs: seq<Desc>, clock: nat -> int): (r: seq<Record>)
    requires descs != []
    ensures |r| == |descs| + 2
  {
    var n := |descs|;
    var data := DataRecords(w, Or(b.data, dc), descs, clock);
    var bm := MapRecord(w, dc, b, data, clock(n));
    data + [bm, InodeRecord(w, latest, dc, b, n, w.nameOf(bm), clock(n + 1))]
  }

  // ---- how far it gets ----

  /** One server write: only the record that bears the capsule's name may create the capsule. */
  function WriteOne(caps: map<Name, Capsule>, dc: Name, name: Name, r: Record,
                    ok: bool): (res: Option<map<Name, Capsule>>) {
    if !ok || (dc !in caps && name != dc) then None
    else Some(caps[dc := (if dc in caps then caps[dc] else map[])[name := r]])
  }

  /** The server after the writes of a batch, stopping at the first that fails. */
  datatype Progress = Progress(caps: map<Name, Capsule>, done: nat)

  function WriteAll(w: World, caps: map<Name, Capsule>, dc: Name, rs: seq<Record>, ok: nat -> bool): (p: Progress)
    ensures p.done <= |rs|
  {
    if rs == [] then Progress(caps, 0) else
      var n := |rs| - 1;
      var p := WriteAll(w, caps, dc, rs[..n], ok);
      if p.done < n then p else
        var c := WriteOne(p.caps, dc, w.nameOf(rs[n]), rs[n], ok(n));
        if c.None? then p else Progress(c.value, n + 1)
  }

  datatype Outcome = Outcome(st: Store, ret: int)

  /** `index_[dc]` on the left of a comparison enters an unknown file into the index. */
  function Touch(st: Store, dc: Name): (r: Store) {
    if dc in st.index then st else st.(index := st.index[dc := []])
  }

  function ModifyStep(w: World, st: Store, dc: Name, descs: seq<Desc>, inodeHash: Name, aesKey: seq<byte>,
                      clock: nat -> int, ok: nat -> bool): (r: Outcome)
    requires descs != []
    ensures r.ret <= NO_ERR
  {
    var st1 := Touch(st, dc);
    if inodeHash != Latest(st, dc) then Outcome(st1, ERR_NOT_FOUND) else
      var b := BaseOf(st, dc, aesKey);
      if b.None? then Outcome(st1, ERR_NOT_FOUND) else
        var rs := Batch(w, dc, Latest(st, dc), b.value, descs, clock);
        var p := WriteAll(w, st.capsules, dc, rs, ok);
        if p.done < |rs| then Outcome(Store(st1.index, p.caps), ERR_IO)
        else Outcome(Store(st1.index[dc := w.nameOf(rs[|rs| - 1])], p.caps), NO_ERR)
  }

  function MetaRecord(time: int): (r: Record) {
    Record(Meta, [], [], time)
  }

  function CreateStep(w: World, st: Store, time: int, ok: bool): (r: Outcome) {
    var dc := w.nameOf(MetaRecord(time));
    var c := WriteOne(st.capsules, dc, dc, MetaRecord(time), ok);
    if c.None? then Outcome(st, ERR_IO) else Outcome(Store(st.index[dc := []], c.value), NO_ERR)
  }

  // ---- well-formed stores ----

  ghost predicate Has(cap: Capsule, kind: Kind, n: Name) {
    n in cap && cap[n].kind == kind
  }

  /** A link back: to the capsule's own META record or to a stored record of the same kind. */
  ghost predicate LinksBack(dc: Name, cap: Capsule, kind: Kind, n: Name) {
    n == dc || Has(cap, kind, n)
  }

  ghost predicate WellFormed(dc: Name, cap: Capsule, r: Record) {
    match r.kind
    case Meta => r.prev == [] && r.payload == []
    case Directory => false
    case DataBlock => |r.prev| == 1 && LinksBack(dc, cap, DataBlock, r.prev[0])
    case BlockMap =>
      && BlockMapShape(r)
      && LinksBack(dc, cap, BlockMap, r.prev[0])
      && Has(cap, DataBlock, r.prev[1])
      && (forall i :: 0 <= i < |Parse(r.payload)| ==> Has(cap, DataBlock, Parse(r.payload)[i]))
    case Inode =>
      && InodeShape(r)
      && LinksBack(dc, cap, Inode, r.prev[0])
      && Has(cap, BlockMap, r.prev[1])
  }

  /** Every name a stored record mentions names a stored record of the right kind. */
  ghost predicate Closed(w: World, dc: Name, cap: Capsule) {
    && dc in cap && cap[dc].kind == Meta
    && forall n :: n in cap ==> w.nameOf(cap[n]) == n && WellFormed(dc, cap, cap[n])
  }

  ghost predicate Inv(w: World, st: Store) {
    && (forall dc :: dc in st.capsules ==> Closed(w, dc, st.capsules[dc]))
    && (forall dc :: dc in st.index ==>
          st.index[dc] == [] || (dc in st.capsules && Has(st.capsules[dc], Inode, st.index[dc])))
  }

  /** No record was lost or changed. */
  ghost predicate Extends(a: Capsule, b: Capsule) {
    forall n :: n in a ==> n in b && b[n] == a[n]
  }

  ghost predicate StoreExtends(a: Store, b: Store) {
    forall dc :: dc in a.capsules ==> dc in b.capsules && Extends(a.capsules[dc], b.capsules[dc])
  }

  lemma ExtendsRefl(a: Store)
    ensures StoreExtends(a, a)
  {
  }

  lemma ExtendsTrans(a: Store, b: Store, c: Store)
    requires StoreExtends(a, b) && StoreExtends(b, c)
    ensures StoreExtends(a, c)
  {
  }

  /** The hash assumption, for the records of one batch only: no two different records meet on one
      name, and none lands on the capsule's own name. */
  ghost predicate NoCollision(w: World, dc: Name, cap: Capsule, rs: seq<Record>) {
    && (forall i :: 0 <= i < |rs| ==>
          w.nameOf(rs[i]) != dc && (w.nameOf(rs[i]) in cap ==> cap[w.nameOf(rs[i])] == rs[i]))
    && (forall i, j :: 0 <= i < |rs| && 0 <= j < |rs| && w.nameOf(rs[i]) == w.nameOf(rs[j]) ==> rs[i] == rs[j])
  }

  ghost function CapsuleOf(st: Store, dc: Name): (cap: Capsule) {
    if dc in st.capsules then st.capsules[dc] else map[]
  }

  /** A capsule after the first `n` records of a batch. */
  ghost function Added(w: World, cap: Capsule, rs: seq<Record>, n: nat): (r: Capsule)
    requires n <= |rs|
  {
    if n == 0 then cap else Added(w, cap, rs, n - 1)[w.nameOf(rs[n - 1]) := rs[n - 1]]
  }

  lemma {:induction false} AddedHas(w: World, dc: Name, cap: Capsule, rs: seq<Record>, n: nat)
    requires NoCollision(w, dc, cap, rs) && n <= |rs|
    ensures Extends(cap, Added(w, cap, rs, n))
    ensures forall i :: 0 <= i < n ==>
              w.nameOf(rs[i]) in Added(w, cap, rs, n) && Added(w, cap, rs, n)[w.nameOf(rs[i])] == rs[i]
    ensures forall m :: m in Added(w, cap, rs, n) && m !in cap ==> exists i :: 0 <= i < n && w.nameOf(rs[i]) == m
  {
    if n == 0 {
    } else {
      AddedHas(w, dc, cap, rs, n - 1);
      assert w.nameOf(rs[n - 1]) in Added(w, cap, rs, n);
    }
  }

  lemma WellFormedExtends(dc: Name, a: Capsule, b: Capsule, r: Record)
    requires Extends(a, b) && WellFormed(dc, a, r)
    ensures WellFormed(dc, b, r)
  {
  }

  lemma ClosedExtends(w: World, dc: Name, cap: Capsule, r: Record)
    requires Closed(w, dc, cap) && WellFormed(dc, cap, r) && w.nameOf(r) != dc
    requires w.nameOf(r) in cap ==> cap[w.nameOf(r)] == r
    ensures Closed(w, dc, cap[w.nameOf(r) := r])
  {
    var b := cap[w.nameOf(r) := r];
    forall n | n in b
      ensures w.nameOf(b[n]) == n && WellFormed(dc, b, b[n])
    {
      WellFormedExtends(dc, cap, b, b[n]);
    }
  }

  ghost predicate Supported(w: World, dc: Name, cap: Capsule, rs: seq<Record>, n: nat)
    requires n <= |rs|
  {
    n > 0 ==> Supported(w, dc, cap, rs, n - 1) && WellFormed(dc, Added(w, cap, rs, n - 1), rs[n - 1])
  }

  /** If every record of a batch is supported by the records before it, the capsule is closed
      wherever the batch stops. */
  lemma {:induction false} AddedClosed(w: World, dc: Name, cap: Capsule, rs: seq<Record>, n: nat)
    requires Closed(w, dc, cap) && NoCollision(w, dc, cap, rs) && n <= |rs|
    requires Supported(w, dc, cap, rs, n)
    ensures Closed(w, dc, Added(w, cap, rs, n))
  {
    if n == 0 {
    } else {
      AddedClosed(w, dc, cap, rs, n - 1);
      NoClash(w, dc, cap, rs, n - 1);
      ClosedExtends(w, dc, Added(w, cap, rs, n - 1), rs[n - 1]);
    }
  }

  /** The next record of a batch never changes a record stored so far. */
  lemma NoClash(w: World, dc: Name, cap: Capsule, rs: seq<Record>, n: nat)
    requires NoCollision(w, dc, cap, rs) && n < |rs|
    ensures w.nameOf(rs[n]) != dc
    ensures w.nameOf(rs[n]) in Added(w, cap, rs, n) ==> Added(w, cap, rs, n)[w.nameOf(rs[n])] == rs[n]
  {
    AddedHas(w, dc, cap, rs, n);
    var a, m := Added(w, cap, rs, n), w.nameOf(rs[n]);
    if m in a && m !in cap {
      var i :| 0 <= i < n && w.nameOf(rs[i]) == m;
      assert rs[i] == rs[n];
    }
  }

  /** The server after a batch is the capsule with as many records as got through; other capsules
      are untouched. A batch for a capsule that does not exist stores nothing. */
  lemma {:induction false} WriteAllAdds(w: World, caps: map<Name, Capsule>, dc: Name, rs: seq<Record>, ok: nat -> bool)
    requires forall i :: 0 <= i < |rs| ==> w.nameOf(rs[i]) != dc
    ensures var p := WriteAll(w, caps, dc, rs, ok);
            if dc in caps then p.caps == caps[dc := Added(w, caps[dc], rs, p.done)]
            else p == Progress(caps, 0)
    decreases |rs|
  {
    if rs == [] {
      assert dc in caps ==> caps[dc := caps[dc]] == caps;
    } else {
      var n := |rs| - 1;
      WriteAllAdds(w, caps, dc, rs[..n], ok);
      var p := WriteAll(w, caps, dc, rs[..n], ok);
      if dc in caps {
        AddedPrefix(w, caps[dc], rs, n, p.done);
      }
    }
  }

  lemma {:induction false} AddedPrefix(w: World, cap: Capsule, rs: seq<Record>, m: nat, n: nat)
    requires n <= m <= |rs|
    ensures Added(w, cap, rs[..m], n) == Added(w, cap, rs, n)
  {
    if n == 0 {
    } else {
      AddedPrefix(w, cap, rs, m, n - 1);
    }
  }
}
